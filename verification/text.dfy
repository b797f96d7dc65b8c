/** Character-level helpers over strings: locating a separator, splitting on
    it and joining with it. They give the markup produced by the rasteriser a
    decoder, so that what a span carries can be read back. */
module Text {

  /** Position of the first `c` in `s`, or `|s|` when `s` has none. */
  function IndexOf(s: string, c: char): (i: nat)
    ensures i <= |s|
    ensures i < |s| ==> s[i] == c
    ensures forall j :: 0 <= j < i ==> s[j] != c
    ensures i == |s| <==> c !in s
  {
    if |s| == 0 then 0
    else if s[0] == c then 0
    else 1 + IndexOf(s[1..], c)
  }

  lemma IndexOfAfter(a: string, c: char, b: string)
    requires c !in a
    ensures IndexOf(a + [c] + b, c) == |a|
  {
    var s := a + [c] + b;
    assert s[|a|] == c;
  }

  /** The pieces of `s` between occurrences of `c`; never empty. */
  function Split(s: string, c: char): (parts: seq<string>)
    ensures 1 <= |parts|
    decreases |s|
  {
    var i := IndexOf(s, c);
    if i == |s| then [s] else [s[..i]] + Split(s[i + 1..], c)
  }

  /** The pieces separated by single `c` characters. */
  function Join(parts: seq<string>, c: char): string
    requires 1 <= |parts|
  {
    if |parts| == 1 then parts[0] else parts[0] + [c] + Join(parts[1..], c)
  }

  lemma SplitAt(s: string, c: char, i: nat)
    requires i < |s| && IndexOf(s, c) == i
    ensures Split(s, c) == [s[..i]] + Split(s[i + 1..], c)
  {
    var j := IndexOf(s, c);
    assert j != |s|;
  }

  lemma SplitNone(s: string, c: char)
    requires c !in s
    ensures Split(s, c) == [s]
  {
  }

  lemma {:induction false} SplitJoin(parts: seq<string>, c: char)
    requires 1 <= |parts|
    requires forall k :: 0 <= k < |parts| ==> c !in parts[k]
    ensures Split(Join(parts, c), c) == parts
    decreases |parts|
  {
    if |parts| == 1 {
      SplitNone(parts[0], c);
    } else {
      var head, tail := parts[0], parts[1..];
      var rest := Join(tail, c);
      var s := head + [c] + rest;
      assert Join(parts, c) == s;
      IndexOfAfter(head, c, rest);
      SplitAt(s, c, |head|);
      assert s[..|head|] == head;
      assert s[|head| + 1..] == rest;
      SplitJoin(tail, c);
      assert parts == [head] + tail;
    }
  }

}
