/** Joining a sequence of strings with a one-character separator, as Python's
    `sep.join(parts)` does, and its inverse, `s.split(sep)`. */
module Strings {

  /** `[sep].join(parts)`: the parts with one separator between neighbours
      and none at either end. */
  function Join(parts: seq<string>, sep: char): string
    decreases |parts|
  {
    if |parts| == 0 then ""
    else if |parts| == 1 then parts[0]
    else Join(parts[..|parts| - 1], sep) + [sep] + parts[|parts| - 1]
  }

  /** Index of the last occurrence of `c` in `s`, or -1 when there is none. */
  function LastIndexOf(s: string, c: char): (r: int)
    ensures -1 <= r < |s|
    ensures r >= 0 ==> s[r] == c
    ensures forall k :: r < k < |s| ==> s[k] != c
    decreases |s|
  {
    if |s| == 0 then -1
    else if s[|s| - 1] == c then |s| - 1
    else LastIndexOf(s[..|s| - 1], c)
  }

  /** Python's `s.split(sep)`: the maximal pieces of `s` between occurrences
      of `sep`; there is always at least one piece, and no piece contains `sep`. */
  function Split(s: string, sep: char): (r: seq<string>)
    ensures |r| >= 1
    ensures forall i :: 0 <= i < |r| ==> sep !in r[i]
    decreases |s|
  {
    var i := LastIndexOf(s, sep);
    if i < 0 then [s] else Split(s[..i], sep) + [s[i + 1..]]
  }

  /** No part holds `c`. */
  predicate NoneHolds(parts: seq<string>, c: char) {
    forall i :: 0 <= i < |parts| ==> c !in parts[i]
  }

  /** Both halves free of `c` make the whole sequence free of it. */
  lemma ConcatNoneHolds(a: seq<string>, b: seq<string>, c: char)
    requires NoneHolds(a, c) && NoneHolds(b, c)
    ensures NoneHolds(a + b, c)
  {
    forall i | 0 <= i < |a + b| ensures c !in (a + b)[i] {
      if i < |a| {
        assert (a + b)[i] == a[i];
      } else {
        assert (a + b)[i] == b[i - |a|];
      }
    }
  }

  /** A join contains `c` only if a part or the separator does. */
  lemma {:induction false} JoinNoneHolds(parts: seq<string>, sep: char, c: char)
    requires sep != c && NoneHolds(parts, c)
    ensures c !in Join(parts, sep)
    decreases |parts|
  {
    if |parts| > 1 {
      var front := parts[..|parts| - 1];
      assert NoneHolds(front, c) by {
        forall i | 0 <= i < |front| ensures c !in front[i] {
          assert front[i] == parts[i];
        }
      }
      JoinNoneHolds(front, sep, c);
      assert c !in parts[|parts| - 1];
    }
  }

  /** The text of a join splits back into the parts, provided no part holds
      the separator itself. */
  lemma {:induction false} SplitJoin(parts: seq<string>, sep: char)
    requires |parts| >= 1
    requires NoneHolds(parts, sep)
    ensures Split(Join(parts, sep), sep) == parts
    decreases |parts|
  {
    if |parts| == 1 {
      var s := parts[0];
      assert LastIndexOf(s, sep) == -1;
    } else {
      var front, last := parts[..|parts| - 1], parts[|parts| - 1];
      var j := Join(front, sep);
      var s := j + [sep] + last;
      assert Join(parts, sep) == s;
      var i := LastIndexOf(s, sep);
      assert s[|j|] == sep;
      assert i == |j|;
      assert s[..i] == j;
      assert s[i + 1..] == last;
      SplitJoin(front, sep);
      assert parts == front + [last];
    }
  }

  /** Splitting and joining again gives back the original text. */
  lemma {:induction false} JoinSplit(s: string, sep: char)
    ensures Join(Split(s, sep), sep) == s
    decreases |s|
  {
    var i := LastIndexOf(s, sep);
    if i >= 0 {
      var front := Split(s[..i], sep);
      var pieces := front + [s[i + 1..]];
      assert Split(s, sep) == pieces;
      assert pieces[..|pieces| - 1] == front;
      JoinSplit(s[..i], sep);
      assert Join(pieces, sep) == s[..i] + [sep] + s[i + 1..];
      assert s[..i] + [sep] + s[i + 1..] == s;
    }
  }
}
