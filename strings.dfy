/**
 * Joining strings with a one-character separator, the inverse split, and the
 * facts about both that the query-parameter serialiser relies on.
 */
module Strings {

  /** The number of characters in all of `parts` together. */
  function SumLengths(parts: seq<string>): nat
  {
    if |parts| == 0 then 0 else |parts[0]| + SumLengths(parts[1..])
  }

  /** `parts` in order with `sep` between each two neighbours; no leading or trailing `sep`. */
  function Join(parts: seq<string>, sep: char): (r: string)
    ensures |r| == SumLengths(parts) + (if |parts| == 0 then 0 else |parts| - 1)
  {
    if |parts| == 0 then ""
    else if |parts| == 1 then parts[0]
    else parts[0] + [sep] + Join(parts[1..], sep)
  }

  /** Joining two non-empty lists puts exactly one separator between the halves. */
  lemma {:induction false} JoinConcat(s: seq<string>, t: seq<string>, sep: char)
    requires |s| > 0 && |t| > 0
    ensures Join(s + t, sep) == Join(s, sep) + [sep] + Join(t, sep)
  {
    assert (s + t)[0] == s[0];
    assert (s + t)[1..] == s[1..] + t;
    if |s| > 1 {
      JoinConcat(s[1..], t, sep);
    }
  }

  /** What has been built after the first `k` of `parts` were appended, each followed by
      `sep` unless it is the last of `parts`. */
  function JoinProgress(parts: seq<string>, k: nat, sep: char): string
    requires k <= |parts|
  {
    if k == 0 then "" else Join(parts[..k], sep) + (if k < |parts| then [sep] else [])
  }

  /** Appending the next part, and then `sep` unless it is the last one, advances the progress by one. */
  lemma JoinProgressStep(parts: seq<string>, k: nat, sep: char)
    requires k < |parts|
    ensures JoinProgress(parts, k + 1, sep)
         == JoinProgress(parts, k, sep) + parts[k] + (if k < |parts| - 1 then [sep] else [])
  {
    assert parts[..k + 1] == parts[..k] + [parts[k]];
    if k > 0 {
      JoinConcat(parts[..k], [parts[k]], sep);
    }
  }

  /** Once every part is appended, the progress is the join. */
  lemma JoinProgressDone(parts: seq<string>, sep: char)
    ensures JoinProgress(parts, |parts|, sep) == Join(parts, sep)
  {
    if |parts| > 0 {
      calc {
        JoinProgress(parts, |parts|, sep);
        Join(parts[..|parts|], sep);
        { assert parts[..|parts|] == parts; }
        Join(parts, sep);
      }
    }
  }

  /** A character that is neither `sep` nor in any part does not occur in the join. */
  lemma {:induction false} JoinExcludes(parts: seq<string>, sep: char, c: char)
    requires c != sep
    requires forall i :: 0 <= i < |parts| ==> c !in parts[i]
    ensures c !in Join(parts, sep)
  {
    if |parts| > 1 {
      JoinExcludes(parts[1..], sep, c);
    }
  }

  /** Where the `i`-th part starts in `Join(parts, sep)`. */
  function JoinOffset(parts: seq<string>, i: nat): nat
    requires i < |parts|
  {
    if i == 0 then 0 else |parts[0]| + 1 + JoinOffset(parts[1..], i - 1)
  }

  /** Appending three strings one after the other appends their concatenation. */
  lemma AppendThree(a: string, b: string, c: string, d: string)
    ensures a + b + c + d == a + (b + c + d)
  {
  }

  /** A slice of the right operand of a concatenation, positioned in the whole. */
  lemma SliceRight(a: string, b: string, x: nat, y: nat)
    requires x <= y <= |b|
    ensures (a + b)[|a| + x..|a| + y] == b[x..y]
  {
  }

  /** A slice of a slice is a slice of the whole. */
  lemma SliceOfSlice(s: string, x: nat, y: nat, p: nat, q: nat)
    requires x <= y <= |s| && p <= q <= y - x
    ensures s[x..y][p..q] == s[x + p..x + q]
  {
    forall k | 0 <= k < q - p
      ensures s[x..y][p..q][k] == s[x + p..x + q][k]
    {
      assert s[x..y][p..q][k] == s[x..y][p + k] == s[x + p + k];
    }
  }

  /** Every part occurs verbatim at its offset, followed by `sep` unless it is the last. */
  lemma {:induction false} JoinAt(parts: seq<string>, i: nat, sep: char)
    requires i < |parts|
    ensures JoinOffset(parts, i) + |parts[i]| <= |Join(parts, sep)|
    ensures Join(parts, sep)[JoinOffset(parts, i)..JoinOffset(parts, i) + |parts[i]|] == parts[i]
    ensures i + 1 < |parts| ==>
      (JoinOffset(parts, i) + |parts[i]| < |Join(parts, sep)| &&
       Join(parts, sep)[JoinOffset(parts, i) + |parts[i]|] == sep)
  {
    var joined := Join(parts, sep);
    if |parts| == 1 {
      assert joined == parts[0];
    } else {
      var head := parts[0] + [sep];
      var rest := parts[1..];
      var tail := Join(rest, sep);
      assert joined == head + tail;
      if i == 0 {
        assert joined[..|parts[0]|] == parts[0];
        assert joined[|parts[0]|] == sep;
      } else {
        JoinAt(rest, i - 1, sep);
        var o := JoinOffset(rest, i - 1);
        var n := |parts[i]|;
        assert rest[i - 1] == parts[i];
        assert JoinOffset(parts, i) == |head| + o;
        SliceRight(head, tail, o, o + n);
        if i + 1 < |parts| {
          assert joined[|head| + o + n] == tail[o + n];
        }
      }
    }
  }

  /** The position of the first `c` in `s`. */
  function FirstIndex(s: string, c: char): (k: nat)
    requires c in s
    ensures k < |s| && s[k] == c
    ensures forall j :: 0 <= j < k ==> s[j] != c
  {
    if s[0] == c then 0
    else
      assert c in s[1..] by {
        var m :| 0 <= m < |s| && s[m] == c;
        assert s[1..][m - 1] == c;
      }
      1 + FirstIndex(s[1..], c)
  }

  /** `s` cut at every `sep`; always at least one piece, and no piece holds a `sep`. */
  function Split(s: string, sep: char): (r: seq<string>)
    ensures |r| > 0
    ensures forall i :: 0 <= i < |r| ==> sep !in r[i]
    decreases |s|
  {
    if sep in s then
      var k := FirstIndex(s, sep);
      [s[..k]] + Split(s[k + 1..], sep)
    else [s]
  }

  /** Splitting the join of a non-empty list of parts gives the parts back when no part
      holds the separator. */
  lemma {:induction false} SplitJoin(parts: seq<string>, sep: char)
    requires |parts| > 0
    requires forall i :: 0 <= i < |parts| ==> sep !in parts[i]
    ensures Split(Join(parts, sep), sep) == parts
  {
    if |parts| > 1 {
      var p := parts[0];
      var rest := Join(parts[1..], sep);
      var s := p + [sep] + rest;
      assert Join(parts, sep) == s;
      assert s[|p|] == sep;
      var k := FirstIndex(s, sep);
      assert k == |p|;
      assert s[..k] == p;
      assert s[k + 1..] == rest;
      SplitJoin(parts[1..], sep);
      assert parts == [p] + parts[1..];
    }
  }

  /** Joining the pieces of a split gives the string back. */
  lemma {:induction false} JoinSplit(s: string, sep: char)
    ensures Join(Split(s, sep), sep) == s
    decreases |s|
  {
    if sep in s {
      var k := FirstIndex(s, sep);
      var rest := Split(s[k + 1..], sep);
      JoinSplit(s[k + 1..], sep);
      var pieces := [s[..k]] + rest;
      assert pieces[0] == s[..k] && pieces[1..] == rest;
      assert s == s[..k] + [sep] + s[k + 1..];
    }
  }
}
