/**
 * The two Python string operations the bot relies on, over `string`:
 * `str.split(sep)`, with the first-occurrence search it performs, and
 * `sep.join(parts)`.
 */
module Strings {
  import opened Wrappers

  /** `sep` occurs in `s` starting at position `k`. */
  predicate OccursAt(s: string, sep: string, k: nat) {
    k + |sep| <= |s| && s[k..k + |sep|] == sep
  }

  /** `sep` occurs nowhere in `s` (no occurrence can start past its end). */
  predicate Free(s: string, sep: string) {
    forall k: nat | k <= |s| :: !OccursAt(s, sep, k)
  }

  /** An occurrence past the first position of `s` is an occurrence in its tail, one place earlier. */
  lemma OccursInTail(s: string, sep: string)
    requires |s| > 0
    ensures forall k: nat | 1 <= k :: OccursAt(s, sep, k) <==> OccursAt(s[1..], sep, k - 1)
  {
    forall k: nat | 1 <= k
      ensures OccursAt(s, sep, k) <==> OccursAt(s[1..], sep, k - 1)
    {
      if k + |sep| <= |s| {
        assert s[1..][k - 1..k - 1 + |sep|] == s[k..k + |sep|];
      }
    }
  }

  /** The search `str.split` performs: the first position where `sep` occurs, if any. */
  function IndexOf(s: string, sep: string): (r: Option<nat>)
    requires |sep| > 0
    ensures r.Some? ==> OccursAt(s, sep, r.value)
    ensures r.Some? ==> forall k: nat :: k < r.value ==> !OccursAt(s, sep, k)
    ensures r.None? ==> Free(s, sep)
    decreases |s|
  {
    if |s| < |sep| then None
    else if s[..|sep|] == sep then Some(0)
    else
      var rest := IndexOf(s[1..], sep);
      OccursInTail(s, sep);
      assert !OccursAt(s, sep, 0);
      match rest
      case None => None
      case Some(k) => Some(k + 1)
  }

  /** Python's `s.split(sep)`: the pieces of `s` between the occurrences of `sep`. */
  function Split(s: string, sep: string): (parts: seq<string>)
    requires |sep| > 0
    ensures |parts| >= 1
    decreases |s|
  {
    match IndexOf(s, sep)
    case None => [s]
    case Some(i) => [s[..i]] + Split(s[i + |sep|..], sep)
  }

  /** No piece of a split contains the separator. */
  lemma {:induction false} SplitPiecesAreFree(s: string, sep: string)
    requires |sep| > 0
    ensures forall j :: 0 <= j < |Split(s, sep)| ==> Free(Split(s, sep)[j], sep)
    decreases |s|
  {
    match IndexOf(s, sep)
    case None =>
    case Some(i) =>
      var head := s[..i];
      assert Free(head, sep) by {
        forall k: nat | OccursAt(head, sep, k) ensures false {
          assert s[k..k + |sep|] == head[k..k + |sep|];
          assert OccursAt(s, sep, k);
        }
      }
      SplitPiecesAreFree(s[i + |sep|..], sep);
      SplitAtFirst(s, sep, i);
  }

  /**
   * Python's `sep.join(parts)`; the empty list joins to the empty string.
   * The result starts with the first piece.
   */
  function Join(parts: seq<string>, sep: string): (r: string)
    ensures |parts| > 0 ==> parts[0] <= r
  {
    if |parts| == 0 then ""
    else if |parts| == 1 then parts[0]
    else parts[0] + sep + Join(parts[1..], sep)
  }

  lemma JoinCons(head: string, rest: seq<string>, sep: string)
    requires |rest| >= 1
    ensures Join([head] + rest, sep) == head + sep + Join(rest, sep)
  {
    assert ([head] + rest)[1..] == rest;
  }

  lemma SplitAtFirst(s: string, sep: string, i: nat)
    requires |sep| > 0 && IndexOf(s, sep) == Some(i)
    ensures Split(s, sep) == [s[..i]] + Split(s[i + |sep|..], sep)
  {
  }

  /** Joining the pieces of a split with the same separator gives back the string. */
  lemma {:induction false} JoinSplit(s: string, sep: string)
    requires |sep| > 0
    ensures Join(Split(s, sep), sep) == s
    decreases |s|
  {
    match IndexOf(s, sep)
    case None =>
    case Some(i) =>
      var tail := s[i + |sep|..];
      JoinSplit(tail, sep);
      SplitAtFirst(s, sep, i);
      JoinCons(s[..i], Split(tail, sep), sep);
      assert s == s[..i] + s[i..i + |sep|] + tail;
  }

  /** A string that starts with a piece free of the separator's first character, then the separator. */
  lemma IndexOfAfterPiece(x: string, sep: string, rest: string)
    requires |sep| > 0
    requires sep[0] !in x
    ensures IndexOf(x + sep + rest, sep) == Some(|x|)
  {
    var s := x + sep + rest;
    assert OccursAt(s, sep, |x|) by { assert s[|x|..|x| + |sep|] == sep; }
    forall k: nat | k < |x| ensures !OccursAt(s, sep, k) {
      assert s[k] == x[k];
    }
  }

  /** A piece free of the separator's first character is not split any further. */
  lemma PieceIsNotSplit(x: string, sep: string)
    requires |sep| > 0
    requires sep[0] !in x
    ensures Split(x, sep) == [x]
  {
    forall k: nat | k + |sep| <= |x| ensures !OccursAt(x, sep, k) {
      assert x[k..k + |sep|][0] == x[k];
    }
  }

  /**
   * Splitting a join gives back the pieces, provided no piece contains the
   * separator's first character (otherwise a piece may itself be cut).
   */
  lemma {:induction false} SplitJoin(parts: seq<string>, sep: string)
    requires |sep| > 0 && |parts| >= 1
    requires forall j :: 0 <= j < |parts| ==> sep[0] !in parts[j]
    ensures Split(Join(parts, sep), sep) == parts
    decreases |parts|
  {
    if |parts| == 1 {
      PieceIsNotSplit(parts[0], sep);
    } else {
      var rest := Join(parts[1..], sep);
      var s := parts[0] + sep + rest;
      assert Join(parts, sep) == s;
      IndexOfAfterPiece(parts[0], sep, rest);
      SplitAtFirst(s, sep, |parts[0]|);
      assert s[..|parts[0]|] == parts[0];
      assert s[|parts[0]| + |sep|..] == rest;
      SplitJoin(parts[1..], sep);
      assert parts == [parts[0]] + parts[1..];
    }
  }

  /** The join is empty exactly when there is no piece, or one empty piece. */
  lemma JoinIsEmpty(parts: seq<string>, sep: string)
    requires |sep| > 0
    ensures Join(parts, sep) == "" <==> |parts| == 0 || (|parts| == 1 && parts[0] == "")
  {
    if |parts| >= 2 {
      assert |Join(parts, sep)| >= |sep|;
    }
  }

  /** With a one-character separator, being free of it means not containing that character. */
  lemma FreeOfChar(s: string, c: char)
    ensures Free(s, [c]) <==> c !in s
  {
    if c in s {
      var k :| 0 <= k < |s| && s[k] == c;
      assert s[k..k + 1] == [c];
      assert OccursAt(s, [c], k);
    }
    forall k: nat | k + 1 <= |s| ensures OccursAt(s, [c], k) <==> s[k] == c {
      assert s[k..k + 1][0] == s[k];
    }
  }

  /** A join of two or more pieces ends with the separator and the last piece. */
  lemma {:induction false} JoinSnoc(parts: seq<string>, sep: string)
    requires |parts| >= 2
    ensures Join(parts, sep) == Join(parts[..|parts| - 1], sep) + sep + parts[|parts| - 1]
    decreases |parts|
  {
    if |parts| > 2 {
      var n := |parts| - 1;
      JoinSnoc(parts[1..], sep);
      assert parts[1..][..n - 1] == parts[..n][1..];
    }
  }

  /**
   * The first piece of a split at a character: a prefix of `s` without that
   * character, ending at its first occurrence or at the end of `s`.
   */
  lemma FirstPiece(s: string, c: char)
    ensures var p := Split(s, [c])[0];
      && p <= s
      && c !in p
      && (|p| == |s| || s[|p|] == c)
  {
    var parts := Split(s, [c]);
    var p := parts[0];
    SplitPiecesAreFree(s, [c]);
    FreeOfChar(p, c);
    JoinSplit(s, [c]);
    if |parts| > 1 {
      assert s == p + [c] + Join(parts[1..], [c]);
    }
  }

  /**
   * The last piece of a split at a character: a suffix of `s` without that
   * character, starting after its last occurrence or at the start of `s`.
   */
  lemma LastPiece(s: string, c: char)
    ensures var parts := Split(s, [c]);
      var q := parts[|parts| - 1];
      && |q| <= |s|
      && q == s[|s| - |q|..]
      && c !in q
      && (|q| == |s| || s[|s| - |q| - 1] == c)
  {
    var parts := Split(s, [c]);
    var q := parts[|parts| - 1];
    SplitPiecesAreFree(s, [c]);
    FreeOfChar(q, c);
    JoinSplit(s, [c]);
    if |parts| > 1 {
      JoinSnoc(parts, [c]);
      var front := Join(parts[..|parts| - 1], [c]);
      assert s == front + [c] + q;
      assert s[|s| - |q|..] == q;
      assert s[|s| - |q| - 1] == c;
    }
  }
}
