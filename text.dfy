/**
 * The handful of Python `str` operations the record transformer relies on:
 * `lower()` (restricted to ASCII letters), the substring test `p in s`,
 * `s.split(sep)`, `sep.join(parts)` and `s.replace(old, new)`. Each is written as a
 * left-to-right scan, which is how CPython finds non-overlapping occurrences.
 */
module Text {

  // ---------------------------------------------------------------------
  // Lower-casing
  // ---------------------------------------------------------------------

  predicate IsUpper(c: char) { 'A' <= c <= 'Z' }

  function LowerChar(c: char): (r: char)
    ensures !IsUpper(r)
    ensures IsUpper(c) ==> r as int == c as int + 32
    ensures !IsUpper(c) ==> r == c
  {
    if IsUpper(c) then (c as int - 'A' as int + 'a' as int) as char else c
  }

  /** `s.lower()` for ASCII letters; every other character is kept. */
  function Lower(s: string): string {
    seq(|s|, i requires 0 <= i < |s| => LowerChar(s[i]))
  }

  /** No ASCII capital letter occurs in `s`. */
  predicate IsLowerCase(s: string) {
    forall i :: 0 <= i < |s| ==> !IsUpper(s[i])
  }

  lemma LowerIsLowerCase(s: string)
    ensures IsLowerCase(Lower(s))
  {
  }

  /** Lower-casing distributes over concatenation. */
  lemma LowerConcat(a: string, b: string)
    ensures Lower(a + b) == Lower(a) + Lower(b)
  {
  }

  /** Lower-casing twice is lower-casing once. */
  lemma LowerIdempotent(s: string)
    ensures Lower(Lower(s)) == Lower(s)
  {
  }

  // ---------------------------------------------------------------------
  // Substring search: `p in s`
  // ---------------------------------------------------------------------

  predicate StartsWith(s: string, p: string) {
    |p| <= |s| && s[..|p|] == p
  }

  /** `p` occurs in `s` starting at index `j`. */
  predicate OccursAt(s: string, p: string, j: int) {
    0 <= j && j + |p| <= |s| && s[j..j + |p|] == p
  }

  /** Python's `p in s`, tried at each starting position from the left. */
  predicate Contains(s: string, p: string)
    decreases |s|
  {
    StartsWith(s, p) || (|s| > 0 && Contains(s[1..], p))
  }

  /** `p in s` holds exactly when `p` occurs at some index of `s`. */
  lemma {:induction false} ContainsIffOccurs(s: string, p: string)
    ensures Contains(s, p) <==> exists j :: OccursAt(s, p, j)
    decreases |s|
  {
    if StartsWith(s, p) {
      assert OccursAt(s, p, 0);
    } else if |s| > 0 {
      ContainsIffOccurs(s[1..], p);
      if j :| OccursAt(s[1..], p, j) {
        assert s[1..][j..j + |p|] == s[j + 1..j + 1 + |p|];
        assert OccursAt(s, p, j + 1);
      }
      if j :| OccursAt(s, p, j) {
        assert j > 0;
        assert s[1..][j - 1..j - 1 + |p|] == s[j..j + |p|];
        assert OccursAt(s[1..], p, j - 1);
      }
    } else {
      assert |p| > 0;
    }
  }

  /** A pattern with a character that `s` lacks does not occur in `s`. */
  lemma {:induction false} AbsentChar(s: string, p: string, k: nat)
    requires k < |p| && p[k] !in s
    ensures !Contains(s, p)
    decreases |s|
  {
    if |s| > 0 {
      AbsentChar(s[1..], p, k);
    }
  }

  /** For a one-character pattern, `[c] in s` is membership of the character. */
  lemma {:induction false} ContainsChar(s: string, c: char)
    ensures Contains(s, [c]) <==> c in s
    decreases |s|
  {
    if |s| > 0 {
      ContainsChar(s[1..], c);
      assert s == [s[0]] + s[1..];
      assert StartsWith(s, [c]) <==> s[0] == c;
    }
  }

  // ---------------------------------------------------------------------
  // split / join / replace
  // ---------------------------------------------------------------------

  /** Put `c` in front of the first piece. */
  function ConsFirst(c: char, pieces: seq<string>): seq<string>
    requires |pieces| >= 1
  {
    [[c] + pieces[0]] + pieces[1..]
  }

  /** `s.split(sep)`: the pieces between the leftmost non-overlapping occurrences of `sep`. */
  function Split(s: string, sep: string): (pieces: seq<string>)
    requires |sep| > 0
    ensures |pieces| >= 1
    decreases |s|
  {
    if |s| < |sep| then [s]
    else if s[..|sep|] == sep then [""] + Split(s[|sep|..], sep)
    else ConsFirst(s[0], Split(s[1..], sep))
  }

  /** `sep.join(pieces)`. */
  function Join(pieces: seq<string>, sep: string): string {
    if pieces == [] then []
    else if |pieces| == 1 then pieces[0]
    else pieces[0] + sep + Join(pieces[1..], sep)
  }

  /** `s.replace(p, r)`: one left-to-right pass; the text produced is not searched again. */
  function Replace(s: string, p: string, r: string): string
    requires |p| > 0
    decreases |s|
  {
    if |s| < |p| then s
    else if s[..|p|] == p then r + Replace(s[|p|..], p, r)
    else [s[0]] + Replace(s[1..], p, r)
  }

  lemma JoinCons(a: string, rest: seq<string>, sep: string)
    requires |rest| >= 1
    ensures Join([a] + rest, sep) == a + sep + Join(rest, sep)
  {
    assert ([a] + rest)[1..] == rest;
  }

  lemma JoinConsFirst(c: char, pieces: seq<string>, sep: string)
    requires |pieces| >= 1
    ensures Join(ConsFirst(c, pieces), sep) == [c] + Join(pieces, sep)
  {
    if |pieces| > 1 {
      assert ConsFirst(c, pieces)[1..] == pieces[1..];
    }
  }

  /** Joining the pieces of a split with the same separator gives back the string. */
  lemma {:induction false} JoinSplit(s: string, sep: string)
    requires |sep| > 0
    ensures Join(Split(s, sep), sep) == s
    decreases |s|
  {
    if |s| < |sep| {
    } else if s[..|sep|] == sep {
      JoinSplit(s[|sep|..], sep);
      JoinSplitAtSeparator(sep, s[|sep|..]);
      assert s == sep + s[|sep|..];
    } else {
      JoinSplit(s[1..], sep);
      assert s == [s[0]] + s[1..];
      JoinSplitAtChar(s[0], s[1..], sep);
    }
  }

  lemma JoinSplitAtSeparator(sep: string, rest: string)
    requires |sep| > 0 && Join(Split(rest, sep), sep) == rest
    ensures Join(Split(sep + rest, sep), sep) == sep + rest
  {
    var s := sep + rest;
    assert s[..|sep|] == sep && s[|sep|..] == rest;
    JoinCons("", Split(rest, sep), sep);
    assert "" + sep == sep;
  }

  lemma JoinSplitAtChar(c: char, rest: string, sep: string)
    requires 0 < |sep| <= |[c] + rest| && ([c] + rest)[..|sep|] != sep
    requires Join(Split(rest, sep), sep) == rest
    ensures Join(Split([c] + rest, sep), sep) == [c] + rest
  {
    var s := [c] + rest;
    assert s[0] == c && s[1..] == rest;
    JoinConsFirst(c, Split(rest, sep), sep);
  }

  /** Joining several pieces ends with the separator and the last piece. */
  lemma {:induction false} JoinLast(pieces: seq<string>, sep: string)
    requires |pieces| >= 2
    ensures Join(pieces, sep) == Join(pieces[..|pieces| - 1], sep) + sep + pieces[|pieces| - 1]
    decreases |pieces|
  {
    var n := |pieces|;
    if n > 2 {
      JoinLast(pieces[1..], sep);
      assert pieces[1..][..n - 2] == pieces[1..n - 1];
      assert pieces[..n - 1] == [pieces[0]] + pieces[1..n - 1];
      JoinCons(pieces[0], pieces[1..n - 1], sep);
    } else {
      assert pieces[..n - 1] == [pieces[0]];
    }
  }

  /** The first piece of a split is a prefix of the string. */
  lemma {:induction false} FirstPieceIsPrefix(s: string, sep: string)
    requires |sep| > 0
    ensures |Split(s, sep)[0]| <= |s| && s[..|Split(s, sep)[0]|] == Split(s, sep)[0]
    decreases |s|
  {
    if |s| >= |sep| && s[..|sep|] != sep {
      FirstPieceIsPrefix(s[1..], sep);
    }
  }

  /** No piece of a split contains the separator. */
  lemma {:induction false} SplitPiecesFree(s: string, sep: string)
    requires |sep| > 0
    ensures forall k :: 0 <= k < |Split(s, sep)| ==> !Contains(Split(s, sep)[k], sep)
    decreases |s|
  {
    if |s| < |sep| {
      ShortIsFree(s, sep);
    } else if s[..|sep|] == sep {
      SplitPiecesFree(s[|sep|..], sep);
      ShortIsFree("", sep);
    } else {
      var tail := Split(s[1..], sep);
      SplitPiecesFree(s[1..], sep);
      FirstPieceIsPrefix(s[1..], sep);
      var first := [s[0]] + tail[0];
      assert first == s[..|first|];
      assert first[1..] == tail[0];
      forall k | 0 <= k < |Split(s, sep)|
        ensures !Contains(Split(s, sep)[k], sep)
      {
        if k > 0 {
          assert Split(s, sep)[k] == tail[k];
        }
      }
    }
  }

  lemma ShortIsFree(s: string, p: string)
    requires |s| < |p|
    ensures !Contains(s, p)
    decreases |s|
  {
    if |s| > 0 {
      ShortIsFree(s[1..], p);
    }
  }

  /** `s.replace(p, r)` is `r.join(s.split(p))`. */
  lemma {:induction false} ReplaceIsJoinOfSplit(s: string, p: string, r: string)
    requires |p| > 0
    ensures Replace(s, p, r) == Join(Split(s, p), r)
    decreases |s|
  {
    if |s| < |p| {
    } else if s[..|p|] == p {
      ReplaceIsJoinOfSplit(s[|p|..], p, r);
      JoinCons("", Split(s[|p|..], p), r);
    } else {
      ReplaceIsJoinOfSplit(s[1..], p, r);
      JoinConsFirst(s[0], Split(s[1..], p), r);
    }
  }

  /** Replacing a pattern that does not occur changes nothing. */
  lemma {:induction false} ReplaceAbsent(s: string, p: string, r: string)
    requires |p| > 0 && !Contains(s, p)
    ensures Replace(s, p, r) == s
    decreases |s|
  {
    if |s| >= |p| {
      ReplaceAbsent(s[1..], p, r);
      assert s == [s[0]] + s[1..];
    }
  }

  /** A replacement that finds the pattern at the front goes on with what follows it. */
  lemma ReplaceLeading(p: string, s: string, r: string)
    requires |p| > 0
    ensures Replace(p + s, p, r) == r + Replace(s, p, r)
  {
    assert (p + s)[..|p|] == p;
    assert (p + s)[|p|..] == s;
  }

  /** A pattern written between two strings occurs in the result. */
  lemma {:induction false} ContainsInfix(a: string, p: string, b: string)
    ensures Contains(a + p + b, p)
    decreases |a|
  {
    if a == [] {
      assert (a + p + b)[..|p|] == p;
    } else {
      ContainsInfix(a[1..], p, b);
      assert (a + p + b)[1..] == a[1..] + p + b;
    }
  }

  /** Text that cannot begin the pattern is copied unchanged. */
  lemma {:induction false} ReplaceSkips(a: string, s: string, p: string, r: string)
    requires |p| > 0 && p[0] !in a
    ensures Replace(a + s, p, r) == a + Replace(s, p, r)
    decreases |a|
  {
    if a != [] && |a + s| >= |p| {
      ReplaceSkips(a[1..], s, p, r);
      assert (a + s)[1..] == a[1..] + s;
      assert (a + s)[..|p|][0] == a[0];
      assert a == [a[0]] + a[1..];
    } else if a != [] {
      assert Replace(s, p, r) == s;
    } else {
      assert a + s == s;
    }
  }

  /** Deleting a pattern never lengthens the string and keeps it lower-case. */
  lemma {:induction false} DeleteKeepsLowerCase(s: string, p: string)
    requires |p| > 0 && IsLowerCase(s)
    ensures |Replace(s, p, "")| <= |s|
    ensures IsLowerCase(Replace(s, p, ""))
    decreases |s|
  {
    if |s| < |p| {
    } else if s[..|p|] == p {
      assert IsLowerCase(s[|p|..]);
      DeleteKeepsLowerCase(s[|p|..], p);
    } else {
      assert IsLowerCase(s[1..]);
      DeleteKeepsLowerCase(s[1..], p);
    }
  }

  // ---------------------------------------------------------------------
  // The first and the last piece of a split
  // ---------------------------------------------------------------------

  /** `s.split(sep)[-1]` */
  function LastPiece(s: string, sep: string): string
    requires |sep| > 0
  {
    var pieces := Split(s, sep);
    pieces[|pieces| - 1]
  }

  /** A split has several pieces exactly when the separator occurs. */
  lemma {:induction false} SeveralPiecesIffContains(s: string, sep: string)
    requires |sep| > 0
    ensures |Split(s, sep)| >= 2 <==> Contains(s, sep)
    decreases |s|
  {
    if |s| < |sep| {
      ShortIsFree(s, sep);
    } else if s[..|sep|] != sep {
      SeveralPiecesIffContains(s[1..], sep);
    }
  }

  /** The last piece of a split is a suffix of the string. */
  lemma LastPieceIsSuffix(s: string, sep: string)
    requires |sep| > 0
    ensures |LastPiece(s, sep)| <= |s| && s[|s| - |LastPiece(s, sep)|..] == LastPiece(s, sep)
  {
    var pieces := Split(s, sep);
    JoinSplit(s, sep);
    if |pieces| >= 2 {
      JoinLast(pieces, sep);
      EndsWith(Join(pieces[..|pieces| - 1], sep) + sep, LastPiece(s, sep));
    }
  }

  /** When the separator occurs, it stands right before the last piece. */
  lemma SeparatorBeforeLastPiece(s: string, sep: string)
    requires |sep| > 0 && Contains(s, sep)
    ensures |LastPiece(s, sep)| + |sep| <= |s|
    ensures s[|s| - |LastPiece(s, sep)| - |sep|..|s| - |LastPiece(s, sep)|] == sep
  {
    var pieces := Split(s, sep);
    SeveralPiecesIffContains(s, sep);
    JoinSplit(s, sep);
    JoinLast(pieces, sep);
    var front := Join(pieces[..|pieces| - 1], sep);
    SeparatorInMiddle(front, sep, LastPiece(s, sep));
  }

  lemma EndsWith(a: string, b: string)
    ensures (a + b)[|a + b| - |b|..] == b
  {
  }

  lemma SeparatorInMiddle(a: string, sep: string, b: string)
    ensures (a + sep + b)[|a|..|a| + |sep|] == sep
  {
  }
}
