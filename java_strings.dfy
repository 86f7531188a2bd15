/** The three `java.lang.String` operations the cookie code relies on:
    `indexOf(char)`, `replace(CharSequence, CharSequence)` and `split(String)`
    with a literal delimiter. */
module JavaStrings {
  import opened Base

  /** `s.indexOf(c)`: the first index of `c` in `s`, or -1. */
  function IndexOf(s: Str, c: CodeUnit): (i: int)
    ensures -1 <= i < |s|
    ensures i == -1 <==> c !in s
    ensures 0 <= i ==> s[i] == c && c !in s[..i]
  {
    if s == [] then -1
    else if s[0] == c then 0
    else
      var j := IndexOf(s[1..], c);
      assert s[1..][..if j < 0 then 0 else j] == s[1..if j < 0 then 1 else j + 1];
      if j == -1 then -1 else j + 1
  }

  /** `s.replace(target, replacement)`: every occurrence of `target`, found
      left to right without overlap, is replaced. */
  function Replace(s: Str, target: Str, replacement: Str): Str
    requires |target| > 0
    decreases |s|
  {
    if |s| < |target| then s
    else if s[..|target|] == target then replacement + Replace(s[|target|..], target, replacement)
    else [s[0]] + Replace(s[1..], target, replacement)
  }

  /** A target whose first code unit does not occur in `s` is not found. */
  lemma {:induction false} ReplaceAbsent(s: Str, target: Str, replacement: Str)
    requires |target| > 0 && target[0] !in s
    ensures Replace(s, target, replacement) == s
  {
    if |s| >= |target| {
      assert s[..|target|][0] == s[0];
      ReplaceAbsent(s[1..], target, replacement);
    }
  }

  /** A target that occurs once, with its first code unit nowhere else, is
      replaced at exactly that place. */
  lemma {:induction false} ReplaceOnce(a: Str, target: Str, b: Str, replacement: Str)
    requires |target| > 0 && target[0] !in a && target[0] !in b
    ensures Replace(a + target + b, target, replacement) == a + replacement + b
  {
    var s := a + target + b;
    if a == [] {
      assert s[..|target|] == target;
      assert s[|target|..] == b;
      ReplaceAbsent(b, target, replacement);
    } else {
      assert s[..|target|][0] == a[0];
      assert s[1..] == a[1..] + target + b;
      ReplaceOnce(a[1..], target, b, replacement);
      assert [a[0]] + (a[1..] + replacement + b) == a + replacement + b;
    }
  }

  /** Replacing a one-unit target distributes over concatenation. */
  lemma {:induction false} ReplaceUnitConcat(a: Str, b: Str, c: CodeUnit, replacement: Str)
    ensures Replace(a + b, [c], replacement) == Replace(a, [c], replacement) + Replace(b, [c], replacement)
  {
    if a != [] {
      var s := a + b;
      assert s[..1] == [a[0]] && a[..1] == [a[0]];
      assert s[1..] == a[1..] + b;
      ReplaceUnitConcat(a[1..], b, c, replacement);
    } else {
      assert a + b == b;
    }
  }

  /** Replacing a one-unit target in a one-unit string. */
  lemma ReplaceUnitSingle(x: CodeUnit, c: CodeUnit, replacement: Str)
    ensures Replace([x], [c], replacement) == if x == c then replacement else [x]
  {
    assert [x][..1] == [x];
    assert Replace([x][1..], [c], replacement) == [];
  }

  /** The pieces of `s` around every left-to-right, non-overlapping
      occurrence of `d`, empty pieces included: the list that Java's
      `Pattern.split` builds before it trims. */
  function SplitPieces(s: Str, d: Str): (r: seq<Str>)
    requires |d| > 0
    ensures |r| > 0
    decreases |s|
  {
    if |s| < |d| then [s]
    else if s[..|d|] == d then [[]] + SplitPieces(s[|d|..], d)
    else
      var rest := SplitPieces(s[1..], d);
      [[s[0]] + rest[0]] + rest[1..]
  }

  /** The pieces joined back together with the delimiter between them. */
  function Join(pieces: seq<Str>, d: Str): Str
    requires |pieces| > 0
  {
    if |pieces| == 1 then pieces[0] else pieces[0] + d + Join(pieces[1..], d)
  }

  /** Splitting loses nothing: the pieces and delimiters give back `s`. */
  lemma {:induction false} SplitPiecesJoin(s: Str, d: Str)
    requires |d| > 0
    ensures Join(SplitPieces(s, d), d) == s
  {
    if |s| < |d| {
    } else if s[..|d|] == d {
      SplitPiecesJoin(s[|d|..], d);
      assert [] + d + s[|d|..] == s;
    } else {
      var rest := SplitPieces(s[1..], d);
      SplitPiecesJoin(s[1..], d);
      var r := [[s[0]] + rest[0]] + rest[1..];
      assert r[0] == [s[0]] + rest[0] && r[1..] == rest[1..];
      if |rest| == 1 {
        assert Join(r, d) == [s[0]] + rest[0];
      } else {
        assert Join(r, d) == [s[0]] + rest[0] + d + Join(rest[1..], d);
        assert Join(rest, d) == rest[0] + d + Join(rest[1..], d);
      }
      assert [s[0]] + s[1..] == s;
    }
  }

  /** Java's trimming for a zero split limit: trailing empty strings are
      removed (all of them, so the result may be empty). */
  function DropTrailingEmpty(pieces: seq<Str>): (r: seq<Str>)
    ensures |r| <= |pieces| && r == pieces[..|r|]
    ensures forall i | |r| <= i < |pieces| :: pieces[i] == []
    ensures r != [] ==> r[|r| - 1] != []
  {
    if pieces == [] then []
    else if pieces[|pieces| - 1] == [] then DropTrailingEmpty(pieces[..|pieces| - 1])
    else pieces
  }

  /** `s.split(d)` for a delimiter without regular-expression
      metacharacters: a string in which `d` does not occur comes back alone
      (even the empty string); otherwise trailing empty pieces are dropped. */
  function Split(s: Str, d: Str): seq<Str>
    requires |d| > 0
  {
    var pieces := SplitPieces(s, d);
    if |pieces| == 1 then [s] else DropTrailingEmpty(pieces)
  }

  /** A delimiter whose first unit does not occur in `s` does not split it. */
  lemma {:induction false} SplitPiecesAbsent(s: Str, d: Str)
    requires |d| > 0 && d[0] !in s
    ensures SplitPieces(s, d) == [s]
  {
    if |s| >= |d| {
      assert s[..|d|][0] == s[0];
      SplitPiecesAbsent(s[1..], d);
      assert [s[0]] + s[1..] == s;
    }
  }

  /** With a one-unit delimiter there is exactly one piece more than there
      are occurrences, so a single piece means the unit does not occur. */
  lemma {:induction false} SplitUnitSingle(s: Str, c: CodeUnit)
    ensures |SplitPieces(s, [c])| == 1 <==> c !in s
  {
    if |s| >= 1 {
      assert s[..1] == [s[0]];
      SplitUnitSingle(s[1..], c);
      assert c in s <==> s[0] == c || c in s[1..];
    }
  }

  /** With a one-unit delimiter the first piece is the text before the
      first occurrence. */
  lemma {:induction false} SplitUnitFirst(s: Str, c: CodeUnit)
    ensures SplitPieces(s, [c])[0] == if c in s then s[..IndexOf(s, c)] else s
  {
    if |s| >= 1 {
      assert s[..1] == [s[0]];
      if s[0] != c {
        SplitUnitFirst(s[1..], c);
        assert c in s <==> c in s[1..];
        if c in s {
          assert [s[0]] + s[1..][..IndexOf(s[1..], c)] == s[..IndexOf(s, c)];
        } else {
          assert [s[0]] + s[1..] == s;
        }
      }
    }
  }

  /** With a one-unit delimiter every piece is empty exactly when `s`
      consists of that unit only. */
  lemma {:induction false} SplitUnitAllEmpty(s: Str, c: CodeUnit)
    ensures (forall i | 0 <= i < |SplitPieces(s, [c])| :: SplitPieces(s, [c])[i] == [])
        <==> (forall i | 0 <= i < |s| :: s[i] == c)
  {
    if |s| >= 1 {
      assert s[..1] == [s[0]];
      SplitUnitAllEmpty(s[1..], c);
      var rest := SplitPieces(s[1..], [c]);
      if s[0] == c {
        var all := SplitPieces(s, [c]);
        assert all == [[]] + rest;
        assert (forall i | 0 <= i < |all| :: all[i] == []) <==> (forall i | 0 <= i < |rest| :: rest[i] == []) by {
          if forall i | 0 <= i < |rest| :: rest[i] == [] {
            forall i | 0 <= i < |all| ensures all[i] == [] {
              if i > 0 { assert all[i] == rest[i - 1]; }
            }
          }
          if forall i | 0 <= i < |all| :: all[i] == [] {
            forall i | 0 <= i < |rest| ensures rest[i] == [] {
              assert rest[i] == all[i + 1];
            }
          }
        }
        assert (forall i | 0 <= i < |s| :: s[i] == c) <==> (forall i | 0 <= i < |s[1..]| :: s[1..][i] == c) by {
          if forall i | 0 <= i < |s[1..]| :: s[1..][i] == c {
            forall i | 0 <= i < |s| ensures s[i] == c {
              if i > 0 { assert s[i] == s[1..][i - 1]; }
            }
          }
        }
      } else {
        assert SplitPieces(s, [c])[0] != [];
      }
    }
  }

  /** Text without the delimiter's first unit, then the delimiter: that
      text is the first piece and splitting carries on after the delimiter. */
  lemma {:induction false} SplitPiecesBefore(a: Str, d: Str, b: Str)
    requires |d| > 0 && d[0] !in a
    ensures SplitPieces(a + d + b, d) == [a] + SplitPieces(b, d)
  {
    var s := a + d + b;
    if a == [] {
      assert s[..|d|] == d;
      assert s[|d|..] == b;
    } else {
      assert s[..|d|][0] == a[0];
      assert s[1..] == a[1..] + d + b;
      SplitPiecesBefore(a[1..], d, b);
      assert [a[0]] + a[1..] == a;
    }
  }

  /** Splitting is the inverse of joining pieces that do not contain the
      delimiter's first unit. */
  lemma {:induction false} SplitPiecesOfJoin(pieces: seq<Str>, d: Str)
    requires |pieces| > 0 && |d| > 0
    requires forall i | 0 <= i < |pieces| :: d[0] !in pieces[i]
    ensures SplitPieces(Join(pieces, d), d) == pieces
  {
    if |pieces| == 1 {
      SplitPiecesAbsent(pieces[0], d);
    } else {
      SplitPiecesOfJoin(pieces[1..], d);
      SplitPiecesBefore(pieces[0], d, Join(pieces[1..], d));
      assert [pieces[0]] + pieces[1..] == pieces;
    }
  }

  /** `split` gives back joined pieces when the last one is not empty
      (or there is only one), since then nothing is trimmed. */
  lemma SplitOfJoin(pieces: seq<Str>, d: Str)
    requires |pieces| > 0 && |d| > 0
    requires forall i | 0 <= i < |pieces| :: d[0] !in pieces[i]
    requires |pieces| == 1 || pieces[|pieces| - 1] != []
    ensures Split(Join(pieces, d), d) == pieces
  {
    SplitPiecesOfJoin(pieces, d);
  }

  /** Replacing a unit by a non-empty string never shortens the string. */
  lemma {:induction false} ReplaceUnitLength(s: Str, c: CodeUnit, replacement: Str)
    requires |replacement| > 0
    ensures |Replace(s, [c], replacement)| >= |s|
  {
    if |s| >= 1 {
      ReplaceUnitLength(s[1..], c, replacement);
    }
  }

  /** A one-unit replace keeps every other unit of the string. */
  lemma {:induction false} ReplaceUnitKeeps(s: Str, c: CodeUnit, replacement: Str, y: CodeUnit)
    requires y in s && y != c
    ensures y in Replace(s, [c], replacement)
  {
    ReplaceUnitConcat([s[0]], s[1..], c, replacement);
    assert [s[0]] + s[1..] == s;
    ReplaceUnitSingle(s[0], c, replacement);
    if s[0] != y {
      ReplaceUnitKeeps(s[1..], c, replacement, y);
    }
  }
}

