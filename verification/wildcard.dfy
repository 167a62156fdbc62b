/**
  The wildcard application name of ud.cxx: its translation into the regex
  text that std::regex is given, and the meaning of the wildcard itself as a
  directly defined glob matcher.  `*` matches any run of characters, `?`
  matches zero or one character (the translation emits `.?`), every other
  character matches itself up to case canonicalisation, and the whole title
  must be consumed.  Like the regex `.` they stand for, wildcards do not
  match line terminators.
*/
module Wildcard {
  import opened Wrappers
  import opened Regex

  /** Capacity, in characters, of the application-name buffer. */
  const MAX_PATH: nat := 260

  predicate IsWildcard(c: char) {
    c == '*' || c == '?'
  }

  /** The number of wildcard characters in `p`. */
  function Wildcards(p: seq<char>): (n: nat)
    ensures n <= |p|
  {
    if p == [] then 0 else (if IsWildcard(p[0]) then 1 else 0) + Wildcards(p[1..])
  }

  /** A pattern whose literal characters can all stand inside `[c]`. */
  predicate Clean(p: seq<char>) {
    forall i :: 0 <= i < |p| ==> !IsClassSpecial(p[i])
  }

  /** The regex text emitted for one pattern character. */
  function TokenOf(c: char): seq<char> {
    if c == '*' then ['.', '*']
    else if c == '?' then ['.', '?']
    else ['[', c, ']']
  }

  /** The regex text built from the application name: one token per
      character, in order, then the `$` anchor. */
  function Translate(p: seq<char>): (r: seq<char>)
    ensures |r| == 2 * Wildcards(p) + 3 * (|p| - Wildcards(p)) + 1
    ensures |r| <= 3 * |p| + 1
    ensures r[|r| - 1] == '$'
  {
    if p == [] then ['$'] else TokenOf(p[0]) + Translate(p[1..])
  }

  /** The regex piece a pattern character stands for. */
  function PieceOf(c: char): Piece {
    if c == '*' then Star(AnyChar)
    else if c == '?' then Opt(AnyChar)
    else One(Literal(c))
  }

  /** The pieces a pattern stands for: one per character, then `End`. */
  function Pieces(p: seq<char>): (ps: seq<Piece>)
    ensures |ps| == |p| + 1
  {
    if p == [] then [End] else [PieceOf(p[0])] + Pieces(p[1..])
  }

  /** Directly defined meaning of the wildcard pattern `p` over the title `t`. */
  function GlobMatch(fold: char -> char, p: seq<char>, t: seq<char>): bool
    decreases |t|, |p|
  {
    if p == [] then t == []
    else if p[0] == '*' then
      GlobMatch(fold, p[1..], t) || (t != [] && !IsLineTerminator(t[0]) && GlobMatch(fold, p, t[1..]))
    else if p[0] == '?' then
      GlobMatch(fold, p[1..], t) || (t != [] && !IsLineTerminator(t[0]) && GlobMatch(fold, p[1..], t[1..]))
    else
      t != [] && fold(p[0]) == fold(t[0]) && GlobMatch(fold, p[1..], t[1..])
  }

  /** The name and its translation fit their fixed-size buffers (the name
      buffer holds MAX_PATH characters and the regex buffer three times as
      many, each including the terminating NUL) whenever the name does. */
  lemma TranslationFits(p: seq<char>)
    requires |p| + 1 <= MAX_PATH
    ensures |Translate(p)| + 1 <= 3 * MAX_PATH
  {
  }

  /** The translation is the text of the pieces, character by character. */
  lemma {:induction false} TranslateIsUnparse(p: seq<char>)
    ensures Translate(p) == Unparse(Pieces(p))
  {
    if p == [] {
      assert Unparse([End]) == ['$'] + Unparse([]);
    } else {
      TranslateIsUnparse(p[1..]);
      var ps := Pieces(p);
      assert ps[0] == PieceOf(p[0]) && ps[1..] == Pieces(p[1..]);
      assert PieceText(PieceOf(p[0])) == TokenOf(p[0]);
    }
  }

  /** A clean pattern yields well-formed pieces. */
  lemma {:induction false} CleanPiecesWellFormed(p: seq<char>)
    requires Clean(p)
    ensures WellFormed(Pieces(p))
  {
    if p != [] {
      assert Clean(p[1..]) by {
        forall i | 0 <= i < |p[1..]| ensures !IsClassSpecial(p[1..][i]) {
          assert p[1..][i] == p[i + 1];
        }
      }
      CleanPiecesWellFormed(p[1..]);
      var ps := Pieces(p);
      forall i | 0 <= i < |ps| ensures PieceOk(ps[i]) {
        if i > 0 { assert ps[i] == Pieces(p[1..])[i - 1]; }
        else { assert !IsClassSpecial(p[0]); }
      }
    }
  }

  /** The translation of a clean pattern reads back as the pattern's pieces. */
  lemma ParseTranslation(p: seq<char>)
    requires Clean(p)
    ensures Parse(Translate(p)) == Some(Pieces(p))
  {
    TranslateIsUnparse(p);
    CleanPiecesWellFormed(p);
    ParseUnparse(Pieces(p));
  }

  /** A pattern holding `\`, `]` or `^` translates to text outside the fragment. */
  lemma {:induction false} TranslationOutsideFragment(p: seq<char>)
    requires !Clean(p)
    ensures Parse(Translate(p)) == None
  {
    var rest := Translate(p[1..]);
    assert Translate(p) == TokenOf(p[0]) + rest;
    if IsClassSpecial(p[0]) {
      SpecialTokenRejected(p[0], rest);
    } else {
      assert !Clean(p[1..]) by {
        var i :| 0 <= i < |p| && IsClassSpecial(p[i]);
        assert p[1..][i - 1] == p[i];
      }
      TranslationOutsideFragment(p[1..]);
      TranslateIsUnparse(p[1..]);
      ParseAfterToken(p[0], rest);
    }
  }

  /** A class holding `\`, `]` or `^` is not read as a one-character class. */
  lemma SpecialTokenRejected(c: char, rest: seq<char>)
    requires IsClassSpecial(c)
    ensures Parse(TokenOf(c) + rest) == None
  {
    var re := TokenOf(c) + rest;
    assert re[0] == '[' && re[1] == c;
    assert ParseAtom(re) == None;
  }

  /** The token of an ordinary character, followed by further piece text,
      is read as that character's piece in front of whatever the rest reads as. */
  lemma ParseAfterToken(c: char, rest: seq<char>)
    requires !IsClassSpecial(c)
    requires rest == [] || rest[0] == '.' || rest[0] == '[' || rest[0] == '$'
    ensures Parse(TokenOf(c) + rest) == Prepend(PieceOf(c), Parse(rest))
  {
    var re := TokenOf(c) + rest;
    var n := |TokenOf(c)|;
    assert PieceText(PieceOf(c)) == TokenOf(c);
    ParseHeadOfText(PieceOf(c), rest);
    assert re[n..] == rest;
  }

  /** Matching the pieces of `p` is matching the glob `p`. */
  lemma {:induction false} PiecesMatchGlob(fold: char -> char, p: seq<char>, t: seq<char>)
    ensures PiecesMatch(fold, Pieces(p), t) == GlobMatch(fold, p, t)
    decreases |t|, |p|
  {
    var ps := Pieces(p);
    if p == [] {
      assert ps == [End];
      assert PiecesMatch(fold, ps[1..], t) == (t == []);
    } else {
      assert ps[0] == PieceOf(p[0]) && ps[1..] == Pieces(p[1..]);
      PiecesMatchGlob(fold, p[1..], t);
      if t != [] {
        PiecesMatchGlob(fold, p[1..], t[1..]);
        if p[0] == '*' {
          PiecesMatchGlob(fold, p, t[1..]);
        }
      }
    }
  }

  /** The translation theorem: for a clean pattern, std::regex_match of the
      (already normalised) title against the translated regex succeeds
      exactly when the title matches the wildcard pattern. */
  lemma TranslateMeaning(fold: char -> char, p: seq<char>, t: seq<char>)
    requires Clean(p)
    ensures RegexMatch(fold, Translate(p), t) == Some(GlobMatch(fold, p, t))
  {
    ParseTranslation(p);
    PiecesMatchGlob(fold, p, t);
  }

  /** `*` absorbs any run of non-line-terminator characters. */
  lemma {:induction false} GlobStar(fold: char -> char, p: seq<char>, t: seq<char>, k: nat)
    requires k <= |t|
    requires forall i :: 0 <= i < k ==> !IsLineTerminator(t[i])
    requires GlobMatch(fold, p, t[k..])
    ensures GlobMatch(fold, ['*'] + p, t)
    decreases k
  {
    var sp := ['*'] + p;
    assert sp[1..] == p;
    if k > 0 {
      GlobStar(fold, p, t[1..], k - 1);
      assert t[1..][k - 1..] == t[k..];
    }
  }

  /** A pattern without wildcards matches exactly the titles of its length
      that agree with it character by character up to case. */
  lemma {:induction false} GlobLiteral(fold: char -> char, p: seq<char>, t: seq<char>)
    requires Wildcards(p) == 0
    ensures GlobMatch(fold, p, t) <==> |t| == |p| && forall i :: 0 <= i < |p| ==> fold(p[i]) == fold(t[i])
  {
    if p != [] {
      if t != [] {
        GlobLiteral(fold, p[1..], t[1..]);
        if |t| == |p| && forall i :: 0 <= i < |p| ==> fold(p[i]) == fold(t[i]) {
          forall i | 0 <= i < |p[1..]| ensures fold(p[1..][i]) == fold(t[1..][i]) {
            assert p[1..][i] == p[i + 1] && t[1..][i] == t[i + 1];
          }
        }
        if GlobMatch(fold, p, t) {
          forall i | 0 <= i < |p| ensures fold(p[i]) == fold(t[i]) {
            if i > 0 { assert p[1..][i - 1] == p[i] && t[1..][i - 1] == t[i]; }
          }
        }
      }
    }
  }

  /** Every match of `*` followed by a literal pattern ends the title with that pattern. */
  lemma {:induction false} GlobStarLiteral(fold: char -> char, p: seq<char>, t: seq<char>)
    requires Wildcards(p) == 0
    requires GlobMatch(fold, ['*'] + p, t)
    ensures |p| <= |t| && forall i :: 0 <= i < |p| ==> fold(p[i]) == fold(t[|t| - |p| + i])
    decreases |t|
  {
    var sp := ['*'] + p;
    assert sp[1..] == p;
    if GlobMatch(fold, p, t) {
      GlobLiteral(fold, p, t);
    } else {
      GlobStarLiteral(fold, p, t[1..]);
      forall i | 0 <= i < |p| ensures fold(p[i]) == fold(t[|t| - |p| + i]) {
        assert t[1..][|t[1..]| - |p| + i] == t[|t| - |p| + i];
      }
    }
  }

  /** ASCII-only case canonicalisation, the default "C" locale's folding;
      tolower reads option letters the same way. */
  function AsciiFold(c: char): char {
    if 'A' <= c <= 'Z' then (c as int + 32) as char else c
  }

  /** `*excel` matches "Microsoft Excel". */
  lemma StarExcelMatchesMicrosoftExcel()
    ensures GlobMatch(AsciiFold, "*excel", "Microsoft Excel")
  {
    var t := "Microsoft Excel";
    GlobLiteral(AsciiFold, "excel", t[10..]);
    GlobStar(AsciiFold, "excel", t, 10);
    assert ['*'] + "excel" == "*excel";
  }

  /** `*p`, for a literal `p`, fails on a title whose tail disagrees with `p` at some position. */
  lemma StarLiteralMismatch(fold: char -> char, p: seq<char>, t: seq<char>, i: nat)
    requires Wildcards(p) == 0
    requires i < |p| <= |t| && fold(p[i]) != fold(t[|t| - |p| + i])
    ensures !GlobMatch(fold, ['*'] + p, t)
  {
    if GlobMatch(fold, ['*'] + p, t) {
      GlobStarLiteral(fold, p, t);
    }
  }

  /** The match is anchored at the end: `*excel` does not match "EXCEL.EXE - Book1". */
  lemma StarExcelRejectsExcelExe()
    ensures !GlobMatch(AsciiFold, "*excel", "EXCEL.EXE - Book1")
  {
    assert ['*'] + "excel" == "*excel";
    StarLiteralMismatch(AsciiFold, "excel", "EXCEL.EXE - Book1", 0);
  }

  /** Nor does `*excel` match "Excellent App". */
  lemma StarExcelRejectsExcellent()
    ensures !GlobMatch(AsciiFold, "*excel", "Excellent App")
  {
    assert ['*'] + "excel" == "*excel";
    StarLiteralMismatch(AsciiFold, "excel", "Excellent App", 0);
  }

  /** `calc*` matches "Calculator" but not "My Calc". */
  lemma CalcStarIsAnchoredAtStart()
    ensures GlobMatch(AsciiFold, "calc*", "Calculator")
    ensures !GlobMatch(AsciiFold, "calc*", "My Calc")
  {
    var t := "Calculator";
    var q: seq<char> := [];
    assert GlobMatch(AsciiFold, q, t[10..]);
    GlobStar(AsciiFold, q, t[4..], 6);
    assert ['*'] + q == "*";
    assert "calc*"[4..] == "*";
  }

  /** `?` also matches nothing: `calc?` matches "calc" itself. */
  lemma QuestionMatchesZeroCharacters()
    ensures GlobMatch(AsciiFold, "calc?", "calc")
    ensures GlobMatch(AsciiFold, "calc?", "calcs")
  {
    assert "calc?"[4..] == "?";
  }
}
