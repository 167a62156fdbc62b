/**
  The fragment of ECMAScript regular expressions that the wildcard translation
  of ud.cxx produces: the atoms `.` and `[c]` (a one-character class), each
  optionally followed by the quantifier `*` or `?`, and the end-of-input
  assertion `$`.  `Parse` reads a string of this fragment into pieces and
  `Unparse` writes pieces back; the two are inverse on the fragment.
  `PiecesMatch` is whole-string matching (std::regex_match) with the
  case-insensitive flag, where `fold` is the engine's case canonicalisation.
*/
module Regex {
  import opened Wrappers

  /** ECMAScript LineTerminator code points; the `.` atom never matches one. */
  predicate IsLineTerminator(c: char) {
    c == '\n' || c == '\r' || c as int == 0x2028 || c as int == 0x2029
  }

  /** Characters that cannot stand as the single member of `[c]`:
      `\` escapes the closing bracket, `]` closes an empty class and
      `^` negates it. */
  predicate IsClassSpecial(c: char) {
    c == '\\' || c == ']' || c == '^'
  }

  datatype Atom = AnyChar | Literal(c: char)

  datatype Piece = One(atom: Atom) | Star(atom: Atom) | Opt(atom: Atom) | End

  /** Does atom `a` accept character `c` under case canonicalisation `fold`? */
  predicate AtomMatches(fold: char -> char, a: Atom, c: char) {
    match a
    case AnyChar => !IsLineTerminator(c)
    case Literal(l) => fold(l) == fold(c)
  }

  /** A piece whose literal class, if any, is well formed. */
  predicate PieceOk(p: Piece) {
    !(!p.End? && p.atom.Literal? && IsClassSpecial(p.atom.c))
  }

  /** Pieces whose literal classes are all well formed. */
  predicate WellFormed(ps: seq<Piece>) {
    forall i :: 0 <= i < |ps| ==> PieceOk(ps[i])
  }

  function AtomText(a: Atom): seq<char> {
    match a
    case AnyChar => ['.']
    case Literal(c) => ['[', c, ']']
  }

  function PieceText(p: Piece): seq<char> {
    match p
    case One(a) => AtomText(a)
    case Star(a) => AtomText(a) + ['*']
    case Opt(a) => AtomText(a) + ['?']
    case End => ['$']
  }

  /** The regex text of a sequence of pieces. */
  function Unparse(ps: seq<Piece>): (re: seq<char>)
    ensures re == [] || re[0] == '.' || re[0] == '[' || re[0] == '$'
  {
    if ps == [] then [] else PieceText(ps[0]) + Unparse(ps[1..])
  }

  function Prepend(p: Piece, rest: Option<seq<Piece>>): Option<seq<Piece>> {
    match rest
    case None => None
    case Some(ps) => Some([p] + ps)
  }

  /** Reads an atom at the head of `re`, with the number of characters it spans. */
  function ParseAtom(re: seq<char>): (r: Option<(Atom, nat)>)
    ensures r.Some? ==> 0 < r.value.1 <= |re|
  {
    if |re| >= 1 && re[0] == '.' then Some((AnyChar, 1))
    else if |re| >= 3 && re[0] == '[' && re[2] == ']' && !IsClassSpecial(re[1]) then Some((Literal(re[1]), 3))
    else None
  }

  /** Reads the first piece of `re`, with the number of characters it spans. */
  function ParseHead(re: seq<char>): (r: Option<(Piece, nat)>)
    ensures r.Some? ==> 0 < r.value.1 <= |re|
  {
    if |re| >= 1 && re[0] == '$' then Some((End, 1))
    else match ParseAtom(re)
      case None => None
      case Some((a, n)) =>
        if n < |re| && re[n] == '*' then Some((Star(a), n + 1))
        else if n < |re| && re[n] == '?' then Some((Opt(a), n + 1))
        else Some((One(a), n))
  }

  /** Reads `re` as a sequence of pieces; None when `re` is not in the fragment. */
  function Parse(re: seq<char>): (r: Option<seq<Piece>>)
    decreases |re|
  {
    if re == [] then Some([])
    else match ParseHead(re)
      case None => None
      case Some((p, n)) => Prepend(p, Parse(re[n..]))
  }

  /** Can the pieces `ps` consume all of `t`?  `Star` takes any number of
      characters its atom accepts, `Opt` zero or one, `One` exactly one, and
      `End` succeeds only at the end of the input. */
  function PiecesMatch(fold: char -> char, ps: seq<Piece>, t: seq<char>): bool
    decreases |t|, |ps|
  {
    if ps == [] then t == []
    else match ps[0]
      case End => t == [] && PiecesMatch(fold, ps[1..], t)
      case One(a) => t != [] && AtomMatches(fold, a, t[0]) && PiecesMatch(fold, ps[1..], t[1..])
      case Opt(a) =>
        PiecesMatch(fold, ps[1..], t)
        || (t != [] && AtomMatches(fold, a, t[0]) && PiecesMatch(fold, ps[1..], t[1..]))
      case Star(a) =>
        PiecesMatch(fold, ps[1..], t)
        || (t != [] && AtomMatches(fold, a, t[0]) && PiecesMatch(fold, ps, t[1..]))
  }

  /** std::regex_match of `t` against the regex text `re`; None when `re`
      lies outside the fragment this model gives a meaning to. */
  function RegexMatch(fold: char -> char, re: seq<char>, t: seq<char>): Option<bool> {
    match Parse(re)
    case None => None
    case Some(ps) => Some(PiecesMatch(fold, ps, t))
  }

  /** The first piece read is well formed and is spelled by the characters it spans. */
  lemma ParseHeadText(re: seq<char>)
    requires ParseHead(re).Some?
    ensures re[..ParseHead(re).value.1] == PieceText(ParseHead(re).value.0)
    ensures PieceOk(ParseHead(re).value.0)
  {
  }

  /** Reading the text of a well-formed piece followed by the text of further
      pieces yields that piece first. */
  lemma ParseHeadOfText(p: Piece, rest: seq<char>)
    requires PieceOk(p)
    requires rest == [] || rest[0] == '.' || rest[0] == '[' || rest[0] == '$'
    ensures ParseHead(PieceText(p) + rest) == Some((p, |PieceText(p)|))
  {
    var re := PieceText(p) + rest;
    match p
    case End =>
    case One(a) =>
      assert ParseAtom(re) == Some((a, |PieceText(p)|));
      assert |PieceText(p)| < |re| ==> re[|PieceText(p)|] == rest[0];
    case Star(a) =>
      assert ParseAtom(re) == Some((a, |PieceText(p)| - 1));
    case Opt(a) =>
      assert ParseAtom(re) == Some((a, |PieceText(p)| - 1));
  }

  /** Writing well-formed pieces and reading them back gives the same pieces. */
  lemma {:induction false} ParseUnparse(ps: seq<Piece>)
    requires WellFormed(ps)
    ensures Parse(Unparse(ps)) == Some(ps)
  {
    if ps != [] {
      var rest := Unparse(ps[1..]);
      assert WellFormed(ps[1..]) by {
        forall i | 0 <= i < |ps[1..]| ensures PieceOk(ps[1..][i]) {
          assert ps[1..][i] == ps[i + 1];
        }
      }
      ParseUnparse(ps[1..]);
      var re := Unparse(ps);
      var t := PieceText(ps[0]);
      assert re == t + rest;
      assert PieceOk(ps[0]);
      ParseHeadOfText(ps[0], rest);
      assert re[|t|..] == rest;
      assert [ps[0]] + ps[1..] == ps;
    }
  }

  /** A non-empty text that parses has a first piece, and the rest parses too. */
  lemma ParseStep(re: seq<char>)
    requires re != [] && Parse(re).Some?
    ensures ParseHead(re).Some?
    ensures Parse(re[ParseHead(re).value.1..]).Some?
    ensures Parse(re).value == [ParseHead(re).value.0] + Parse(re[ParseHead(re).value.1..]).value
  {
  }

  /** A well-formed piece in front of well-formed pieces is well formed. */
  lemma WellFormedCons(p: Piece, tail: seq<Piece>)
    requires PieceOk(p) && WellFormed(tail)
    ensures WellFormed([p] + tail)
  {
    var ps := [p] + tail;
    forall i | 0 <= i < |ps| ensures PieceOk(ps[i]) {
      if i > 0 { assert ps[i] == tail[i - 1]; }
    }
  }

  /** The text of pieces is the text of the first followed by the text of the rest. */
  lemma UnparseCons(p: Piece, tail: seq<Piece>)
    ensures Unparse([p] + tail) == PieceText(p) + Unparse(tail)
  {
    assert ([p] + tail)[1..] == tail;
  }

  /** Whatever `Parse` accepts is exactly the text of the pieces it returns,
      and those pieces are well formed. */
  lemma UnparseParse(re: seq<char>)
    requires Parse(re).Some?
    ensures Unparse(Parse(re).value) == re
    ensures WellFormed(Parse(re).value)
  {
    ParseSpells(re);
    ParseWellFormed(re);
  }

  /** The pieces `Parse` returns spell out the text it read. */
  lemma {:induction false} ParseSpells(re: seq<char>)
    requires Parse(re).Some?
    ensures Unparse(Parse(re).value) == re
    decreases |re|
  {
    if re != [] {
      ParseStep(re);
      var p := ParseHead(re).value.0;
      var n := ParseHead(re).value.1;
      var tail := Parse(re[n..]).value;
      calc {
        Unparse(Parse(re).value);
        Unparse([p] + tail);
        { UnparseCons(p, tail); }
        PieceText(p) + Unparse(tail);
        { ParseHeadText(re); ParseSpells(re[n..]); }
        re[..n] + re[n..];
        re;
      }
    }
  }

  /** The pieces `Parse` returns are well formed. */
  lemma {:induction false} ParseWellFormed(re: seq<char>)
    requires Parse(re).Some?
    ensures WellFormed(Parse(re).value)
    decreases |re|
  {
    if re != [] {
      ParseStep(re);
      var n := ParseHead(re).value.1;
      ParseHeadText(re);
      ParseWellFormed(re[n..]);
      WellFormedCons(ParseHead(re).value.0, Parse(re[n..]).value);
    }
  }
}
