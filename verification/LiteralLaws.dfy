/** Literals read back: a string in any mixture of plain characters, escapes and surrogate pairs, and
    every whole number of 64 bits. */
module LiteralLaws {
  import opened Options
  import opened Decimals
  import opened Texts
  import opened Literals

  // ---------------------------------------------------------------- strings

  /** How one character of a string is written: as itself, after a backslash, or by its number. */
  datatype Piece = Plain(c: char) | Escaped(c: char) | Numbered(r: nat)

  predicate PieceFits(x: Piece) {
    match x
    case Plain(c) => c != '"' && c != '\\'
    case Escaped(c) => c != 'u'
    case Numbered(r) => r < 0x110000 && !Surrogate(r)
  }

  predicate PiecesFit(xs: seq<Piece>) {
    forall i :: 0 <= i < |xs| ==> PieceFits(xs[i])
  }

  function Four(n: nat): (s: string)
    requires n < 0x10000
    ensures |s| == 4
  {
    [HexChar(n / 0x1000), HexChar(n / 0x100 % 16), HexChar(n / 16 % 16), HexChar(n % 16)]
  }

  function Escape(n: nat): (s: string)
    requires n < 0x10000
    ensures |s| == 6
  {
    "\\u" + Four(n)
  }

  function High(r: nat): (n: nat)
    requires 0x10000 <= r < 0x110000
    ensures 0xD800 <= n < 0xDC00
  {
    0xD800 + (r - 0x10000) / 0x400
  }

  function Low(r: nat): (n: nat)
    requires 0x10000 <= r < 0x110000
    ensures 0xDC00 <= n < 0xE000
  {
    0xDC00 + (r - 0x10000) % 0x400
  }

  function PrintPiece(x: Piece): string
    requires PieceFits(x)
  {
    match x
    case Plain(c) => [c]
    case Escaped(c) => "\\" + [c]
    case Numbered(r) => if r < 0x10000 then Escape(r) else Escape(High(r)) + Escape(Low(r))
  }

  function PieceMeaning(x: Piece): string
    requires PieceFits(x)
  {
    match x
    case Plain(c) => [c]
    case Escaped(c) => [Unescaped(c)]
    case Numbered(r) => Utf8(r)
  }

  /** A string's characters and its closing quote. */
  function PrintPieces(xs: seq<Piece>): (s: string)
    requires PiecesFit(xs)
    ensures s != ""
  {
    if xs == [] then "\"" else PrintPiece(xs[0]) + PrintPieces(xs[1..])
  }

  function PiecesMeaning(xs: seq<Piece>): string
    requires PiecesFit(xs)
  {
    if xs == [] then "" else PieceMeaning(xs[0]) + PiecesMeaning(xs[1..])
  }

  lemma HexAppends(s: string, c: char)
    requires HexNumber(s).Some? && HexDigit(c).Some?
    ensures HexNumber(s + [c]) == Some(16 * HexNumber(s).value + HexDigit(c).value)
  {
    assert (s + [c])[..|s|] == s;
  }

  lemma FourDigits(a: nat, b: nat, c: nat, d: nat)
    requires a < 16 && b < 16 && c < 16 && d < 16
    ensures HexNumber([HexChar(a), HexChar(b), HexChar(c), HexChar(d)]) == Some(0x1000 * a + 0x100 * b + 16 * c + d)
  {
    hide HexNumber, HexDigit, HexChar;
    var w, x, y, z := HexChar(a), HexChar(b), HexChar(c), HexChar(d);
    assert "" + [w] == [w] && [w] + [x] == [w, x] && [w, x] + [y] == [w, x, y] && [w, x, y] + [z] == [w, x, y, z];
    NoDigits();
    HexAppends("", w);
    HexAppends([w], x);
    HexAppends([w, x], y);
    HexAppends([w, x, y], z);
  }

  lemma NoDigits()
    ensures HexNumber("") == Some(0)
  {
  }

  lemma FourReads(s: string, p: nat, n: nat)
    requires n < 0x10000 && At(s, p, Four(n))
    ensures Hex4(s, p) == Some(n)
  {
    hide HexNumber, HexChar;
    var a, b := n / 0x100, n / 16;
    FourDigits(n / 0x1000, a % 16, b % 16, n % 16);
    assert a == 16 * (n / 0x1000) + a % 16 && b == 16 * a + b % 16;
  }

  /** A pair of surrogates is one character. */
  lemma PairReads(r: nat)
    requires 0x10000 <= r < 0x110000
    ensures DecodePair(High(r), Low(r)) == r
  {
  }

  lemma EscapeReads(s: string, p: nat, r: nat)
    requires PieceFits(Numbered(r)) && At(s, p, PrintPiece(Numbered(r)))
    ensures p + 2 < |s| && s[p] == '\\' && s[p + 1] == 'u'
    ensures ReadEscape(s, p + 2) == Some((r, p + |PrintPiece(Numbered(r))|))
  {
    hide HexNumber, Four;
    var first := if r < 0x10000 then r else High(r);
    if r >= 0x10000 {
      AtSplit(s, p, Escape(High(r)), Escape(Low(r)));
      AtSplit(s, p + 6, "\\u", Four(Low(r)));
      FourReads(s, p + 8, Low(r));
      PairReads(r);
    }
    AtSplit(s, p, "\\u", Four(first));
    FourReads(s, p + 2, first);
    AtChar(s, p, "\\u", 0);
    AtChar(s, p, "\\u", 1);
  }

  lemma PieceReads(s: string, p: nat, x: Piece)
    requires PieceFits(x) && At(s, p, PrintPiece(x))
    ensures ReadQuoted(s, p) == Then(PieceMeaning(x), ReadQuoted(s, p + |PrintPiece(x)|))
  {
    hide ReadEscape, Utf8, Unescaped;
    AtChar(s, p, PrintPiece(x), 0);
    match x
    case Plain(_) =>
    case Escaped(_) => AtChar(s, p, PrintPiece(x), 1);
    case Numbered(r) => EscapeReads(s, p, r);
  }

  /** A string is read as what its pieces stand for, however each is written. */
  lemma {:induction false} StringReads(s: string, p: nat, xs: seq<Piece>)
    requires PiecesFit(xs) && At(s, p, PrintPieces(xs))
    ensures ReadQuoted(s, p) == Some((PiecesMeaning(xs), p + |PrintPieces(xs)|))
    decreases |xs|
  {
    hide ReadQuoted, PrintPiece, PieceMeaning, PieceFits, At;
    if xs == [] {
      StringEnds(s, p);
    } else {
      var t, rest := PrintPiece(xs[0]), PrintPieces(xs[1..]);
      assert PrintPieces(xs) == t + rest;
      AtSplit(s, p, t, rest);
      StringReads(s, p + |t|, xs[1..]);
      PieceReads(s, p, xs[0]);
    }
  }

  lemma StringEnds(s: string, p: nat)
    requires At(s, p, "\"")
    ensures ReadQuoted(s, p) == Some(("", p + 1))
  {
    AtChar(s, p, "\"", 0);
  }

  /** The bytes of a character determine it. */
  function FromUtf8(t: string): (r: int)
    requires 1 <= |t| <= 4
  {
    if |t| == 1 then t[0] as int
    else if |t| == 2 then (t[0] as int - 0xC0) * 0x40 + (t[1] as int - 0x80)
    else if |t| == 3 then (t[0] as int - 0xE0) * 0x1000 + (t[1] as int - 0x80) * 0x40 + (t[2] as int - 0x80)
    else
      (t[0] as int - 0xF0) * 0x40000 + (t[1] as int - 0x80) * 0x1000 + (t[2] as int - 0x80) * 0x40
      + (t[3] as int - 0x80)
  }

  lemma Sixes(r: nat)
    ensures r == r / 0x40 * 0x40 + r % 0x40
    ensures r == r / 0x1000 * 0x1000 + r / 0x40 % 0x40 * 0x40 + r % 0x40
    ensures r == r / 0x40000 * 0x40000 + r / 0x1000 % 0x40 * 0x1000 + r / 0x40 % 0x40 * 0x40 + r % 0x40
  {
    var a := r / 0x40;
    var b := a / 0x40;
    assert b == r / 0x1000;
    assert b / 0x40 == r / 0x40000;
  }

  /** A character is found again from its bytes, none of which is an ASCII character's unless it is one. */
  lemma Utf8Reads(r: nat)
    requires r < 0x110000
    ensures 1 <= |Utf8(r)| <= 4 && FromUtf8(Utf8(r)) == r
    ensures |Utf8(r)| > 1 ==> forall i :: 0 <= i < |Utf8(r)| ==> Utf8(r)[i] >= 128 as char
  {
    Sixes(r);
  }

  // ---------------------------------------------------------------- numbers

  lemma {:induction false} DigitsEnd(s: string, p: nat, q: nat)
    requires p <= q <= |s| && (forall i :: p <= i < q ==> IsDigit(s[i]))
    requires q < |s| ==> !IsDigit(s[q]) && !FloatMark(s[q]) && s[q] != '-' && s[q] != '+'
    ensures NumberEnd(s, p) == q
    decreases q - p
  {
    if p < q {
      DigitsEnd(s, p + 1, q);
    }
  }

  /** A whole number of 64 bits, before something that does not lengthen it. */
  lemma NumberReads(lib: Library, s: string, p: nat, n: int)
    requires MIN_INT64 <= n <= MAX_INT64 && At(s, p, Itoa(n))
    requires var q := p + |Itoa(n)|;
      q < |s| ==> !IsDigit(s[q]) && !FloatMark(s[q]) && s[q] != '-' && s[q] != '+'
    ensures ReadNumber(lib, s, p) == Some((Int64(n), p + |Itoa(n)|))
    ensures p < |s| && (s[p] == '-' || IsDigit(s[p]))
  {
    hide Number, Digits, NumberEnd;
    var t := Itoa(n);
    var digits := Digits(if n < 0 then -n else n);
    var q := if n < 0 then p + 1 else p;
    var end := p + |t|;
    forall i | q <= i < end
      ensures IsDigit(s[i])
    {
      AtChar(s, p, t, i - p);
    }
    AtChar(s, p, t, 0);
    DigitsEnd(s, q, end);
    ItoaReads(n);
    hide Atoi;
    assert !Marked(t) && t != "-" && t != "+";
  }
}
