/** Text that a search for a brace passes over: comments, strings, groups and blocks
    (internal/proto/graphql/scan.go). */
module Noises {
  import opened Options
  import opened Texts
  import opened LiteralLaws
  import opened Documents
  import opened DocumentLaws

  // ---------------------------------------------------------------- what stands before a selection set

  /** What may stand between an operation's keyword and its selection set, or in a block: plain
      characters, comments, strings, groups in parentheses, where braces open nothing, and braces that
      are closed again. */
  datatype Noise =
    | Other(c: char)
    | Remark(text: string)
    | Quote(pieces: seq<Piece>)
    | Group(inner: seq<Noise>)
    | Braces(inner: seq<Noise>)

  predicate NoiseFits(x: Noise, inside: bool) {
    match x
    case Other(c) => c !in {'"', '#', '(', ')'} && (c == '{' ==> inside)
    case Remark(text) => '\n' !in text
    case Quote(pieces) => PiecesFit(pieces)
    case Group(inner) => forall i :: 0 <= i < |inner| ==> NoiseFits(inner[i], true)
    case Braces(inner) => inside && forall i :: 0 <= i < |inner| ==> NoiseFits(inner[i], true)
  }

  predicate AllFit(xs: seq<Noise>, inside: bool) {
    forall i :: 0 <= i < |xs| ==> NoiseFits(xs[i], inside)
  }

  function PrintNoise(x: Noise, inside: bool): string
    requires NoiseFits(x, inside)
    decreases x, 0
  {
    match x
    case Other(c) => [c]
    case Remark(text) => "#" + (text + "\n")
    case Quote(pieces) => "\"" + (PrintPieces(pieces) + " ")
    case Group(inner) => "(" + (PrintAll(inner, true) + ")")
    case Braces(inner) => "{" + (PrintAll(inner, true) + "}")
  }

  function PrintAll(xs: seq<Noise>, inside: bool): string
    requires AllFit(xs, inside)
    decreases xs, 1
  {
    if xs == [] then "" else PrintNoise(xs[0], inside) + PrintAll(xs[1..], inside)
  }

  lemma FourPassed(s: string, p: nat, n: nat)
    requires n < 0x10000 && At(s, p, Four(n))
    ensures QuoteEnd(s, p) == QuoteEnd(s, p + 4)
  {
    var t := Four(n);
    AtChar(s, p, t, 0);
    AtChar(s, p, t, 1);
    AtChar(s, p, t, 2);
    AtChar(s, p, t, 3);
    assert QuoteEnd(s, p + 2) == QuoteEnd(s, p + 3) == QuoteEnd(s, p + 4);
  }

  lemma EscapePassed(s: string, p: nat, n: nat)
    requires n < 0x10000 && At(s, p, Escape(n))
    ensures QuoteEnd(s, p) == QuoteEnd(s, p + 6)
  {
    hide Four;
    AtSplit(s, p, "\\u", Four(n));
    AtChar(s, p, "\\u", 0);
    FourPassed(s, p + 2, n);
  }

  lemma PiecePassed(s: string, p: nat, x: Piece)
    requires PieceFits(x) && At(s, p, PrintPiece(x))
    ensures QuoteEnd(s, p) == QuoteEnd(s, p + |PrintPiece(x)|)
  {
    hide Escape;
    match x
    case Plain(_) => AtChar(s, p, PrintPiece(x), 0);
    case Escaped(_) => AtChar(s, p, PrintPiece(x), 0);
    case Numbered(r) =>
      if r < 0x10000 {
        EscapePassed(s, p, r);
      } else {
        AtSplit(s, p, Escape(High(r)), Escape(Low(r)));
        EscapePassed(s, p, High(r));
        EscapePassed(s, p + 6, Low(r));
      }
  }

  /** Passing over a string's text and reading it come to the same closing quote. */
  lemma {:induction false} PiecesPassed(s: string, p: nat, xs: seq<Piece>)
    requires PiecesFit(xs) && At(s, p, PrintPieces(xs))
    ensures QuoteEnd(s, p) + 1 == p + |PrintPieces(xs)|
    decreases |xs|
  {
    hide PrintPiece, PieceFits, At;
    if xs == [] {
      AtChar(s, p, "\"", 0);
    } else {
      hide QuoteEnd;
      var t, rest := PrintPiece(xs[0]), PrintPieces(xs[1..]);
      assert PrintPieces(xs) == t + rest;
      AtSplit(s, p, t, rest);
      PiecePassed(s, p, xs[0]);
      PiecesPassed(s, p + |t|, xs[1..]);
    }
  }

  lemma StringPassed(s: string, p: nat, pieces: seq<Piece>)
    requires PiecesFit(pieces) && At(s, p, "\"" + (PrintPieces(pieces) + " "))
    ensures p < |s| && s[p] == '"' && SkipString(s, p) == p + 1 + |PrintPieces(pieces)|
    ensures At(s, p + 1 + |PrintPieces(pieces)|, " ")
  {
    hide At, PrintPieces, QuoteEnd, PiecesFit;
    var t := PrintPieces(pieces);
    AtSplit(s, p, "\"", t + " ");
    AtSplit(s, p + 1, t, " ");
    AtChar(s, p, "\"", 0);
    PiecesPassed(s, p + 1, pieces);
    NoTriple(s, p, pieces, " ");
  }

  /** A character that opens, closes and hides nothing. */
  lemma OtherPassed(s: string, p: nat, c: char, depth: nat)
    requires At(s, p, [c]) && c !in {'"', '#', '(', ')'} && (c == '{' ==> depth > 0)
    ensures ToSelectionSet(s, p, depth) == ToSelectionSet(s, p + 1, depth)
  {
    AtChar(s, p, [c], 0);
  }

  lemma RemarkEnds(s: string, p: nat, text: string)
    requires '\n' !in text && At(s, p, "#" + (text + "\n"))
    ensures p < |s| && s[p] == '#' && SkipTo(s, p + 1, '\n') == p + 1 + |text|
  {
    hide At;
    AtSplit(s, p, "#", text + "\n");
    AtSplit(s, p + 1, text, "\n");
    AtChar(s, p, "#", 0);
    AtChar(s, p + 1 + |text|, "\n", 0);
    forall i | p + 1 <= i < p + 1 + |text|
      ensures s[i] != '\n'
    {
      AtChar(s, p + 1, text, i - p - 1);
    }
    SkipToAt(s, p + 1, p + 1 + |text|, '\n');
  }

  lemma RemarkPassed(s: string, p: nat, text: string, depth: nat)
    requires '\n' !in text && At(s, p, "#" + (text + "\n"))
    ensures ToSelectionSet(s, p, depth) == ToSelectionSet(s, p + |text| + 2, depth)
  {
    RemarkEnds(s, p, text);
    hide At;
  }

  lemma QuotePassed(s: string, p: nat, pieces: seq<Piece>, depth: nat)
    requires PiecesFit(pieces) && At(s, p, "\"" + (PrintPieces(pieces) + " "))
    ensures ToSelectionSet(s, p, depth) == ToSelectionSet(s, p + |PrintPieces(pieces)| + 2, depth)
  {
    hide PrintPieces, PiecesFit, SkipString;
    StringPassed(s, p, pieces);
    OtherPassed(s, p + 1 + |PrintPieces(pieces)|, ' ', depth);
  }

  lemma ParenthesisPassed(s: string, p: nat, depth: nat)
    ensures At(s, p, "(") ==> ToSelectionSet(s, p, depth) == ToSelectionSet(s, p + 1, depth + 1)
    ensures At(s, p, ")") ==> ToSelectionSet(s, p, depth + 1) == ToSelectionSet(s, p + 1, depth)
  {
    if At(s, p, "(") {
      AtChar(s, p, "(", 0);
    } else if At(s, p, ")") {
      AtChar(s, p, ")", 0);
    }
  }

  lemma {:induction false} NoisePassed(s: string, p: nat, x: Noise, depth: nat)
    requires NoiseFits(x, depth > 0) && At(s, p, PrintNoise(x, depth > 0))
    ensures ToSelectionSet(s, p, depth) == ToSelectionSet(s, p + |PrintNoise(x, depth > 0)|, depth)
    decreases x, 0
  {
    hide ToSelectionSet, At, PiecesFit;
    match x
    case Other(c) => OtherPassed(s, p, c, depth);
    case Remark(text) => RemarkPassed(s, p, text, depth);
    case Quote(pieces) => QuotePassed(s, p, pieces, depth);
    case Group(inner) =>
      var t := PrintAll(inner, true);
      AtSplit(s, p, "(", t + ")");
      AtSplit(s, p + 1, t, ")");
      ParenthesisPassed(s, p, depth);
      AllPassed(s, p + 1, inner, depth + 1);
      ParenthesisPassed(s, p + 1 + |t|, depth);
    case Braces(inner) =>
      var t := PrintAll(inner, true);
      AtSplit(s, p, "{", t + "}");
      AtSplit(s, p + 1, t, "}");
      OtherPassed(s, p, '{', depth);
      AllPassed(s, p + 1, inner, depth);
      OtherPassed(s, p + 1 + |t|, '}', depth);
  }

  /** Nothing before a selection set opens it. */
  lemma {:induction false} AllPassed(s: string, p: nat, xs: seq<Noise>, depth: nat)
    requires AllFit(xs, depth > 0) && At(s, p, PrintAll(xs, depth > 0))
    ensures ToSelectionSet(s, p, depth) == ToSelectionSet(s, p + |PrintAll(xs, depth > 0)|, depth)
    decreases xs, 1
  {
    hide ToSelectionSet, At, PrintNoise, NoiseFits;
    if xs != [] {
      var t, rest := PrintNoise(xs[0], depth > 0), PrintAll(xs[1..], depth > 0);
      assert PrintAll(xs, depth > 0) == t + rest;
      AtSplit(s, p, t, rest);
      NoisePassed(s, p, xs[0], depth);
      AllPassed(s, p + |t|, xs[1..], depth);
    }
  }

  // ---------------------------------------------------------------- a block skipped

  /** Every brace in it is closed again. */
  predicate Balanced(x: Noise) {
    match x
    case Other(c) => c != '{' && c != '}'
    case Group(inner) => forall i :: 0 <= i < |inner| ==> Balanced(inner[i])
    case Braces(inner) => forall i :: 0 <= i < |inner| ==> Balanced(inner[i])
    case _ => true
  }

  predicate AllBalanced(xs: seq<Noise>) {
    forall i :: 0 <= i < |xs| ==> Balanced(xs[i])
  }

  /** A character that is no brace. */
  lemma OtherInBlock(s: string, p: nat, c: char, depth: nat)
    requires At(s, p, [c]) && c !in {'"', '#', '{', '}'} && depth > 0
    ensures SkipBlock(s, p, depth) == SkipBlock(s, p + 1, depth)
  {
    AtChar(s, p, [c], 0);
  }

  lemma RemarkInBlock(s: string, p: nat, text: string, depth: nat)
    requires '\n' !in text && At(s, p, "#" + (text + "\n")) && depth > 0
    ensures SkipBlock(s, p, depth) == SkipBlock(s, p + |text| + 2, depth)
  {
    RemarkEnds(s, p, text);
    hide At;
  }

  lemma QuoteInBlock(s: string, p: nat, pieces: seq<Piece>, depth: nat)
    requires PiecesFit(pieces) && At(s, p, "\"" + (PrintPieces(pieces) + " ")) && depth > 0
    ensures SkipBlock(s, p, depth) == SkipBlock(s, p + |PrintPieces(pieces)| + 2, depth)
  {
    hide PrintPieces, PiecesFit, SkipString;
    StringPassed(s, p, pieces);
    OtherInBlock(s, p + 1 + |PrintPieces(pieces)|, ' ', depth);
  }

  lemma BraceInBlock(s: string, p: nat, depth: nat)
    requires depth > 0
    ensures At(s, p, "{") ==> SkipBlock(s, p, depth) == SkipBlock(s, p + 1, depth + 1)
    ensures At(s, p, "}") ==> SkipBlock(s, p, depth + 1) == SkipBlock(s, p + 1, depth)
    ensures At(s, p, "}") ==> SkipBlock(s, p, 1) == Some(p + 1)
  {
    if At(s, p, "{") {
      AtChar(s, p, "{", 0);
    } else if At(s, p, "}") {
      AtChar(s, p, "}", 0);
    }
  }

  lemma {:induction false} NoiseInBlock(s: string, p: nat, x: Noise, depth: nat)
    requires NoiseFits(x, true) && Balanced(x) && At(s, p, PrintNoise(x, true)) && depth > 0
    ensures SkipBlock(s, p, depth) == SkipBlock(s, p + |PrintNoise(x, true)|, depth)
    decreases x, 0
  {
    hide SkipBlock, At, PiecesFit;
    match x
    case Other(c) => OtherInBlock(s, p, c, depth);
    case Remark(text) => RemarkInBlock(s, p, text, depth);
    case Quote(pieces) => QuoteInBlock(s, p, pieces, depth);
    case Group(inner) =>
      var t := PrintAll(inner, true);
      AtSplit(s, p, "(", t + ")");
      AtSplit(s, p + 1, t, ")");
      OtherInBlock(s, p, '(', depth);
      AllInBlock(s, p + 1, inner, depth);
      OtherInBlock(s, p + 1 + |t|, ')', depth);
    case Braces(inner) =>
      var t := PrintAll(inner, true);
      AtSplit(s, p, "{", t + "}");
      AtSplit(s, p + 1, t, "}");
      BraceInBlock(s, p, depth);
      AllInBlock(s, p + 1, inner, depth + 1);
      BraceInBlock(s, p + 1 + |t|, depth);
  }

  /** Nothing in a block closes it before its end. */
  lemma {:induction false} AllInBlock(s: string, p: nat, xs: seq<Noise>, depth: nat)
    requires AllFit(xs, true) && AllBalanced(xs) && At(s, p, PrintAll(xs, true)) && depth > 0
    ensures SkipBlock(s, p, depth) == SkipBlock(s, p + |PrintAll(xs, true)|, depth)
    decreases xs, 1
  {
    hide SkipBlock, At, PrintNoise, NoiseFits, Balanced;
    if xs != [] {
      var t, rest := PrintNoise(xs[0], true), PrintAll(xs[1..], true);
      assert PrintAll(xs, true) == t + rest;
      AtSplit(s, p, t, rest);
      NoiseInBlock(s, p, xs[0], depth);
      AllInBlock(s, p + |t|, xs[1..], depth);
    }
  }
}
