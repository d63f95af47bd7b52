/** Printing a tag condition and reading it back (internal/bir/tagexpr.go). */
module TagExprLaws {
  import opened Options
  import opened Texts
  import opened TagExprs

  // ---------------------------------------------------------------- printing

  function PrintOp(op: Op): string {
    match op
    case Eq => "="
    case Ne => "<>"
    case Gt => ">"
    case Ge => ">="
    case Lt => "<"
    case Le => "<="
  }

  function PrintOperand(operand: Operand): string {
    match operand
    case Bare(name) => name
    case Quoted(name) => "\"" + name + "\""
    case Container => CONTAINER
  }

  /** A literal's characters, each quote doubled, and its closing quote. */
  function PrintLiteral(value: string): string {
    if value == "" then "'"
    else (if value[0] == '\'' then "''" else [value[0]]) + PrintLiteral(value[1..])
  }

  function PrintCmp(operand: Operand, op: Op, value: string): string {
    PrintOperand(operand) + PrintOp(op) + "'" + PrintLiteral(value)
  }

  datatype Level = Loose | Middle | Tight

  function Parenthesized(t: string): string {
    "(" + t + ")"
  }

  /** Text with as few parentheses as the reader needs: `or` binds loosest and `not` tightest, and a
      chain of one of them leans to the left. */
  function Print(e: Expr, level: Level): string {
    match e
    case Or(l, r) =>
      var t := Print(l, Loose) + (" " + "or" + " ") + Print(r, Middle);
      if level.Loose? then t else Parenthesized(t)
    case And(l, r) =>
      var t := Print(l, Middle) + (" " + "and" + " ") + Print(r, Tight);
      if level.Tight? then Parenthesized(t) else t
    case Not(x) => "not " + Print(x, Tight)
    case Cmp(operand, op, value) => PrintCmp(operand, op, value)
  }

  /** Names that can be written: no double quote between double quotes, and a bare word of word
      characters that does not read as `not`. */
  predicate Nameable(operand: Operand) {
    match operand
    case Bare(name) => name != "" && (forall i :: 0 <= i < |name| ==> Ident(name[i])) && !EqualFold(name, "not")
    case Quoted(name) => forall i :: 0 <= i < |name| ==> name[i] != '"'
    case Container => true
  }

  predicate Writable(e: Expr) {
    match e
    case Or(l, r) => Writable(l) && Writable(r)
    case And(l, r) => Writable(l) && Writable(r)
    case Not(x) => Writable(x)
    case Cmp(operand, _, _) => Nameable(operand)
  }

  // ---------------------------------------------------------------- words and blanks in place

  lemma WsStay(s: string, p: nat)
    requires p < |s| && !Blank(s[p])
    ensures Ws(s, p) == p
  {
  }

  lemma {:induction false} WordEndAt(s: string, p: nat, q: nat)
    requires p <= q <= |s| && (forall i :: p <= i < q ==> Ident(s[i])) && (q < |s| ==> !Ident(s[q]))
    ensures WordEnd(s, p) == q
    decreases q - p
  {
    if p < q {
      WordEndAt(s, p + 1, q);
    }
  }

  /** Blanks before an expression make no difference. */
  lemma BlankBefore(s: string, p: nat)
    requires p < |s| && Blank(s[p])
    ensures ReadUnary(s, p) == ReadUnary(s, p + 1)
    ensures ReadAnd(s, p) == ReadAnd(s, p + 1)
  {
    BlankBeforeUnary(s, p);
    hide ReadUnary, AndTail;
  }

  lemma BlankBeforeUnary(s: string, p: nat)
    requires p < |s| && Blank(s[p])
    ensures ReadUnary(s, p) == ReadUnary(s, p + 1)
  {
    hide ReadOr, ReadComparison, EqualFold, Ident;
    assert Keyword(s, p, "not") == Keyword(s, p + 1, "not");
  }

  lemma TailsSkipBlanks(s: string, e: Expr, p: nat)
    requires p <= |s|
    ensures OrTail(s, e, Ws(s, p)) == OrTail(s, e, p)
    ensures AndTail(s, e, Ws(s, p)) == AndTail(s, e, p)
  {
    WsTwice(s, p);
    assert Keyword(s, Ws(s, p), "or") == Keyword(s, p, "or") && Keyword(s, Ws(s, p), "and") == Keyword(s, p, "and") by {
      hide EqualFold, Ident;
    }
    hide Keyword, ReadAnd, ReadUnary;
  }

  /** A keyword written between blanks is taken. */
  lemma KeywordAt(s: string, p: nat, kw: string)
    requires kw in {"or", "and"} && At(s, p, " " + kw + " ")
    ensures Keyword(s, p, kw) == Some(p + 1 + |kw|)
    ensures Keyword(s, p, if kw == "or" then "and" else "or").None?
  {
    var t := " " + kw + " ";
    AtSplit(s, p, " " + kw, " ");
    AtSplit(s, p, " ", kw);
    AtChar(s, p, t, 0);
    AtChar(s, p, t, 1);
    AtChar(s, p, t, |t| - 1);
    assert Ws(s, p + 1) == p + 1;
    assert s[p + 1..p + 1 + |kw|] == kw;
    var other := if kw == "or" then "and" else "or";
    assert Lower(other[0]) != Lower(s[p + 1]);
    if p + 1 + |other| <= |s| {
      assert s[p + 1..p + 1 + |other|][0] == s[p + 1];
    }
  }

  /** Where an expression ends: at the end, or before something that neither lengthens its last
      literal nor is another `and` operand. */
  predicate Ends(s: string, q: nat) {
    q <= |s| && (q < |s| ==> s[q] != '\'')
  }

  lemma NoKeywordAt(s: string, p: nat, kw: string)
    requires p <= |s| && kw in {"or", "and", "not"}
    requires p < |s| ==> s[p] == ')' || s[p] == '(' || s[p] == '"' || s[p] == '@'
    ensures Keyword(s, p, kw).None?
  {
    if p < |s| {
      WsStay(s, p);
      if p + |kw| <= |s| {
        assert s[p..p + |kw|][0] == s[p];
      }
    }
  }

  // ---------------------------------------------------------------- comparisons round trip

  lemma {:induction false} LiteralReads(s: string, p: nat, value: string)
    requires At(s, p, PrintLiteral(value)) && Ends(s, p + |PrintLiteral(value)|)
    ensures ReadLiteral(s, p) == Some((value, p + |PrintLiteral(value)|))
    decreases |value|
  {
    hide At;
    if value == "" {
      AtChar(s, p, "'", 0);
    } else {
      var head := if value[0] == '\'' then "''" else [value[0]];
      AtSplit(s, p, head, PrintLiteral(value[1..]));
      AtChar(s, p, head, 0);
      if value[0] == '\'' {
        AtChar(s, p, head, 1);
      }
      LiteralReads(s, p + |head|, value[1..]);
      assert value == [value[0]] + value[1..];
    }
  }

  lemma OpReads(s: string, p: nat, op: Op)
    requires At(s, p, PrintOp(op) + "'")
    ensures ReadOp(s, p) == Some((op, p + |PrintOp(op)|))
  {
    var t := PrintOp(op);
    AtSplit(s, p, t, "'");
    AtChar(s, p, t + "'", 0);
    AtChar(s, p, t + "'", 1);
    AtTwo(s, p, "<>");
    AtTwo(s, p, ">=");
    AtTwo(s, p, "<=");
    AtOne(s, p, '=');
    AtOne(s, p, '>');
    AtOne(s, p, '<');
    hide At;
  }

  lemma AtOne(s: string, p: nat, c: char)
    ensures At(s, p, [c]) <==> p < |s| && s[p] == c
  {
    if p < |s| {
      assert s[p..p + 1] == [s[p]];
    }
  }

  lemma AtTwo(s: string, p: nat, t: string)
    requires |t| == 2
    ensures At(s, p, t) <==> p + 1 < |s| && s[p] == t[0] && s[p + 1] == t[1]
  {
    if p + 1 < |s| {
      assert s[p..p + 2] == [s[p], s[p + 1]];
    }
  }

  lemma OperandReads(s: string, p: nat, operand: Operand, op: Op)
    requires Nameable(operand) && At(s, p, PrintOperand(operand) + PrintOp(op))
    ensures ReadOperand(s, p) == Some((operand, p + |PrintOperand(operand)|))
    ensures Ws(s, p) == p && Ws(s, p + |PrintOperand(operand)|) == p + |PrintOperand(operand)|
  {
    hide At, ReadOperand;
    var t := PrintOperand(operand);
    AtSplit(s, p, t, PrintOp(op));
    AtChar(s, p + |t|, PrintOp(op), 0);
    AtChar(s, p, t, 0);
    WsStay(s, p);
    WsStay(s, p + |t|);
    hide Ws;
    match operand
    case Bare(name) => BareReads(s, p, name);
    case Quoted(name) => QuotedReads(s, p, name);
    case Container => ContainerReads(s, p);
  }

  lemma ContainerReads(s: string, p: nat)
    requires At(s, p, CONTAINER) && p + |CONTAINER| < |s| && !Ident(s[p + |CONTAINER|])
    ensures ReadOperand(s, p) == Some((Container, p + |CONTAINER|))
  {
    AtChar(s, p, CONTAINER, 0);
  }

  lemma BareReads(s: string, p: nat, name: string)
    requires Nameable(Bare(name)) && At(s, p, name) && p + |name| < |s| && !Ident(s[p + |name|])
    ensures ReadOperand(s, p) == Some((Bare(name), p + |name|))
  {
    var q := p + |name|;
    forall i | p <= i < q
      ensures Ident(s[i])
    {
      AtChar(s, p, name, i - p);
    }
    WordEndAt(s, p, q);
  }

  lemma QuotedReads(s: string, p: nat, name: string)
    requires Nameable(Quoted(name)) && At(s, p, "\"" + name + "\"")
    ensures ReadOperand(s, p) == Some((Quoted(name), p + |name| + 2))
  {
    var t := "\"" + name + "\"";
    var close := p + 1 + |name|;
    AtSplit(s, p, "\"" + name, "\"");
    AtSplit(s, p, "\"", name);
    AtChar(s, p, "\"", 0);
    AtChar(s, close, "\"", 0);
    forall i | p + 1 <= i < close
      ensures s[i] != '"'
    {
      AtChar(s, p + 1, name, i - p - 1);
    }
    SkipToAt(s, p + 1, close, '"');
  }

  /** Where the parts of a printed comparison stand. */
  lemma CmpParts(s: string, p: nat, operand: Operand, op: Op, value: string)
    requires At(s, p, PrintCmp(operand, op, value))
    ensures var a, b, c := PrintOperand(operand), PrintOp(op), PrintLiteral(value);
      && At(s, p, a + b) && At(s, p, a) && At(s, p + |a|, b) && At(s, p + |a|, b + "'") && At(s, p + |a| + |b|, "'")
      && At(s, p + |a| + |b| + 1, c) && |PrintCmp(operand, op, value)| == |a| + |b| + 1 + |c|
  {
    hide At, PrintOperand, PrintOp, PrintLiteral;
    var a, b, c := PrintOperand(operand), PrintOp(op), PrintLiteral(value);
    AtSplit(s, p, a + b + "'", c);
    AtSplit(s, p, a + b, "'");
    AtSplit(s, p, a, b);
    AtSplit(s, p + |a|, b, "'");
  }

  lemma CmpReads(s: string, p: nat, operand: Operand, op: Op, value: string)
    requires Nameable(operand) && At(s, p, PrintCmp(operand, op, value)) && Ends(s, p + |PrintCmp(operand, op, value)|)
    ensures ReadComparison(s, p) == Some((Cmp(operand, op, value), p + |PrintCmp(operand, op, value)|))
    ensures Ws(s, p) == p < |s| && s[p] != '('
  {
    hide ReadComparison, ReadOperand, ReadOp, ReadLiteral, Ws, Nameable, PrintCmp, At, Ends, PrintOp, PrintOperand,
        PrintLiteral;
    var a, b, c := PrintOperand(operand), PrintOp(op), PrintLiteral(value);
    CmpParts(s, p, operand, op, value);
    OperandReads(s, p, operand, op);
    OpReads(s, p + |a|, op);
    var q := p + |a| + |b|;
    AtChar(s, q, "'", 0);
    WsStay(s, q);
    LiteralReads(s, q + 1, value);
    OperandStarts(s, p, operand);
    AssembleCmp(s, p, operand, p + |a|, op, q, value, q + 1 + |c|);
  }

  lemma AssembleCmp(s: string, p: nat, operand: Operand, afterOperand: nat, op: Op, afterOp: nat,
          value: string, end: nat)
    requires p < afterOperand < afterOp < end <= |s| && Ws(s, p) == p && s[afterOp] == '\''
    requires ReadOperand(s, p) == Some((operand, afterOperand)) && Ws(s, afterOperand) == afterOperand
    requires ReadOp(s, afterOperand) == Some((op, afterOp)) && Ws(s, afterOp) == afterOp
    requires ReadLiteral(s, afterOp + 1) == Some((value, end))
    ensures ReadComparison(s, p) == Some((Cmp(operand, op, value), end))
  {
    hide ReadOperand, ReadOp, ReadLiteral, Ws;
  }

  lemma OperandStarts(s: string, p: nat, operand: Operand)
    requires Nameable(operand) && At(s, p, PrintOperand(operand))
    ensures p < |s| && s[p] != '(' && s[p] == PrintOperand(operand)[0]
  {
    AtChar(s, p, PrintOperand(operand), 0);
  }

  /** A printed comparison does not begin with `not`. */
  lemma CmpIsNoNot(s: string, p: nat, operand: Operand, op: Op, value: string)
    requires Nameable(operand) && At(s, p, PrintCmp(operand, op, value)) && Ends(s, p + |PrintCmp(operand, op, value)|)
    ensures Keyword(s, p, "not").None?
  {
    hide At, Ends, PrintCmp, PrintLiteral, ReadOperand, Keyword, Ws;
    CmpParts(s, p, operand, op, value);
    OperandReads(s, p, operand, op);
    OperandStarts(s, p, operand);
    if operand.Bare? {
      BareIsNoNot(s, p, operand.name, op);
    } else {
      NoKeywordAt(s, p, "not");
    }
  }

  lemma BareIsNoNot(s: string, p: nat, name: string, op: Op)
    requires Nameable(Bare(name)) && At(s, p, name) && At(s, p + |name|, PrintOp(op)) && p < |s| && Ws(s, p) == p
    ensures Keyword(s, p, "not").None?
  {
    AtChar(s, p + |name|, PrintOp(op), 0);
    var end := p + 3;
    if end <= |s| {
      var w := s[p..end];
      assert forall i :: 0 <= i < 3 ==> w[i] == s[p + i];
      if |name| < 3 {
        assert w[|name|] in "<>=";
        assert Lower("not"[|name|]) !in "<>=";
      } else if |name| > 3 {
        AtChar(s, p, name, 3);
      } else {
        assert w == name;
      }
    }
  }

  // ---------------------------------------------------------------- expressions round trip

  function Rank(e: Expr, level: Level): nat {
    match (e, level)
    case (Or(_, _), Loose) => 0
    case (Or(_, _), Tight) => 1
    case (Or(_, _), Middle) => 2
    case (And(_, _), Middle) => 0
    case (And(_, _), Loose) => 1
    case (And(_, _), Tight) => 2
    case (_, Tight) => 0
    case (_, Middle) => 1
    case (_, Loose) => 2
  }

  /** Nothing after a printed expression at p reads as part of it. */
  ghost predicate Placed(s: string, p: nat, e: Expr, level: Level) {
    Writable(e) && At(s, p, Print(e, level)) && Ends(s, p + |Print(e, level)|)
  }

  /** The tightest form reads as exactly the expression. */
  lemma {:induction false} TightReads(s: string, p: nat, e: Expr)
    requires Placed(s, p, e, Tight)
    ensures ReadUnary(s, p) == Some((e, p + |Print(e, Tight)|))
    decreases e, Rank(e, Tight)
  {
    hide ReadUnary, ReadComparison, Keyword, At, Ends, PrintCmp, Nameable, Ws;
    match e
    case Not(x) => NotReads(s, p, x);
    case Cmp(operand, op, value) =>
      CmpReads(s, p, operand, op, value);
      CmpIsNoNot(s, p, operand, op, value);
      ComparisonRead(s, p);
    case _ => GroupReads(s, p, e);
  }

  lemma ComparisonRead(s: string, p: nat)
    requires p < |s| && Keyword(s, p, "not").None? && Ws(s, p) == p && s[p] != '('
    ensures ReadUnary(s, p) == ReadComparison(s, p)
  {
    hide ReadComparison, Keyword, Ws, ReadOr;
  }

  lemma {:induction false} NotReads(s: string, p: nat, x: Expr)
    requires Placed(s, p, Not(x), Tight)
    ensures ReadUnary(s, p) == Some((Not(x), p + |Print(Not(x), Tight)|))
    decreases x, 3
  {
    hide ReadUnary, Keyword, At, Placed, Print, Blank;
    NotParts(s, p, x);
    TightReads(s, p + 4, x);
    NotAt(s, p);
    BlankBefore(s, p + 3);
    NegateRead(s, p, x, p + 4 + |Print(x, Tight)|);
  }

  lemma NotParts(s: string, p: nat, x: Expr)
    requires Placed(s, p, Not(x), Tight)
    ensures At(s, p, "not ") && Placed(s, p + 4, x, Tight) && |Print(Not(x), Tight)| == 4 + |Print(x, Tight)|
  {
    hide At, Ends;
    AtSplit(s, p, "not ", Print(x, Tight));
  }

  lemma NegateRead(s: string, p: nat, x: Expr, end: nat)
    requires p + 3 <= |s| && Keyword(s, p, "not") == Some(p + 3) && ReadUnary(s, p + 3) == Some((x, end))
    ensures ReadUnary(s, p) == Some((Not(x), end))
  {
    hide Keyword, ReadOr, ReadComparison;
  }

  lemma NotAt(s: string, p: nat)
    requires At(s, p, "not ")
    ensures Keyword(s, p, "not") == Some(p + 3) && p + 3 < |s| && Blank(s[p + 3])
  {
    AtChar(s, p, "not ", 0);
    AtChar(s, p, "not ", 3);
    AtSplit(s, p, "not", " ");
    WsStay(s, p);
    assert s[p..p + 3] == "not";
  }

  /** A looser expression stands in parentheses. */
  lemma {:induction false} GroupReads(s: string, p: nat, e: Expr)
    requires (e.Or? || e.And?) && Placed(s, p, e, Tight)
    ensures ReadUnary(s, p) == Some((e, p + |Print(e, Tight)|))
    decreases e, Rank(e, Tight), 0
  {
    hide ReadUnary, ReadOr, OrTail, Keyword, Ws, At, Ends;
    var t := Print(e, Loose);
    var q := p + 1 + |t|;
    GroupParts(s, p, t);
    LooseReads(s, p + 1, e);
    OrEnds(s, e, q);
    GroupRead(s, p, e, q);
  }

  lemma GroupParts(s: string, p: nat, t: string)
    requires At(s, p, Parenthesized(t))
    ensures var q := p + 1 + |t|;
      && q < |s| && s[p] == '(' && s[q] == ')' && At(s, p + 1, t) && Ends(s, q) && Ws(s, p) == p && Ws(s, q) == q
      && Keyword(s, p, "not").None? && Keyword(s, q, "or").None? && Keyword(s, q, "and").None?
  {
    hide Keyword;
    AtSplit(s, p, "(" + t, ")");
    AtSplit(s, p, "(", t);
    AtChar(s, p, "(", 0);
    var q := p + 1 + |t|;
    AtChar(s, q, ")", 0);
    NoKeywordAt(s, p, "not");
    NoKeywordAt(s, q, "or");
    NoKeywordAt(s, q, "and");
    WsStay(s, p);
    WsStay(s, q);
  }

  lemma OrEnds(s: string, e: Expr, q: nat)
    requires q <= |s|
    ensures Keyword(s, q, "or").None? ==> OrTail(s, e, q) == Some((e, Ws(s, q)))
    ensures Keyword(s, q, "and").None? ==> AndTail(s, e, q) == Some((e, Ws(s, q)))
  {
    hide Keyword, ReadAnd, ReadUnary;
  }

  lemma GroupRead(s: string, p: nat, e: Expr, q: nat)
    requires p < q < |s| && Keyword(s, p, "not").None? && Ws(s, p) == p && s[p] == '('
    requires ReadOr(s, p + 1) == Some((e, q)) && Ws(s, q) == q && s[q] == ')'
    ensures ReadUnary(s, p) == Some((e, q + 1))
  {
    hide Keyword, ReadOr, ReadComparison, Ws;
  }

  lemma AndStep(s: string, l: Expr, q: nat, k: nat, r: Expr, end: nat)
    requires q <= |s| && Keyword(s, q, "and") == Some(k) && ReadUnary(s, k) == Some((r, end))
    ensures AndTail(s, l, q) == AndTail(s, And(l, r), end)
  {
    hide Keyword, ReadUnary;
  }

  lemma OrStep(s: string, l: Expr, q: nat, k: nat, r: Expr, end: nat)
    requires q <= |s| && Keyword(s, q, "or") == Some(k) && ReadAnd(s, k) == Some((r, end))
    ensures OrTail(s, l, q) == OrTail(s, Or(l, r), end)
  {
    hide Keyword, ReadAnd;
  }

  lemma ReadAndFrom(s: string, p: nat, e: Expr, q: nat)
    requires p <= |s| && ReadUnary(s, p) == Some((e, q))
    ensures ReadAnd(s, p) == AndTail(s, e, q)
  {
    hide ReadUnary, AndTail;
  }

  lemma ReadOrFrom(s: string, p: nat, e: Expr, q: nat)
    requires p <= |s| && ReadAnd(s, p) == Some((e, q))
    ensures ReadOr(s, p) == OrTail(s, e, q)
  {
    hide ReadAnd, OrTail;
  }

  /** The middle form reads as the start of a chain of `and`. */
  lemma {:induction false} MiddleReads(s: string, p: nat, e: Expr)
    requires Placed(s, p, e, Middle)
    ensures ReadAnd(s, p) == AndTail(s, e, p + |Print(e, Middle)|)
    decreases e, Rank(e, Middle)
  {
    hide ReadUnary, ReadAnd, AndTail, Keyword, At, Ends, Ws, Blank;
    match e
    case And(l, r) =>
      AndReads(s, p, l, r);
    case _ =>
      TightReads(s, p, e);
      ReadAndFrom(s, p, e, p + |Print(e, Tight)|);
  }

  /** The loosest form, before no `and`, reads as the start of a chain of `or`. */
  lemma {:induction false} LooseReads(s: string, p: nat, e: Expr)
    requires Placed(s, p, e, Loose) && Keyword(s, p + |Print(e, Loose)|, "and").None?
    ensures ReadOr(s, p) == OrTail(s, e, p + |Print(e, Loose)|)
    decreases e, Rank(e, Loose)
  {
    hide ReadOr, ReadAnd, OrTail, AndTail, Keyword, Ws, At, Ends, Blank;
    match e
    case Or(l, r) =>
      OrReads(s, p, l, r);
    case _ =>
      MiddleReads(s, p, e);
      assert Print(e, Loose) == Print(e, Middle);
      AtFits(s, p, Print(e, Loose));
      OneOperand(s, p, e, p + |Print(e, Loose)|);
  }

  lemma OneOperand(s: string, p: nat, e: Expr, q: nat)
    requires p <= |s| && q <= |s| && ReadAnd(s, p) == AndTail(s, e, q) && Keyword(s, q, "and").None?
    ensures ReadOr(s, p) == OrTail(s, e, q)
  {
    hide ReadOr, ReadAnd, OrTail, AndTail, Keyword, Ws;
    OrEnds(s, e, q);
    ReadOrFrom(s, p, e, Ws(s, q));
    TailsSkipBlanks(s, e, q);
  }

  lemma {:induction false} OrReads(s: string, p: nat, l: Expr, r: Expr)
    requires Writable(l) && Writable(r)
    requires var t := Print(l, Loose) + (" " + "or" + " ") + Print(r, Middle);
      At(s, p, t) && Ends(s, p + |t|) && Keyword(s, p + |t|, "and").None?
    ensures ReadOr(s, p) == OrTail(s, Or(l, r), p + |Print(l, Loose)| + 4 + |Print(r, Middle)|)
    decreases Or(l, r), 0, 0
  {
    hide ReadOr, ReadAnd, OrTail, AndTail, Keyword, Ws, At, Ends, Blank, Print, Writable;
    var a, b := Print(l, Loose), Print(r, Middle);
    var q := p + |a|;
    var end := q + 4 + |b|;
    ChainAt(s, p, a, "or", b);
    AtFits(s, q + 4, b);
    LooseReads(s, p, l);
    MiddleReads(s, q + 4, r);
    OrChain(s, p, l, q, r, end);
  }

  lemma OrChain(s: string, p: nat, l: Expr, q: nat, r: Expr, end: nat)
    requires p <= q && q + 3 < end <= |s| && Blank(s[q + 3]) && Keyword(s, q, "or") == Some(q + 3)
    requires ReadOr(s, p) == OrTail(s, l, q) && ReadAnd(s, q + 4) == AndTail(s, r, end)
    requires Keyword(s, end, "and").None?
    ensures ReadOr(s, p) == OrTail(s, Or(l, r), end)
  {
    hide ReadOr, ReadAnd, OrTail, AndTail, Keyword, Ws, Blank;
    BlankBefore(s, q + 3);
    OrEnds(s, r, end);
    OrStep(s, l, q, q + 3, r, Ws(s, end));
    TailsSkipBlanks(s, Or(l, r), end);
  }

  lemma {:induction false} AndReads(s: string, p: nat, l: Expr, r: Expr)
    requires Writable(l) && Writable(r)
    requires var t := Print(l, Middle) + (" " + "and" + " ") + Print(r, Tight);
      At(s, p, t) && Ends(s, p + |t|)
    ensures ReadAnd(s, p) == AndTail(s, And(l, r), p + |Print(l, Middle)| + 5 + |Print(r, Tight)|)
    decreases And(l, r), 0, 0
  {
    hide ReadUnary, ReadAnd, AndTail, Keyword, At, Ends, Ws, Blank, Print, Writable;
    var a, b := Print(l, Middle), Print(r, Tight);
    var q := p + |a|;
    ChainAt(s, p, a, "and", b);
    MiddleReads(s, p, l);
    TightReads(s, q + 5, r);
    BlankBefore(s, q + 4);
    AndStep(s, l, q, q + 4, r, q + 5 + |b|);
  }

  /** The parts of a printed chain: the left operand, the keyword between blanks, the right operand. */
  lemma ChainAt(s: string, p: nat, a: string, kw: string, b: string)
    requires kw in {"or", "and"} && At(s, p, a + (" " + kw + " ") + b)
    ensures var q := p + |a|;
      && At(s, p, a) && Ends(s, q) && At(s, q + |kw| + 2, b)
      && Keyword(s, q, kw) == Some(q + |kw| + 1) && Keyword(s, q, if kw == "or" then "and" else "or").None?
      && q + |kw| + 1 < |s| && Blank(s[q + |kw| + 1])
  {
    hide At, Keyword;
    var t := " " + kw + " ";
    AtSplit(s, p, a + t, b);
    AtSplit(s, p, a, t);
    KeywordAt(s, p + |a|, kw);
    AtChar(s, p + |a|, t, 0);
    AtChar(s, p + |a|, t, |t| - 1);
  }

  /** Every condition whose names can be written is read back from its printed form, all of it. */
  lemma PrintedIsRead(e: Expr)
    requires Writable(e)
    ensures Parse(Print(e, Loose)) == Some(e)
  {
    hide Print, ReadOr, OrTail, Keyword;
    var s := Print(e, Loose);
    assert s[0..|s|] == s;
    NothingFollows(s, e);
    LooseReads(s, 0, e);
  }

  lemma NothingFollows(s: string, e: Expr)
    ensures Keyword(s, |s|, "and").None? && OrTail(s, e, |s|) == Some((e, |s|)) && Ws(s, |s|) == |s|
  {
    hide ReadAnd;
    assert Keyword(s, |s|, "or").None?;
  }

  // ---------------------------------------------------------------- what is read can be written

  ghost predicate ReadWritable(r: Option<(Expr, nat)>) {
    r.Some? ==> Writable(r.value.0)
  }

  lemma ComparisonWritable(s: string, p: nat)
    requires p <= |s| && Keyword(s, p, "not").None?
    ensures ReadWritable(ReadComparison(s, Ws(s, p)))
  {
    WsTwice(s, p);
    OperandNameable(s, p);
    hide Keyword, Nameable, ReadOp, ReadLiteral, ReadOperand, Ws;
  }

  lemma OperandNameable(s: string, p: nat)
    requires p <= |s| && Keyword(s, p, "not").None?
    ensures var operand := ReadOperand(s, Ws(s, p)); operand.Some? ==> Nameable(operand.value.0)
  {
    var q := Ws(s, p);
    var operand := ReadOperand(s, q);
    if operand.Some? && operand.value.0.Bare? {
      var end := operand.value.1;
      var name := s[q..end];
      assert EqualFold(name, "not") ==> end == q + 3;
      forall i | 0 <= i < |name|
        ensures Ident(name[i])
      {
        assert name[i] == s[q + i];
      }
    }
  }

  lemma {:induction false} OrWritable(s: string, p: nat)
    requires p <= |s|
    ensures ReadWritable(ReadOr(s, p))
    decreases |s| - p, 3
  {
    hide ReadAnd, OrTail, Writable;
    AndWritable(s, p);
    var left := ReadAnd(s, p);
    if left.Some? {
      OrTailWritable(s, left.value.0, left.value.1);
    }
  }

  lemma {:induction false} OrTailWritable(s: string, left: Expr, p: nat)
    requires p <= |s| && Writable(left)
    ensures ReadWritable(OrTail(s, left, p))
    decreases |s| - p, 0
  {
    hide ReadAnd, Keyword;
    var end := Keyword(s, p, "or");
    if end.Some? {
      AndWritable(s, end.value);
      var right := ReadAnd(s, end.value);
      if right.Some? {
        OrTailWritable(s, Or(left, right.value.0), right.value.1);
      }
    }
  }

  lemma {:induction false} AndWritable(s: string, p: nat)
    requires p <= |s|
    ensures ReadWritable(ReadAnd(s, p))
    decreases |s| - p, 2
  {
    hide ReadUnary, AndTail, Writable;
    UnaryWritable(s, p);
    var left := ReadUnary(s, p);
    if left.Some? {
      AndTailWritable(s, left.value.0, left.value.1);
    }
  }

  lemma {:induction false} AndTailWritable(s: string, left: Expr, p: nat)
    requires p <= |s| && Writable(left)
    ensures ReadWritable(AndTail(s, left, p))
    decreases |s| - p, 0
  {
    hide ReadUnary, Keyword;
    var end := Keyword(s, p, "and");
    if end.Some? {
      UnaryWritable(s, end.value);
      var right := ReadUnary(s, end.value);
      if right.Some? {
        AndTailWritable(s, And(left, right.value.0), right.value.1);
      }
    }
  }

  lemma {:induction false} UnaryWritable(s: string, p: nat)
    requires p <= |s|
    ensures ReadWritable(ReadUnary(s, p))
    decreases |s| - p, 1
  {
    hide ReadOr, ReadComparison, Keyword;
    var end := Keyword(s, p, "not");
    if end.Some? {
      UnaryWritable(s, end.value);
    } else {
      var q := Ws(s, p);
      if q < |s| && s[q] == '(' {
        OrWritable(s, q + 1);
      } else {
        ComparisonWritable(s, p);
      }
    }
  }

  /** The conditions that some text reads as are exactly those whose names can be written; and every
      text that is read means the same as the one printed form of its condition. */
  lemma ReadExactlyTheWritable(e: Expr)
    ensures (exists s :: Parse(s) == Some(e)) <==> Writable(e)
    ensures forall s :: Parse(s) == Some(e) ==> Parse(Print(e, Loose)) == Parse(s)
  {
    hide ReadOr, Print, Writable;
    forall s | Parse(s) == Some(e)
      ensures Writable(e)
    {
      OrWritable(s, 0);
    }
    if Writable(e) {
      PrintedIsRead(e);
    }
  }
}
