/** Tag conditions: comparisons of tags against literals under and, or, not and parentheses, read by
    recursive descent (internal/bir/tagexpr.go). A character stands for a byte. */
module TagExprs {
  import opened Options
  import opened Texts

  /** What a comparison reads: a tag named by a bare word or between double quotes, or the container. */
  datatype Operand = Bare(name: string) | Quoted(name: string) | Container

  datatype Op = Eq | Ne | Gt | Ge | Lt | Le

  datatype Expr =
    | Or(left: Expr, right: Expr)
    | And(left: Expr, right: Expr)
    | Not(inner: Expr)
    | Cmp(operand: Operand, op: Op, value: string)

  // ---------------------------------------------------------------- evaluation

  /** A tag's text; a tag present without a value is as good as absent. */
  type Tags = map<string, Option<string>>

  predicate Compare(op: Op, have: string, value: string) {
    match op
    case Eq => have == value
    case Ne => have != value
    case Gt => Less(value, have)
    case Ge => !Less(have, value)
    case Lt => Less(have, value)
    case Le => !Less(value, have)
  }

  function Have(operand: Operand, tags: Tags, container: string): Option<string> {
    if operand.Container? then Some(container)
    else if operand.name in tags then tags[operand.name] else None
  }

  predicate Eval(e: Expr, tags: Tags, container: string) {
    match e
    case Or(l, r) => Eval(l, tags, container) || Eval(r, tags, container)
    case And(l, r) => Eval(l, tags, container) && Eval(r, tags, container)
    case Not(x) => !Eval(x, tags, container)
    case Cmp(operand, op, value) =>
      var have := Have(operand, tags, container);
      have.Some? && Compare(op, have.value, value)
  }

  // ---------------------------------------------------------------- reading

  predicate Blank(c: char) {
    c == ' ' || c == '\t'
  }

  predicate Ident(c: char) {
    'a' <= c <= 'z' || 'A' <= c <= 'Z' || '0' <= c <= '9' || c == '_'
  }

  predicate IsWord(w: string) {
    EqualFold(w, "and") || EqualFold(w, "or") || EqualFold(w, "not")
  }

  function Ws(s: string, p: nat): (q: nat)
    requires p <= |s|
    ensures p <= q <= |s|
    ensures q < |s| ==> !Blank(s[q])
    decreases |s| - p
  {
    if p < |s| && Blank(s[p]) then Ws(s, p + 1) else p
  }

  /** A keyword after blanks, whole as a word: where it ends. */
  function Keyword(s: string, p: nat, kw: string): (end: Option<nat>)
    requires p <= |s| && kw != ""
    ensures end.Some? ==> p < end.value <= |s|
  {
    var q := Ws(s, p);
    var end := q + |kw|;
    if end > |s| || !EqualFold(s[q..end], kw) || (end < |s| && Ident(s[end])) then None else Some(end)
  }

  function WordEnd(s: string, p: nat): (q: nat)
    requires p <= |s|
    ensures p <= q <= |s|
    ensures q < |s| ==> !Ident(s[q])
    ensures forall i :: p <= i < q ==> Ident(s[i])
    decreases |s| - p
  {
    if p < |s| && Ident(s[p]) then WordEnd(s, p + 1) else p
  }

  const CONTAINER := "@container"

  function ReadOperand(s: string, p: nat): (r: Option<(Operand, nat)>)
    requires p <= |s|
    ensures r.Some? ==> p < r.value.1 <= |s|
  {
    if p < |s| && s[p] == '"' then
      var q := SkipTo(s, p + 1, '"');
      if q >= |s| then None else Some((Quoted(s[p + 1..q]), q + 1))
    else if p < |s| && s[p] == '@' then
      var q := p + |CONTAINER|;
      if !At(s, p, CONTAINER) || (q < |s| && Ident(s[q])) then None else Some((Container, q))
    else
      var q := WordEnd(s, p);
      if q == p then None else Some((Bare(s[p..q]), q))
  }

  /** The operators, two characters before one so that <> and <= win over <. */
  function ReadOp(s: string, p: nat): (r: Option<(Op, nat)>)
    ensures r.Some? ==> p < r.value.1 <= |s|
  {
    if At(s, p, "<>") then Some((Ne, p + 2))
    else if At(s, p, ">=") then Some((Ge, p + 2))
    else if At(s, p, "<=") then Some((Le, p + 2))
    else if At(s, p, "=") then Some((Eq, p + 1))
    else if At(s, p, ">") then Some((Gt, p + 1))
    else if At(s, p, "<") then Some((Lt, p + 1))
    else None
  }

  /** The rest of a literal after its opening quote, two quotes standing for one. */
  function ReadLiteral(s: string, p: nat): (r: Option<(string, nat)>)
    requires p <= |s|
    ensures r.Some? ==> p < r.value.1 <= |s|
    decreases |s| - p
  {
    if p >= |s| then None
    else if s[p] == '\'' && p + 1 < |s| && s[p + 1] == '\'' then
      var rest := ReadLiteral(s, p + 2);
      if rest.None? then None else Some((['\''] + rest.value.0, rest.value.1))
    else if s[p] == '\'' then Some(("", p + 1))
    else
      var rest := ReadLiteral(s, p + 1);
      if rest.None? then None else Some(([s[p]] + rest.value.0, rest.value.1))
  }

  function ReadComparison(s: string, p: nat): (r: Option<(Expr, nat)>)
    requires p <= |s|
    ensures r.Some? ==> p < r.value.1 <= |s|
  {
    var operand := ReadOperand(s, Ws(s, p));
    if operand.None? then None
    else
      var op := ReadOp(s, Ws(s, operand.value.1));
      if op.None? then None
      else
        var q := Ws(s, op.value.1);
        if q >= |s| || s[q] != '\'' then None
        else
          var literal := ReadLiteral(s, q + 1);
          if literal.None? then None
          else Some((Cmp(operand.value.0, op.value.0, literal.value.0), literal.value.1))
  }

  function ReadOr(s: string, p: nat): (r: Option<(Expr, nat)>)
    requires p <= |s|
    ensures r.Some? ==> p < r.value.1 <= |s|
    decreases |s| - p, 3
  {
    var left := ReadAnd(s, p);
    if left.None? then None else OrTail(s, left.value.0, left.value.1)
  }

  /** As many `or` and operand more as follow, taken to the left. */
  function OrTail(s: string, left: Expr, p: nat): (r: Option<(Expr, nat)>)
    requires p <= |s|
    ensures r.Some? ==> p <= r.value.1 <= |s|
    decreases |s| - p, 0
  {
    var end := Keyword(s, p, "or");
    if end.None? then Some((left, Ws(s, p)))
    else
      var right := ReadAnd(s, end.value);
      if right.None? then None else OrTail(s, Or(left, right.value.0), right.value.1)
  }

  function ReadAnd(s: string, p: nat): (r: Option<(Expr, nat)>)
    requires p <= |s|
    ensures r.Some? ==> p < r.value.1 <= |s|
    decreases |s| - p, 2
  {
    var left := ReadUnary(s, p);
    if left.None? then None else AndTail(s, left.value.0, left.value.1)
  }

  function AndTail(s: string, left: Expr, p: nat): (r: Option<(Expr, nat)>)
    requires p <= |s|
    ensures r.Some? ==> p <= r.value.1 <= |s|
    decreases |s| - p, 0
  {
    var end := Keyword(s, p, "and");
    if end.None? then Some((left, Ws(s, p)))
    else
      var right := ReadUnary(s, end.value);
      if right.None? then None else AndTail(s, And(left, right.value.0), right.value.1)
  }

  function ReadUnary(s: string, p: nat): (r: Option<(Expr, nat)>)
    requires p <= |s|
    ensures r.Some? ==> p < r.value.1 <= |s|
    decreases |s| - p, 1
  {
    var end := Keyword(s, p, "not");
    if end.Some? then
      var inner := ReadUnary(s, end.value);
      if inner.None? then None else Some((Not(inner.value.0), inner.value.1))
    else
      var q := Ws(s, p);
      if q < |s| && s[q] == '(' then
        var inner := ReadOr(s, q + 1);
        if inner.None? then None
        else
          var close := Ws(s, inner.value.1);
          if close >= |s| || s[close] != ')' then None else Some((inner.value.0, close + 1))
      else ReadComparison(s, q)
  }

  /** The whole of an expression, with nothing after it. */
  function Parse(s: string): Option<Expr> {
    var r := ReadOr(s, 0);
    if r.None? || Ws(s, r.value.1) != |s| then None else Some(r.value.0)
  }

  class TagExprParser {
    const s: string
    var pos: nat

    constructor (s: string)
      ensures this.s == s && pos == 0
    {
      this.s, pos := s, 0;
    }

    method SkipWs()
      requires pos <= |s|
      modifies this
      ensures pos == Ws(s, old(pos))
    {
      while pos < |s| && (s[pos] == ' ' || s[pos] == '\t')
        invariant pos <= |s| && Ws(s, pos) == Ws(s, old(pos))
      {
        pos := pos + 1;
      }
    }

    method TakeKeyword(kw: string) returns (found: bool)
      requires pos <= |s| && kw != ""
      modifies this
      ensures var end := Keyword(s, old(pos), kw);
        found == end.Some? && pos == if found then end.value else Ws(s, old(pos))
    {
      SkipWs();
      if |s| - pos < |kw| || !EqualFold(s[pos..pos + |kw|], kw) {
        return false;
      }
      var end := pos + |kw|;
      if end < |s| && Ident(s[end]) {
        return false;
      }
      pos := end;
      found := true;
    }

    method ParseOr() returns (e: Option<Expr>)
      requires pos <= |s|
      modifies this
      ensures match ReadOr(s, old(pos)) case None => e.None? case Some(r) => e == Some(r.0) && pos == r.1
      decreases |s| - pos, 3
    {
      e := ParseAnd();
      if e.None? {
        return;
      }
      ghost var start := ReadAnd(s, old(pos)).value.1;
      while true
        invariant e.Some? && start <= pos <= |s| && old(pos) < start
        invariant OrTail(s, e.value, pos) == ReadOr(s, old(pos))
        decreases |s| - pos
      {
        ghost var before := pos;
        var more := TakeKeyword("or");
        if !more {
          return;
        }
        var right := ParseAnd();
        if right.None? {
          return None;
        }
        e := Some(Or(e.value, right.value));
      }
    }

    method ParseAnd() returns (e: Option<Expr>)
      requires pos <= |s|
      modifies this
      ensures match ReadAnd(s, old(pos)) case None => e.None? case Some(r) => e == Some(r.0) && pos == r.1
      decreases |s| - pos, 2
    {
      e := ParseUnary();
      if e.None? {
        return;
      }
      ghost var start := ReadUnary(s, old(pos)).value.1;
      while true
        invariant e.Some? && start <= pos <= |s| && old(pos) < start
        invariant AndTail(s, e.value, pos) == ReadAnd(s, old(pos))
        decreases |s| - pos
      {
        var more := TakeKeyword("and");
        if !more {
          return;
        }
        var right := ParseUnary();
        if right.None? {
          return None;
        }
        e := Some(And(e.value, right.value));
      }
    }

    method ParseUnary() returns (e: Option<Expr>)
      requires pos <= |s|
      modifies this
      ensures match ReadUnary(s, old(pos)) case None => e.None? case Some(r) => e == Some(r.0) && pos == r.1
      decreases |s| - pos, 1
    {
      var negated := TakeKeyword("not");
      if negated {
        var inner := ParseUnary();
        return if inner.None? then None else Some(Not(inner.value));
      }
      SkipWs();
      WsTwice(s, old(pos));
      if pos < |s| && s[pos] == '(' {
        pos := pos + 1;
        e := ParseOr();
        if e.None? {
          return;
        }
        SkipWs();
        if pos >= |s| || s[pos] != ')' {
          return None;
        }
        pos := pos + 1;
        return;
      }
      e := ParseComparison();
    }

    method ParseComparison() returns (e: Option<Expr>)
      requires pos <= |s|
      modifies this
      ensures match ReadComparison(s, old(pos)) case None => e.None? case Some(r) => e == Some(r.0) && pos == r.1
    {
      SkipWs();
      var operand := ReadOperand(s, pos);
      if operand.None? {
        return None;
      }
      pos := operand.value.1;
      SkipWs();
      var op := ReadOp(s, pos);
      if op.None? {
        return None;
      }
      pos := op.value.1;
      SkipWs();
      if pos >= |s| || s[pos] != '\'' {
        return None;
      }
      pos := pos + 1;
      var literal := ParseLiteral();
      if literal.None? {
        return None;
      }
      e := Some(Cmp(operand.value.0, op.value.0, literal.value));
    }

    /** The rest of a literal, its opening quote taken. */
    method ParseLiteral() returns (literal: Option<string>)
      requires pos <= |s|
      modifies this
      ensures match ReadLiteral(s, old(pos))
        case None => literal.None?
        case Some(r) => literal == Some(r.0) && pos == r.1
    {
      var text := "";
      ghost var all := ReadLiteral(s, pos);
      assert all.Some? ==> "" + all.value.0 == all.value.0;
      while pos < |s|
        invariant old(pos) <= pos <= |s|
        invariant Completes(text, ReadLiteral(s, pos), all)
        decreases |s| - pos
      {
        var c := s[pos];
        if c == '\'' {
          if pos + 1 < |s| && s[pos + 1] == '\'' {
            LiteralStep(s, pos, text, '\'', pos + 2, all);
            text := text + ['\''];
            pos := pos + 2;
            continue;
          }
          assert text + "" == text;
          pos := pos + 1;
          return Some(text);
        }
        LiteralStep(s, pos, text, c, pos + 1, all);
        text := text + [c];
        pos := pos + 1;
      }
      literal := None;
    }
  }

  /** What was read so far and what is read from here make up the whole. */
  ghost predicate Completes(text: string, rest: Option<(string, nat)>, all: Option<(string, nat)>) {
    if rest.None? then all.None? else all == Some((text + rest.value.0, rest.value.1))
  }

  lemma LiteralStep(s: string, p: nat, text: string, c: char, q: nat, all: Option<(string, nat)>)
    requires p < q <= |s| && Completes(text, ReadLiteral(s, p), all)
    requires var rest := ReadLiteral(s, q);
      ReadLiteral(s, p) == if rest.None? then None else Some(([c] + rest.value.0, rest.value.1))
    ensures Completes(text + [c], ReadLiteral(s, q), all)
  {
    var rest := ReadLiteral(s, q);
    if rest.Some? {
      assert text + ([c] + rest.value.0) == text + [c] + rest.value.0;
    }
  }

  lemma WsTwice(s: string, p: nat)
    requires p <= |s|
    ensures Ws(s, Ws(s, p)) == Ws(s, p)
  {
  }

  method ParseTagExpr(s: string) returns (e: Option<Expr>)
    ensures e == Parse(s)
  {
    var p := new TagExprParser(s);
    e := p.ParseOr();
    if e.Some? {
      p.SkipWs();
      if p.pos != |s| {
        e := None;
      }
    }
  }
}
