/** The scanner that lists a tag condition's keys without reading it (internal/bir/tagexpr.go), and
    why it agrees with the reader. */
module TagExprKeys {
  import opened Options
  import opened Texts
  import opened TagExprs
  import opened TagExprLaws

  // ---------------------------------------------------------------- keys of an expression

  /** The tag names an expression reads, in the order written. */
  function KeysOf(e: Expr): seq<string> {
    match e
    case Or(l, r) => KeysOf(l) + KeysOf(r)
    case And(l, r) => KeysOf(l) + KeysOf(r)
    case Not(x) => KeysOf(x)
    case Cmp(operand, _, _) => if operand.Container? then [] else [operand.name]
  }

  /** An operand's key, if the scanner lists it. */
  function Listed(operand: Operand): seq<string> {
    if operand.Container? || (operand.Bare? && IsWord(operand.name)) then [] else [operand.name]
  }

  /** Those of them the scanner lists: not a bare word spelled like an operator. */
  function ListedKeys(e: Expr): seq<string> {
    match e
    case Or(l, r) => ListedKeys(l) + ListedKeys(r)
    case And(l, r) => ListedKeys(l) + ListedKeys(r)
    case Not(x) => ListedKeys(x)
    case Cmp(operand, _, _) => Listed(operand)
  }

  predicate NoBareWord(e: Expr) {
    match e
    case Or(l, r) => NoBareWord(l) && NoBareWord(r)
    case And(l, r) => NoBareWord(l) && NoBareWord(r)
    case Not(x) => NoBareWord(x)
    case Cmp(operand, _, _) => operand.Bare? ==> !IsWord(operand.name)
  }

  function Add(out: seq<string>, key: string): seq<string> {
    if key in out then out else out + [key]
  }

  function AddAll(out: seq<string>, keys: seq<string>): seq<string>
    decreases |keys|
  {
    if keys == [] then out else AddAll(Add(out, keys[0]), keys[1..])
  }

  predicate Distinct(keys: seq<string>) {
    forall i, j :: 0 <= i < j < |keys| ==> keys[i] != keys[j]
  }

  lemma {:induction false} AddAllJoins(out: seq<string>, a: seq<string>, b: seq<string>)
    ensures AddAll(out, a + b) == AddAll(AddAll(out, a), b)
    decreases |a|
  {
    if a == [] {
      assert a + b == b;
    } else {
      assert (a + b)[1..] == a[1..] + b;
      AddAllJoins(Add(out, a[0]), a[1..], b);
    }
  }

  /** Collecting keys keeps each once, loses none, invents none, and only ever adds at the end. */
  lemma {:induction false} CollectsOnce(out: seq<string>, keys: seq<string>)
    requires Distinct(out)
    ensures var all := AddAll(out, keys);
      Distinct(all) && out <= all && forall k :: k in all <==> k in out || k in keys
    decreases |keys|
  {
    if keys != [] {
      CollectsOnce(Add(out, keys[0]), keys[1..]);
      assert forall k :: k in keys <==> k == keys[0] || k in keys[1..];
    }
  }

  // ---------------------------------------------------------------- the scanner

  /** What is listed from p on, after out. */
  function Scan(s: string, p: nat, out: seq<string>): seq<string>
    decreases |s| - p
  {
    if p >= |s| then out
    else if s[p] == '\'' then Scan(s, SkipTo(s, p + 1, '\'') + 1, out)
    else if s[p] == '"' then
      var q := SkipTo(s, p + 1, '"');
      Scan(s, q + 1, Add(out, s[p + 1..q]))
    else if s[p] == '@' then Scan(s, WordEnd(s, p + 1), out)
    else if Ident(s[p]) && (p == 0 || !Ident(s[p - 1])) then
      var q := WordEnd(s, p);
      var word := s[p..q];
      Scan(s, q, if IsWord(word) || ReadOp(s, Ws(s, q)).None? then out else Add(out, word))
    else Scan(s, p + 1, out)
  }

  /** One turn of the scanner's loop. */
  lemma ScanStep(s: string, p: nat, out: seq<string>)
    requires p < |s|
    ensures s[p] == '\'' ==> Scan(s, p, out) == Scan(s, SkipTo(s, p + 1, '\'') + 1, out)
    ensures s[p] == '"' ==>
      var q := SkipTo(s, p + 1, '"'); Scan(s, p, out) == Scan(s, q + 1, Add(out, s[p + 1..q]))
    ensures s[p] == '@' ==> Scan(s, p, out) == Scan(s, WordEnd(s, p + 1), out)
    ensures Ident(s[p]) && (p == 0 || !Ident(s[p - 1])) ==>
      var q := WordEnd(s, p);
      var word := s[p..q];
      Scan(s, p, out) == Scan(s, q, if IsWord(word) || ReadOp(s, Ws(s, q)).None? then out else Add(out, word))
    ensures s[p] !in {'\'', '"', '@'} && !(Ident(s[p]) && (p == 0 || !Ident(s[p - 1]))) ==>
      Scan(s, p, out) == Scan(s, p + 1, out)
  {
    hide IsWord, ReadOp, Ws;
  }

  lemma ScanEnd(s: string, p: nat, out: seq<string>)
    requires p >= |s|
    ensures Scan(s, p, out) == out
  {
  }

  method Find(s: string, p: nat, c: char) returns (q: nat)
    requires p <= |s|
    ensures q == SkipTo(s, p, c)
  {
    q := p;
    while q < |s| && s[q] != c
      invariant p <= q <= |s| && SkipTo(s, q, c) == SkipTo(s, p, c)
    {
      q := q + 1;
    }
  }

  method FindWordEnd(s: string, p: nat) returns (q: nat)
    requires p <= |s|
    ensures q == WordEnd(s, p)
  {
    q := p;
    while q < |s| && Ident(s[q])
      invariant p <= q <= |s| && WordEnd(s, q) == WordEnd(s, p)
    {
      q := q + 1;
    }
  }

  ghost predicate Remembers(seen: set<string>, out: seq<string>) {
    forall k :: k in seen <==> k in out
  }

  method ListKeys(s: string) returns (out: seq<string>)
    ensures out == Scan(s, 0, [])
  {
    hide Scan, IsWord, ReadOp, Ws, Ident, Remembers;
    var seen: set<string> := {};
    out := [];
    Remember(seen, out, "");
    var pos := 0;
    while pos < |s|
      invariant Scan(s, pos, out) == Scan(s, 0, [])
      invariant Remembers(seen, out)
      decreases |s| - pos
    {
      var c := s[pos];
      var start := pos + 1;
      ScanStep(s, pos, out);
      if c == '\'' {
        pos := Find(s, start, '\'');
        pos := pos + 1;
      } else if c == '"' {
        pos := Find(s, start, '"');
        var key := s[start..pos];
        pos := pos + 1;
        Remember(seen, out, key);
        if key !in seen {
          seen, out := seen + {key}, out + [key];
        }
      } else if c == '@' {
        pos := FindWordEnd(s, start);
      } else if Ident(c) && (pos == 0 || !Ident(s[pos - 1])) {
        start := pos;
        WordGoesOn(s, start);
        pos := FindWordEnd(s, start);
        var word := s[start..pos];
        Remember(seen, out, word);
        if !IsWord(word) && ReadOp(s, Ws(s, pos)).Some? && word !in seen {
          seen, out := seen + {word}, out + [word];
        }
      } else {
        pos := pos + 1;
      }
    }
    ScanEnd(s, pos, out);
  }

  lemma WordGoesOn(s: string, p: nat)
    requires p < |s| && Ident(s[p])
    ensures p < WordEnd(s, p)
  {
  }

  lemma Remember(seen: set<string>, out: seq<string>, key: string)
    ensures Remembers({}, [])
    ensures Remembers(seen, out) ==> Remembers(seen + {key}, out + [key]) && (key in seen <==> key in out)
  {
  }

  // ---------------------------------------------------------------- one scanner follows the other

  /** No word runs across p. */
  predicate Boundary(s: string, p: nat) {
    p <= |s| && (0 < p < |s| ==> !Ident(s[p - 1]) || !Ident(s[p]))
  }

  lemma {:induction false} ScanBlanks(s: string, p: nat, out: seq<string>)
    requires Boundary(s, p)
    ensures Scan(s, Ws(s, p), out) == Scan(s, p, out) && Boundary(s, Ws(s, p))
    decreases |s| - p
  {
    if p < |s| && Blank(s[p]) {
      ScanBlanks(s, p + 1, out);
    }
  }

  lemma ScanKeyword(s: string, p: nat, kw: string, out: seq<string>)
    requires Boundary(s, p) && kw in {"and", "or", "not"} && Keyword(s, p, kw).Some?
    ensures var end := Keyword(s, p, kw).value; Scan(s, end, out) == Scan(s, p, out) && Boundary(s, end)
  {
    hide Scan;
    ScanBlanks(s, p, out);
    KeywordIsWord(s, p, kw);
    hide Keyword, EqualFold, IsWord;
    ScanStep(s, Ws(s, p), out);
  }

  lemma KeywordIsWord(s: string, p: nat, kw: string)
    requires p <= |s| && kw in {"and", "or", "not"} && Keyword(s, p, kw).Some?
    ensures var q, end := Ws(s, p), Keyword(s, p, kw).value;
      && q < end <= |s| && Ident(s[q]) && s[q] !in {'\'', '"', '@'} && WordEnd(s, q) == end && IsWord(s[q..end])
      && (end < |s| ==> !Ident(s[end]))
  {
    var q := Ws(s, p);
    var end := q + |kw|;
    var w := s[q..end];
    forall i | q <= i < end
      ensures Ident(s[i])
    {
      assert s[i] == w[i - q] && Lower(w[i - q]) == Lower(kw[i - q]);
    }
    WordEndAt(s, q, end);
  }

  lemma ScanMark(s: string, p: nat, out: seq<string>)
    requires p < |s| && s[p] in {'(', ')', '<', '>', '='}
    ensures Scan(s, p, out) == Scan(s, p + 1, out) && Boundary(s, p + 1)
  {
  }

  lemma ScanOp(s: string, p: nat, out: seq<string>)
    requires ReadOp(s, p).Some?
    ensures var end := ReadOp(s, p).value.1; Scan(s, end, out) == Scan(s, p, out) && Boundary(s, end)
  {
    hide Scan, At;
    var (op, end) := ReadOp(s, p).value;
    var t := PrintOp(op);
    AtChar(s, p, t, 0);
    ScanMark(s, p, out);
    if |t| == 2 {
      AtChar(s, p, t, 1);
      ScanMark(s, p + 1, out);
    }
  }

  lemma {:induction false} ScanLiteral(s: string, p: nat, out: seq<string>)
    requires p <= |s| && ReadLiteral(s, p).Some?
    ensures var end := ReadLiteral(s, p).value.1;
      Scan(s, SkipTo(s, p, '\'') + 1, out) == Scan(s, end, out) && Boundary(s, end)
    decreases |s| - p
  {
    hide Scan;
    if s[p] != '\'' {
      ScanLiteral(s, p + 1, out);
    } else if p + 1 < |s| && s[p + 1] == '\'' {
      ScanQuote(s, p + 1, out);
      ScanLiteral(s, p + 2, out);
    }
  }

  lemma ScanOperand(s: string, p: nat, out: seq<string>)
    requires Boundary(s, p) && ReadOperand(s, p).Some?
    requires ReadOp(s, Ws(s, ReadOperand(s, p).value.1)).Some?
    ensures var (operand, end) := ReadOperand(s, p).value;
      Scan(s, p, out) == Scan(s, end, AddAll(out, Listed(operand))) && Boundary(s, end)
  {
    hide Scan, ReadOp, Ws, AddAll;
    var (operand, end) := ReadOperand(s, p).value;
    ListedAdds(out, operand);
    match operand
    case Container => ScanContainer(s, p, out);
    case Quoted(name) => ScanStep(s, p, out);
    case Bare(name) => ScanStep(s, p, out);
  }

  lemma ListedAdds(out: seq<string>, operand: Operand)
    ensures AddAll(out, Listed(operand)) == if Listed(operand) == [] then out else Add(out, operand.name)
  {
    var listed := Listed(operand);
    assert listed != [] ==> listed[1..] == [] && AddAll(out, listed) == AddAll(Add(out, operand.name), []);
  }

  lemma ScanContainer(s: string, p: nat, out: seq<string>)
    requires At(s, p, CONTAINER) && (p + |CONTAINER| < |s| ==> !Ident(s[p + |CONTAINER|]))
    ensures Scan(s, p, out) == Scan(s, p + |CONTAINER|, out)
  {
    AtChar(s, p, CONTAINER, 0);
    forall i | p + 1 <= i < p + |CONTAINER|
      ensures Ident(s[i])
    {
      AtChar(s, p, CONTAINER, i - p);
    }
    WordEndAt(s, p + 1, p + |CONTAINER|);
  }

  lemma ScanComparison(s: string, p: nat, out: seq<string>)
    requires Boundary(s, p) && ReadComparison(s, p).Some?
    ensures var (e, end) := ReadComparison(s, p).value;
      Scan(s, p, out) == Scan(s, end, AddAll(out, ListedKeys(e))) && Boundary(s, end)
  {
    hide Scan, ReadOperand, ReadOp, ReadLiteral, Ws;
    var (operand, afterOperand) := ReadOperand(s, Ws(s, p)).value;
    var (op, afterOp) := ReadOp(s, Ws(s, afterOperand)).value;
    var next := AddAll(out, Listed(operand));
    ScanBlanks(s, p, out);
    ScanOperand(s, Ws(s, p), out);
    ScanBlanks(s, afterOperand, next);
    ScanOp(s, Ws(s, afterOperand), next);
    ScanBlanks(s, afterOp, next);
    ScanQuote(s, Ws(s, afterOp), next);
    ScanLiteral(s, Ws(s, afterOp) + 1, next);
  }

  lemma ScanQuote(s: string, p: nat, out: seq<string>)
    requires p < |s| && s[p] == '\''
    ensures Scan(s, p, out) == Scan(s, SkipTo(s, p + 1, '\'') + 1, out)
  {
  }

  /** What a reader takes, the scanner passes over, listing the keys of what was read. */
  ghost predicate Follows(s: string, p: nat, r: Option<(Expr, nat)>, out: seq<string>) {
    r.Some? ==> Boundary(s, r.value.1) && Scan(s, p, out) == Scan(s, r.value.1, AddAll(out, ListedKeys(r.value.0)))
  }

  lemma {:induction false} ScanOr(s: string, p: nat, out: seq<string>)
    requires Boundary(s, p)
    ensures Follows(s, p, ReadOr(s, p), out)
    decreases |s| - p, 3
  {
    hide Scan, ReadAnd, OrTail, AddAll, ListedKeys;
    ScanAnd(s, p, out);
    var left := ReadAnd(s, p);
    if left.Some? {
      ScanOrTail(s, p, left.value.0, left.value.1, out);
    }
  }

  /** The tail of a chain, when the scanner has passed over its beginning. */
  lemma {:induction false} ScanOrTail(s: string, start: nat, left: Expr, p: nat, out: seq<string>)
    requires Boundary(s, p) && Scan(s, start, out) == Scan(s, p, AddAll(out, ListedKeys(left)))
    ensures Follows(s, start, OrTail(s, left, p), out)
    decreases |s| - p, 0
  {
    hide Scan, ReadAnd, AddAll, Keyword;
    var next := AddAll(out, ListedKeys(left));
    var end := Keyword(s, p, "or");
    if end.None? {
      ScanBlanks(s, p, next);
    } else {
      ScanKeyword(s, p, "or", next);
      ScanAnd(s, end.value, next);
      var right := ReadAnd(s, end.value);
      if right.Some? {
        AddAllJoins(out, ListedKeys(left), ListedKeys(right.value.0));
        ScanOrTail(s, start, Or(left, right.value.0), right.value.1, out);
      }
    }
  }

  lemma {:induction false} ScanAnd(s: string, p: nat, out: seq<string>)
    requires Boundary(s, p)
    ensures Follows(s, p, ReadAnd(s, p), out)
    decreases |s| - p, 2
  {
    hide Scan, ReadUnary, AndTail, AddAll, ListedKeys;
    ScanUnary(s, p, out);
    var left := ReadUnary(s, p);
    if left.Some? {
      ScanAndTail(s, p, left.value.0, left.value.1, out);
    }
  }

  lemma {:induction false} ScanAndTail(s: string, start: nat, left: Expr, p: nat, out: seq<string>)
    requires Boundary(s, p) && Scan(s, start, out) == Scan(s, p, AddAll(out, ListedKeys(left)))
    ensures Follows(s, start, AndTail(s, left, p), out)
    decreases |s| - p, 0
  {
    hide Scan, ReadUnary, AddAll, Keyword;
    var next := AddAll(out, ListedKeys(left));
    var end := Keyword(s, p, "and");
    if end.None? {
      ScanBlanks(s, p, next);
    } else {
      ScanKeyword(s, p, "and", next);
      ScanUnary(s, end.value, next);
      var right := ReadUnary(s, end.value);
      if right.Some? {
        AddAllJoins(out, ListedKeys(left), ListedKeys(right.value.0));
        ScanAndTail(s, start, And(left, right.value.0), right.value.1, out);
      }
    }
  }

  lemma {:induction false} ScanUnary(s: string, p: nat, out: seq<string>)
    requires Boundary(s, p)
    ensures Follows(s, p, ReadUnary(s, p), out)
    decreases |s| - p, 1
  {
    hide Scan, ReadOr, ReadComparison, AddAll, Keyword;
    var end := Keyword(s, p, "not");
    if end.Some? {
      ScanKeyword(s, p, "not", out);
      ScanUnary(s, end.value, out);
    } else {
      var q := Ws(s, p);
      ScanBlanks(s, p, out);
      if q < |s| && s[q] == '(' {
        ScanMark(s, q, out);
        ScanOr(s, q + 1, out);
        var inner := ReadOr(s, q + 1);
        if inner.Some? {
          var next := AddAll(out, ListedKeys(inner.value.0));
          ScanBlanks(s, inner.value.1, next);
          var close := Ws(s, inner.value.1);
          if close < |s| && s[close] == ')' {
            ScanMark(s, close, next);
          }
        }
      } else if ReadComparison(s, q).Some? {
        ScanComparison(s, q, out);
      }
    }
  }

  // ---------------------------------------------------------------- two scanners agree

  /** For every condition the reader accepts, the scanner answers the distinct keys of what was read,
      in the order first written, but for bare words spelled like an operator. */
  lemma TwoScannersAgree(s: string)
    requires Parse(s).Some?
    ensures Scan(s, 0, []) == AddAll([], ListedKeys(Parse(s).value))
    ensures NoBareWord(Parse(s).value) ==> Scan(s, 0, []) == AddAll([], KeysOf(Parse(s).value))
    ensures Distinct(Scan(s, 0, []))
  {
    hide Scan, ReadOr, AddAll;
    ScanOr(s, 0, []);
    var (e, p) := ReadOr(s, 0).value;
    var keys := AddAll([], ListedKeys(e));
    ScanBlanks(s, p, keys);
    ScanEnd(s, |s|, keys);
    if NoBareWord(e) {
      AllAreListed(e);
    }
    CollectsOnce([], ListedKeys(e));
  }

  lemma {:induction false} AllAreListed(e: Expr)
    requires NoBareWord(e)
    ensures ListedKeys(e) == KeysOf(e)
  {
    match e
    case Or(l, r) =>
      AllAreListed(l);
      AllAreListed(r);
    case And(l, r) =>
      AllAreListed(l);
      AllAreListed(r);
    case Not(x) => AllAreListed(x);
    case Cmp(_, _, _) =>
  }

  /** The names written between double quotes. */
  function QuotedKeys(e: Expr): set<string> {
    match e
    case Or(l, r) => QuotedKeys(l) + QuotedKeys(r)
    case And(l, r) => QuotedKeys(l) + QuotedKeys(r)
    case Not(x) => QuotedKeys(x)
    case Cmp(operand, _, _) => if operand.Quoted? then {operand.name} else {}
  }

  lemma {:induction false} ListedExactly(e: Expr, k: string)
    ensures k in ListedKeys(e) <==> k in KeysOf(e) && (IsWord(k) ==> k in QuotedKeys(e))
    ensures k in QuotedKeys(e) ==> k in KeysOf(e)
  {
    match e
    case Or(l, r) =>
      ListedExactly(l, k);
      ListedExactly(r, k);
    case And(l, r) =>
      ListedExactly(l, k);
      ListedExactly(r, k);
    case Not(x) => ListedExactly(x, k);
    case Cmp(_, _, _) =>
  }

  /** The scanner finds every tag a condition reads exactly when every one spelled like an operator
      is also written between double quotes. */
  lemma EveryKeyIsListedExactly(s: string)
    requires Parse(s).Some?
    ensures var e := Parse(s).value;
      (forall k :: k in KeysOf(e) ==> k in Scan(s, 0, [])) <==>
      (forall k :: k in KeysOf(e) && IsWord(k) ==> k in QuotedKeys(e))
  {
    hide Scan, Parse, IsWord;
    var e := Parse(s).value;
    TwoScannersAgree(s);
    CollectsOnce([], ListedKeys(e));
    forall k
      ensures k in Scan(s, 0, []) <==> k in KeysOf(e) && (IsWord(k) ==> k in QuotedKeys(e))
    {
      ListedExactly(e, k);
    }
  }

  /** A tag named by the bare word `or` is read but not listed. */
  lemma BareOrIsMissed()
    ensures Parse("or='x'") == Some(Cmp(Bare("or"), Eq, "x"))
    ensures Scan("or='x'", 0, []) == []
  {
    var e := Cmp(Bare("or"), Eq, "x");
    assert PrintLiteral("x") == "x" + PrintLiteral("");
    assert Print(e, Loose) == "or='x'";
    PrintedIsRead(e);
    TwoScannersAgree("or='x'");
  }

  // ---------------------------------------------------------------- the listed tags decide

  predicate AgreeOn(keys: seq<string>, a: Tags, b: Tags) {
    forall k :: k in keys ==> (k in a <==> k in b) && (k in a ==> a[k] == b[k])
  }

  lemma {:induction false} KeysDecide(e: Expr, a: Tags, b: Tags, container: string)
    requires AgreeOn(KeysOf(e), a, b)
    ensures Eval(e, a, container) == Eval(e, b, container)
  {
    match e
    case Or(l, r) =>
      assert AgreeOn(KeysOf(l), a, b) && AgreeOn(KeysOf(r), a, b);
      KeysDecide(l, a, b, container);
      KeysDecide(r, a, b, container);
    case And(l, r) =>
      assert AgreeOn(KeysOf(l), a, b) && AgreeOn(KeysOf(r), a, b);
      KeysDecide(l, a, b, container);
      KeysDecide(r, a, b, container);
    case Not(x) => KeysDecide(x, a, b, container);
    case Cmp(operand, _, _) =>
      if !operand.Container? {
        assert operand.name in KeysOf(e);
      }
  }

  /** Answering only the listed tags keeps every condition's meaning. */
  lemma ListedTagsDecide(s: string, a: Tags, b: Tags, container: string)
    requires Parse(s).Some? && AgreeOn(Scan(s, 0, []), a, b)
    requires forall k :: k in KeysOf(Parse(s).value) && IsWord(k) ==> k in QuotedKeys(Parse(s).value)
    ensures Eval(Parse(s).value, a, container) == Eval(Parse(s).value, b, container)
  {
    hide Scan, Parse, IsWord, Eval;
    EveryKeyIsListedExactly(s);
    KeysDecide(Parse(s).value, a, b, container);
  }

  // ---------------------------------------------------------------- missing tags and order

  /** A missing tag fails all six comparisons; a present one passes exactly one of <, = and >, and the
      other three deny one each. */
  lemma ComparisonsOfOneTag(operand: Operand, value: string, tags: Tags, container: string)
    ensures var holds := (op: Op) => Eval(Cmp(operand, op, value), tags, container);
      if Have(operand, tags, container).None? then forall op :: !holds(op)
      else
        && (if holds(Lt) then 1 else 0) + (if holds(Eq) then 1 else 0) + (if holds(Gt) then 1 else 0) == 1
        && holds(Ge) == !holds(Lt) && holds(Le) == !holds(Gt) && holds(Ne) == !holds(Eq)
  {
    var have := Have(operand, tags, container);
    if have.Some? {
      Trichotomy(have.value, value);
    }
  }
}
