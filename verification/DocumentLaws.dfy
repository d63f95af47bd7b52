/** Values and arguments of a document read back, whatever their shape
    (internal/proto/graphql/scan.go). */
module DocumentLaws {
  import opened Options
  import opened Decimals
  import opened Texts
  import opened Literals
  import opened LiteralLaws
  import opened Documents

  // ---------------------------------------------------------------- written values

  /** How a value is written; a word is a boolean, null or an enum's name. */
  datatype Literal =
    | Var(name: string)
    | Whole(n: int)
    | Quoted(pieces: seq<Piece>)
    | Word(word: string)
    | Items(items: seq<Literal>)
    | Fields(members: seq<Member>)

  datatype Member = Member(name: string, value: Literal)

  predicate NameText(s: string) {
    s != "" && NameByte(s[0], true) && forall i :: 0 <= i < |s| ==> NameByte(s[i], false)
  }

  predicate Fits(l: Literal) {
    match l
    case Var(name) => NameText(name)
    case Whole(n) => MIN_INT64 <= n <= MAX_INT64
    case Quoted(pieces) => PiecesFit(pieces)
    case Word(word) => NameText(word)
    case Items(items) => forall i :: 0 <= i < |items| ==> Fits(items[i])
    case Fields(members) => forall i :: 0 <= i < |members| ==> NameText(members[i].name) && Fits(members[i].value)
  }

  predicate MembersFit(members: seq<Member>) {
    forall i :: 0 <= i < |members| ==> NameText(members[i].name) && Fits(members[i].value)
  }

  predicate ItemsFit(items: seq<Literal>) {
    forall i :: 0 <= i < |items| ==> Fits(items[i])
  }

  function Print(l: Literal): string
    requires Fits(l)
    decreases l, 0
  {
    match l
    case Var(name) => "$" + name
    case Whole(n) => Itoa(n)
    case Quoted(pieces) => "\"" + PrintPieces(pieces)
    case Word(word) => word
    case Items(items) => "[" + PrintItems(items)
    case Fields(members) => "{" + PrintMembers(members, "}")
  }

  /** Items, each before a comma, and the closing bracket. */
  function PrintItems(items: seq<Literal>): string
    requires ItemsFit(items)
    decreases items, 1
  {
    if items == [] then "]" else Print(items[0]) + ("," + PrintItems(items[1..]))
  }

  function PrintMember(m: Member): string
    requires NameText(m.name) && Fits(m.value)
    decreases m, 1
  {
    m.name + (":" + Print(m.value))
  }

  function PrintMembers(members: seq<Member>, close: string): string
    requires MembersFit(members)
    decreases members, 1
  {
    if members == [] then close else PrintMember(members[0]) + ("," + PrintMembers(members[1..], close))
  }

  function Meaning(l: Literal): Value
    requires Fits(l)
    decreases l, 0
  {
    match l
    case Var(name) => Variable(name)
    case Whole(n) => Int64(n)
    case Quoted(pieces) => Str(PiecesMeaning(pieces))
    case Word(word) => WordOf(word)
    case Items(items) => List(ItemsMeaning(items))
    case Fields(members) => Object(MembersMeaning(map[], members))
  }

  function ItemsMeaning(items: seq<Literal>): seq<Value>
    requires ItemsFit(items)
    decreases items, 1
  {
    if items == [] then [] else [Meaning(items[0])] + ItemsMeaning(items[1..])
  }

  /** Members in order, a later one in the place of an earlier one of its name. */
  function MembersMeaning(read: map<string, Value>, members: seq<Member>): map<string, Value>
    requires MembersFit(members)
    decreases members, 1
  {
    if members == [] then read
    else MembersMeaning(read[members[0].name := Meaning(members[0].value)], members[1..])
  }

  function Max(a: nat, b: nat): nat {
    if a < b then b else a
  }

  /** How many lists and objects a value stands inside of, at its deepest. */
  function Height(l: Literal): nat
    decreases l, 0
  {
    match l
    case Items(items) => ItemsHeight(items)
    case Fields(members) => MembersHeight(members)
    case _ => 0
  }

  function ItemsHeight(items: seq<Literal>): nat
    decreases items, 1
  {
    if items == [] then 0 else Max(1 + Height(items[0]), ItemsHeight(items[1..]))
  }

  function MembersHeight(members: seq<Member>): nat
    decreases members, 1
  {
    if members == [] then 0 else Max(1 + Height(members[0].value), MembersHeight(members[1..]))
  }

  // ---------------------------------------------------------------- names and ignored tokens in place

  lemma SkipStays(s: string, p: nat)
    requires p < |s| && !Ignored(s[p]) && s[p] != '#'
    ensures Skip(s, p) == p
  {
  }

  lemma {:induction false} NameRestAt(s: string, p: nat, q: nat)
    requires p <= q <= |s| && (forall i :: p <= i < q ==> NameByte(s[i], false)) && (q < |s| ==> !NameByte(s[q], false))
    ensures NameRest(s, p) == q
    decreases q - p
  {
    if p < q {
      NameRestAt(s, p + 1, q);
    }
  }

  /** A name in place, and nothing that lengthens it after it. */
  lemma NameReads(s: string, p: nat, name: string)
    requires NameText(name) && At(s, p, name) && (p + |name| < |s| ==> !NameByte(s[p + |name|], false))
    ensures NameEnd(s, p) == p + |name| && s[p..p + |name|] == name
    ensures p < |s| && Skip(s, p) == p && NameByte(s[p], true)
  {
    forall i | p <= i < p + |name|
      ensures NameByte(s[i], false)
    {
      AtChar(s, p, name, i - p);
    }
    AtChar(s, p, name, 0);
    NameRestAt(s, p + 1, p + |name|);
  }

  /** A comma is as good as nothing. */
  lemma CommaSkipped(s: string, p: nat)
    requires At(s, p, ",")
    ensures p < |s| && s[p] == ',' && Skip(s, p) == Skip(s, p + 1)
  {
    AtChar(s, p, ",", 0);
  }

  // ---------------------------------------------------------------- values round trip

  /** A value stands at p with a comma after it. */
  ghost predicate Placed(s: string, p: nat, l: Literal) {
    Fits(l) && At(s, p, Print(l) + ",")
  }

  /** What reading a value at some depth answers: the value, unless it goes too deep. */
  function Answer(l: Literal, depth: nat, end: nat): Option<(Value, nat)>
    requires Fits(l)
  {
    if depth + Height(l) <= MAX_DEPTH then Some((Meaning(l), end)) else None
  }

  lemma QuotedParts(s: string, p: nat, t: string)
    requires At(s, p, "\"" + t + ",")
    ensures p < |s| && s[p] == '"' && At(s, p + 1, t) && At(s, p + 1 + |t|, ",")
  {
    AtSplit(s, p, "\"" + t, ",");
    AtSplit(s, p, "\"", t);
    AtChar(s, p, "\"", 0);
  }

  lemma QuotedReads(lib: Library, s: string, p: nat, pieces: seq<Piece>)
    requires PiecesFit(pieces) && At(s, p, "\"" + PrintPieces(pieces) + ",")
    ensures p < |s| && s[p] == '"'
    ensures ReadString(lib, s, p) == Some((Str(PiecesMeaning(pieces)), p + 1 + |PrintPieces(pieces)|))
  {
    hide ReadQuoted, ReadBlock, PrintPieces, PiecesMeaning, PiecesFit, At;
    QuotedParts(s, p, PrintPieces(pieces));
    StringReads(s, p + 1, pieces);
    NoTriple(s, p, pieces, ",");
  }

  /** A string before anything but another quote does not open as a block string. */
  lemma NoTriple(s: string, p: nat, pieces: seq<Piece>, after: string)
    requires PiecesFit(pieces) && At(s, p + 1, PrintPieces(pieces)) && At(s, p + 1 + |PrintPieces(pieces)|, after)
    requires after != "" && after[0] != '"'
    ensures !At(s, p, TRIPLE)
  {
    var t := PrintPieces(pieces);
    AtChar(s, p + 1, t, 0);
    if pieces == [] {
      AtChar(s, p + 2, after, 0);
    } else {
      assert t[0] == PrintPiece(pieces[0])[0] != '"';
    }
    if At(s, p, TRIPLE) {
      AtChar(s, p, TRIPLE, 1);
      AtChar(s, p, TRIPLE, 2);
      assert false;
    }
  }

  /** A value's first character is neither ignored nor a comment's. */
  lemma ValueStarts(s: string, p: nat, l: Literal)
    requires Placed(s, p, l)
    ensures p < |s| && Skip(s, p) == p
  {
    var t := Print(l);
    AtSplit(s, p, t, ",");
    match l
    case Whole(n) =>
      assert IsDigit(t[0]) || t[0] == '-';
      AtChar(s, p, t, 0);
    case Word(word) =>
      assert t[0] == word[0];
      AtChar(s, p, t, 0);
    case _ =>
      AtChar(s, p, t, 0);
  }

  lemma NamedParts(s: string, p: nat, mark: string, name: string)
    requires NameText(name) && At(s, p, mark + name + ",")
    ensures var start := p + |mark|; var end := start + |name|;
      && p <= start < end < |s| && NameEnd(s, start) == end && s[start..end] == name && NameByte(s[start], true)
      && Skip(s, start) == start && At(s, p, mark)
  {
    hide NameText, At, Skip, NameEnd;
    AtSplit(s, p, mark + name, ",");
    AtSplit(s, p, mark, name);
    AtChar(s, p + |mark| + |name|, ",", 0);
    NameReads(s, p + |mark|, name);
  }

  lemma VariableReads(lib: Library, s: string, p: nat, name: string, depth: nat)
    requires NameText(name) && At(s, p, "$" + name + ",") && depth <= MAX_DEPTH
    ensures ReadValue(lib, s, p, depth) == Some((Variable(name), p + 1 + |name|))
  {
    hide ReadString, ReadNumber, NameEnd, ReadItems, ReadFields;
    NamedParts(s, p, "$", name);
    AtChar(s, p, "$", 0);
    SkipStays(s, p);
    hide Skip;
  }

  lemma WordReads(lib: Library, s: string, p: nat, word: string, depth: nat)
    requires NameText(word) && At(s, p, word + ",") && depth <= MAX_DEPTH
    ensures ReadValue(lib, s, p, depth) == Some((WordOf(word), p + |word|))
  {
    hide ReadString, ReadNumber, NameEnd, ReadItems, ReadFields, Skip, WordOf;
    assert "" + word + "," == word + ",";
    NamedParts(s, p, "", word);
  }

  lemma WholeReads(lib: Library, s: string, p: nat, n: int, depth: nat)
    requires MIN_INT64 <= n <= MAX_INT64 && At(s, p, Itoa(n) + ",") && depth <= MAX_DEPTH
    ensures ReadValue(lib, s, p, depth) == Some((Int64(n), p + |Itoa(n)|))
  {
    hide ReadString, ReadNumber, NameEnd, ReadItems, ReadFields, Itoa;
    AtSplit(s, p, Itoa(n), ",");
    AtChar(s, p + |Itoa(n)|, ",", 0);
    NumberReads(lib, s, p, n);
    SkipStays(s, p);
    hide Skip;
  }

  lemma TextReads(lib: Library, s: string, p: nat, pieces: seq<Piece>, depth: nat)
    requires PiecesFit(pieces) && At(s, p, "\"" + PrintPieces(pieces) + ",") && depth <= MAX_DEPTH
    ensures ReadValue(lib, s, p, depth) == Some((Str(PiecesMeaning(pieces)), p + 1 + |PrintPieces(pieces)|))
  {
    hide ReadString, ReadNumber, NameEnd, ReadItems, ReadFields, PiecesFit, PrintPieces, PiecesMeaning;
    QuotedReads(lib, s, p, pieces);
    SkipStays(s, p);
    hide Skip;
  }

  lemma LeafReads(lib: Library, s: string, p: nat, l: Literal, depth: nat)
    requires Placed(s, p, l) && !l.Items? && !l.Fields? && depth <= MAX_DEPTH
    ensures ReadValue(lib, s, p, depth) == Some((Meaning(l), p + |Print(l)|))
  {
    hide ReadValue, At, PiecesFit, NameText, Itoa, WordOf;
    match l
    case Var(name) => VariableReads(lib, s, p, name, depth);
    case Whole(n) => WholeReads(lib, s, p, n, depth);
    case Quoted(pieces) => TextReads(lib, s, p, pieces, depth);
    case Word(word) => WordReads(lib, s, p, word, depth);
  }

  /** A value of any shape is read back exactly when it goes no deeper than the bound. */
  lemma {:induction false} ValueReads(lib: Library, s: string, p: nat, l: Literal, depth: nat)
    requires Placed(s, p, l)
    ensures ReadValue(lib, s, p, depth) == Answer(l, depth, p + |Print(l)|)
    decreases l, 0
  {
    hide ReadItems, ReadFields, ReadString, ReadNumber, NameEnd, Skip, At;
    if depth <= MAX_DEPTH {
      match l
      case Items(items) =>
        Opens(s, p, "[", PrintItems(items));
        ItemsRead(lib, s, p + 1, items, depth, []);
        assert [] + ItemsMeaning(items) == ItemsMeaning(items);
      case Fields(members) =>
        Opens(s, p, "{", PrintMembers(members, "}"));
        FieldsRead(lib, s, p + 1, members, depth, map[]);
      case _ =>
        LeafReads(lib, s, p, l, depth);
    }
  }

  lemma Opens(s: string, p: nat, open: string, t: string)
    requires |open| == 1 && At(s, p, open + t + ",") && !Ignored(open[0]) && open[0] != '#'
    ensures p < |s| && s[p] == open[0] && Skip(s, p) == p && At(s, p + 1, t)
  {
    AtSplit(s, p, open + t, ",");
    AtSplit(s, p, open, t);
    AtChar(s, p, open, 0);
  }

  /** The parts of an entry with others after it. */
  lemma EntryParts(s: string, p: nat, entry: string, rest: string)
    requires At(s, p, entry + ("," + rest))
    ensures At(s, p, entry + ",") && At(s, p + |entry| + 1, rest)
    ensures p + |entry| < |s| && s[p + |entry|] == ',' && Skip(s, p + |entry|) == Skip(s, p + |entry| + 1)
  {
    assert entry + ("," + rest) == entry + "," + rest;
    AtSplit(s, p, entry + ",", rest);
    AtSplit(s, p, entry, ",");
    CommaSkipped(s, p + |entry|);
  }

  lemma Closes(s: string, p: nat, close: string)
    requires close in {"]", "}", ")"} && At(s, p, close)
    ensures p < |s| && s[p] == close[0] && Skip(s, p) == p
  {
    AtChar(s, p, close, 0);
  }

  lemma {:induction false} ItemsRead(lib: Library, s: string, p: nat, items: seq<Literal>, depth: nat, read: seq<Value>)
    requires ItemsFit(items) && At(s, p, PrintItems(items)) && depth <= MAX_DEPTH
    ensures ReadItems(lib, s, p, depth, read) ==
      if depth + ItemsHeight(items) <= MAX_DEPTH
      then Some((read + ItemsMeaning(items), p + |PrintItems(items)|)) else None
    decreases items, 1
  {
    hide ReadItems, ReadValue, Skip, Fits, Print, Meaning, Height, At;
    if items == [] {
      ItemsEnd(lib, s, p, depth, read);
      assert read + [] == read;
    } else {
      var l := items[0];
      FirstItem(s, p, items);
      hide Placed, PrintItems, ItemsMeaning, ItemsHeight;
      ItemsStep(lib, s, p, l, depth, read);
      ValueReads(lib, s, p, l, depth + 1);
      if depth + 1 + Height(l) <= MAX_DEPTH {
        var next := p + |Print(l)|;
        ItemsRead(lib, s, next + 1, items[1..], depth, read + [Meaning(l)]);
        SkippedItems(lib, s, next, depth, read + [Meaning(l)]);
        assert read + [Meaning(l)] + ItemsMeaning(items[1..]) == read + ItemsMeaning(items);
      }
    }
  }

  /** The first of a list's items, and what is left of the list. */
  lemma FirstItem(s: string, p: nat, items: seq<Literal>)
    requires ItemsFit(items) && items != [] && At(s, p, PrintItems(items))
    ensures var l, rest := items[0], items[1..];
      var next := p + |Print(l)|;
      && Placed(s, p, l) && next < |s| && Skip(s, next) == Skip(s, next + 1) && At(s, next + 1, PrintItems(rest))
      && |PrintItems(items)| == |Print(l)| + 1 + |PrintItems(rest)|
      && ItemsMeaning(items) == [Meaning(l)] + ItemsMeaning(rest)
      && ItemsHeight(items) == Max(1 + Height(l), ItemsHeight(rest))
  {
    hide Skip, Fits, Print, Meaning, Height, At;
    EntryParts(s, p, Print(items[0]), PrintItems(items[1..]));
  }

  lemma ItemsEnd(lib: Library, s: string, p: nat, depth: nat, read: seq<Value>)
    requires At(s, p, "]")
    ensures p < |s| && ReadItems(lib, s, p, depth, read) == Some((read, p + 1))
  {
    hide ReadValue, Skip;
    Closes(s, p, "]");
  }

  /** An item read, whatever comes after it. */
  lemma ItemsStep(lib: Library, s: string, p: nat, l: Literal, depth: nat, read: seq<Value>)
    requires Placed(s, p, l)
    ensures p < |s|
    ensures var v := ReadValue(lib, s, p, depth + 1);
      ReadItems(lib, s, p, depth, read) ==
      if v.None? then None else ReadItems(lib, s, v.value.1, depth, read + [v.value.0])
  {
    hide ReadValue, Skip, Fits, Print, At;
    ValueStarts(s, p, l);
    NotClose(s, p, l, "]");
  }

  lemma SkippedItems(lib: Library, s: string, p: nat, depth: nat, read: seq<Value>)
    requires p < |s| && Skip(s, p) == Skip(s, p + 1)
    ensures ReadItems(lib, s, p, depth, read) == ReadItems(lib, s, p + 1, depth, read)
  {
    hide ReadValue, Skip;
  }

  /** A value does not begin with a closing bracket. */
  lemma NotClose(s: string, p: nat, l: Literal, close: string)
    requires Placed(s, p, l) && close in {"]", "}", ")"}
    ensures p < |s| && s[p] != close[0]
  {
    var t := Print(l);
    AtSplit(s, p, t, ",");
    if l.Whole? {
      assert IsDigit(t[0]) || t[0] == '-';
    }
    AtChar(s, p, t, 0);
  }

  /** A member's name, colon and value stand where they are written. */
  lemma MemberParts(s: string, p: nat, m: Member)
    requires NameText(m.name) && Fits(m.value) && At(s, p, PrintMember(m) + ",")
    ensures var end := p + |m.name|;
      && p < |s| && NameByte(s[p], true) && Skip(s, p) == p
      && p < NameEnd(s, p) == end < |s| && s[p..end] == m.name && PastColon(s, end) == end + 1
      && Placed(s, end + 1, m.value) && Skip(s, end + 1) == end + 1
           && end + 1 + |Print(m.value)| == p + |PrintMember(m)|
  {
    hide Print, Fits;
    var end, t := p + |m.name|, Print(m.value);
    assert PrintMember(m) + "," == m.name + (":" + (t + ","));
    AtSplit(s, p, m.name, ":" + (t + ","));
    AtSplit(s, end, ":", t + ",");
    AtChar(s, end, ":", 0);
    NameReads(s, p, m.name);
    SkipStays(s, end);
    ValueStarts(s, end + 1, m.value);
  }

  lemma MemberValue(s: string, p: nat, m: Member)
    requires NameText(m.name) && Fits(m.value) && At(s, p, PrintMember(m) + ",")
    ensures Placed(s, p + |m.name| + 1, m.value) && p + |m.name| + 1 + |Print(m.value)| == p + |PrintMember(m)|
  {
    hide At, Print, Fits, NameText, NameEnd, PastColon, Skip;
    MemberParts(s, p, m);
  }

  /** A member read, whatever comes after it. */
  lemma FieldsStep(lib: Library, s: string, p: nat, m: Member, depth: nat, read: map<string, Value>)
    requires NameText(m.name) && Fits(m.value) && At(s, p, PrintMember(m) + ",")
    ensures var v := ReadValue(lib, s, p + |m.name| + 1, depth + 1);
      ReadFields(lib, s, p, depth, read) ==
      if v.None? then None else ReadFields(lib, s, v.value.1, depth, read[m.name := v.value.0])
    ensures var v := ReadValue(lib, s, p + |m.name| + 1, 0);
      ReadArguments(lib, s, p, read) ==
      if v.None? then None else ReadArguments(lib, s, v.value.1, read[m.name := v.value.0])
  {
    hide ReadValue, Skip, NameEnd, PastColon, Fits, PrintMember, NameText, At, Print;
    MemberParts(s, p, m);
  }

  lemma FieldsEnd(lib: Library, s: string, p: nat, depth: nat, read: map<string, Value>)
    requires At(s, p, "}")
    ensures p < |s| && ReadFields(lib, s, p, depth, read) == Some((read, p + 1))
  {
    hide ReadValue, Skip, NameEnd, PastColon;
    Closes(s, p, "}");
  }

  lemma {:induction false} FieldsRead(lib: Library, s: string, p: nat, members: seq<Member>, depth: nat,
          read: map<string, Value>)
    requires MembersFit(members) && At(s, p, PrintMembers(members, "}")) && depth <= MAX_DEPTH
    ensures ReadFields(lib, s, p, depth, read) ==
      if depth + MembersHeight(members) <= MAX_DEPTH
      then Some((MembersMeaning(read, members), p + |PrintMembers(members, "}")|)) else None
    decreases members, 1
  {
    hide ReadValue, Skip, NameEnd, PastColon, Fits, PrintMember, NameText, Meaning, Height, At, Print, ReadFields;
    if members == [] {
      FieldsEnd(lib, s, p, depth, read);
    } else {
      var m := members[0];
      EntryParts(s, p, PrintMember(m), PrintMembers(members[1..], "}"));
      MemberValue(s, p, m);
      FieldsStep(lib, s, p, m, depth, read);
      ValueReads(lib, s, p + |m.name| + 1, m.value, depth + 1);
      if depth + 1 + Height(m.value) <= MAX_DEPTH {
        var next := p + |PrintMember(m)|;
        var more := read[m.name := Meaning(m.value)];
        FieldsRead(lib, s, next + 1, members[1..], depth, more);
        SkippedFields(lib, s, next, depth, more);
      }
    }
  }

  lemma SkippedFields(lib: Library, s: string, p: nat, depth: nat, read: map<string, Value>)
    requires p < |s| && Skip(s, p) == Skip(s, p + 1)
    ensures ReadFields(lib, s, p, depth, read) == ReadFields(lib, s, p + 1, depth, read)
    ensures ReadArguments(lib, s, p, read) == ReadArguments(lib, s, p + 1, read)
  {
    hide ReadValue, Skip, NameEnd, PastColon;
  }

  lemma ArgumentsEnd(lib: Library, s: string, p: nat, read: Arguments)
    requires At(s, p, ")")
    ensures p < |s| && ReadArguments(lib, s, p, read) == Some(read)
  {
    hide ReadValue, Skip, NameEnd, PastColon;
    Closes(s, p, ")");
  }

  /** A field's arguments are read back, or refused whole when one of them goes too deep. */
  lemma {:induction false} ArgumentsRead(lib: Library, s: string, p: nat, members: seq<Member>, read: Arguments)
    requires MembersFit(members) && At(s, p, PrintMembers(members, ")"))
    ensures ReadArguments(lib, s, p, read) ==
      if MembersHeight(members) <= MAX_DEPTH + 1 then Some(MembersMeaning(read, members)) else None
    decreases |members|
  {
    hide ReadValue, Skip, NameEnd, PastColon, Fits, PrintMember, NameText, Meaning, Height, At, Print, ReadArguments;
    if members == [] {
      ArgumentsEnd(lib, s, p, read);
    } else {
      var m := members[0];
      EntryParts(s, p, PrintMember(m), PrintMembers(members[1..], ")"));
      MemberValue(s, p, m);
      FieldsStep(lib, s, p, m, 0, read);
      ValueReads(lib, s, p + |m.name| + 1, m.value, 0);
      if Height(m.value) <= MAX_DEPTH {
        var next := p + |PrintMember(m)|;
        var more := read[m.name := Meaning(m.value)];
        ArgumentsRead(lib, s, next + 1, members[1..], more);
        SkippedFields(lib, s, next, 0, more);
      }
    }
  }
}
