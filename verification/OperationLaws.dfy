/** The field a document selects is the first one of its operation's selection set, whatever stands before
    it, inside fragments or not; and spreads that lead in a circle select none (internal/proto/graphql/scan.go). */
module OperationLaws {
  import opened Options
  import opened Texts
  import opened Literals
  import opened Documents
  import opened DocumentLaws
  import opened Noises

  // ---------------------------------------------------------------- the selected field

  /** A field as a document selects it, under an alias or not, with arguments or without. */
  datatype Selected = Selected(alias: string, name: string, args: Option<seq<Member>>)

  predicate SelectedFits(f: Selected) {
    (f.alias == "" || NameText(f.alias)) && NameText(f.name) && (f.args.Some? ==> MembersFit(f.args.value))
  }

  function PrintSelected(f: Selected): string
    requires SelectedFits(f)
  {
    (if f.alias == "" then "" else f.alias + ":") +
    (f.name + if f.args.None? then "}" else "(" + PrintMembers(f.args.value, ")"))
  }

  /** What the reader makes of it: its arguments, all or none. */
  function FieldMeaning(f: Selected): Field
    requires SelectedFits(f)
  {
    if f.args.None? then Field(f.name, None, false)
    else if MembersHeight(f.args.value) > MAX_DEPTH + 1 then Field(f.name, None, true)
    else Field(f.name, Some(MembersMeaning(map[], f.args.value)), false)
  }

  /** The field's own name and arguments, its alias passed. */
  lemma NamedReads(lib: Library, s: string, p: nat, f: Selected)
    requires SelectedFits(f) && f.alias == "" && At(s, p, PrintSelected(f))
    ensures FieldAt(lib, s, p) == FieldMeaning(f)
    ensures p < |s| && NameByte(s[p], true) && Skip(s, p) == p
    ensures var end := p + |f.name|;
      NameEnd(s, p) == end < |s| && s[p..end] == f.name && Skip(s, end) == end && s[end] != ':'
  {
    hide At, ReadArguments, PrintMembers, NameText, MembersFit, MembersMeaning;
    var end := p + |f.name|;
    var t := if f.args.None? then "}" else "(" + PrintMembers(f.args.value, ")");
    assert PrintSelected(f) == f.name + t;
    AtSplit(s, p, f.name, t);
    AtChar(s, end, t, 0);
    NameReads(s, p, f.name);
    SkipStays(s, end);
    hide Skip, NameEnd;
    if f.args.Some? {
      AtSplit(s, end, "(", PrintMembers(f.args.value, ")"));
      ArgumentsRead(lib, s, end + 1, f.args.value, map[]);
    }
  }

  lemma Unaliased(f: Selected)
    requires SelectedFits(f) && f.alias != ""
    ensures var bare := f.(alias := "");
      SelectedFits(bare) && FieldMeaning(bare) == FieldMeaning(f)
          && PrintSelected(f) == f.alias + (":" + PrintSelected(bare))
  {
    hide PrintMembers, MembersFit, MembersMeaning, NameText;
    var t := PrintSelected(f.(alias := ""));
    assert "" + t == t;
  }

  lemma SelectedReads(lib: Library, s: string, p: nat, f: Selected)
    requires SelectedFits(f) && At(s, p, PrintSelected(f))
    ensures FieldAt(lib, s, p) == FieldMeaning(f)
    ensures p < |s| && NameByte(s[p], true) && Skip(s, p) == p
  {
    hide At, FieldAt, FieldMeaning, PrintSelected, NameText, MembersFit, Skip, NameEnd;
    if f.alias == "" {
      NamedReads(lib, s, p, f);
    } else {
      var bare := f.(alias := "");
      var t := PrintSelected(bare);
      var colon := p + |f.alias|;
      Unaliased(f);
      AtSplit(s, p, f.alias, ":" + t);
      AtSplit(s, colon, ":", t);
      AtChar(s, colon, ":", 0);
      NameReads(s, p, f.alias);
      SkipStays(s, colon);
      NamedReads(lib, s, colon + 1, bare);
      AliasRead(lib, s, p, colon);
    }
  }

  /** An alias names only how the caller wants the field back. */
  lemma AliasRead(lib: Library, s: string, p: nat, colon: nat)
    requires p < colon < |s| && NameEnd(s, p) == colon && Skip(s, colon) == colon && s[colon] == ':'
    requires Skip(s, colon + 1) == colon + 1
    requires var end := NameEnd(s, colon + 1); end < |s| && Skip(s, end) == end && s[end] != ':'
    ensures FieldAt(lib, s, p) == FieldAt(lib, s, colon + 1)
  {
    hide ReadArguments, Skip, NameEnd;
  }

  // ---------------------------------------------------------------- spreads into inline fragments

  /** An inline fragment opened before a field: with directives or none, and with a type or none. */
  datatype Opening = Inline(directives: seq<Noise>) | On(condition: string, directives: seq<Noise>)

  predicate OpeningFits(o: Opening) {
    AllFit(o.directives, false) &&
    match o
    case Inline(directives) => directives == [] || directives[0] == Other('@')
    case On(condition, directives) => NameText(condition) && (directives == [] || directives[0] == Other(' '))
  }

  predicate OpeningsFit(os: seq<Opening>) {
    forall i :: 0 <= i < |os| ==> OpeningFits(os[i])
  }

  function PrintOpening(o: Opening): string
    requires OpeningFits(o)
  {
    SPREAD + ((if o.On? then "on " + o.condition else "") + (PrintAll(o.directives, false) + "{"))
  }

  /** A text inside as many inline fragments. */
  function PrintInside(os: seq<Opening>, inner: string): string
    requires OpeningsFit(os)
  {
    if os == [] then inner else PrintOpening(os[0]) + PrintInside(os[1..], inner)
  }

  /** What the reader makes of a field inside spreads, of which it goes into no more than eight. */
  function InsideMeaning(spreads: nat, f: Selected): Field
    requires SelectedFits(f)
  {
    if spreads <= MAX_SPREADS then FieldMeaning(f) else UNKNOWN
  }

  lemma DirectivesStart(s: string, p: nat, ds: seq<Noise>, c: char)
    requires AllFit(ds, false) && At(s, p, PrintAll(ds, false) + "{") && (ds == [] || ds[0] == Other(c))
    ensures p < |s| && (s[p] == '{' || s[p] == c) && At(s, p, PrintAll(ds, false))
    ensures ToSelectionSet(s, p, 0) == Some(p + |PrintAll(ds, false)| + 1)
  {
    var t := PrintAll(ds, false);
    AtSplit(s, p, t, "{");
    AllPassed(s, p, ds, 0);
    BraceOpens(s, p + |t|);
    if ds != [] {
      assert t == [c] + PrintAll(ds[1..], false);
      AtChar(s, p, t, 0);
    }
  }

  /** An opening leads just inside its brace. */
  lemma OpeningLeads(s: string, p: nat, o: Opening)
    requires OpeningFits(o) && At(s, p, PrintOpening(o))
    ensures At(s, p, SPREAD) && p + 3 <= |s| && Skip(s, p) == p
    ensures SpreadTarget(s, p + 3) == Some(p + |PrintOpening(o)|)
  {
    hide At, PrintAll, AllFit, ToSelectionSet, NameText, SpreadTarget, Skip;
    var ds := PrintAll(o.directives, false) + "{";
    var head := if o.On? then "on " + o.condition else "";
    AtSplit(s, p, SPREAD, head + ds);
    AtFits(s, p, SPREAD);
    AtChar(s, p, SPREAD, 0);
    SkipStays(s, p);
    AtSplit(s, p + 3, head, ds);
    match o
    case Inline(directives) =>
      DirectivesStart(s, p + 3, directives, '@');
      InlineLeads(s, p + 3);
    case On(condition, directives) =>
      DirectivesStart(s, p + 6 + |condition|, directives, ' ');
      OnLeads(s, p + 3, condition);
  }

  lemma InlineLeads(s: string, p: nat)
    requires p < |s| && s[p] in {'@', '{'}
    ensures SpreadTarget(s, p) == ToSelectionSet(s, p, 0)
  {
    hide ToSelectionSet, SeekFragment;
    assert Skip(s, p) == p && NameEnd(s, p) == p;
  }

  lemma OnLeads(s: string, p: nat, condition: string)
    requires NameText(condition) && At(s, p, "on " + condition)
    requires var end := p + 3 + |condition|; end < |s| && s[end] in {' ', '{'}
    ensures SpreadTarget(s, p) == ToSelectionSet(s, p + 3 + |condition|, 0)
  {
    hide At, NameText;
    AtSplit(s, p, "on ", condition);
    assert "on " == "on" + " ";
    AtSplit(s, p, "on", " ");
    AtChar(s, p + 2, " ", 0);
    OnIsName();
    NameReads(s, p, "on");
    NameReads(s, p + 3, condition);
    SkipBlank(s, p + 2);
    hide Skip, NameEnd, ToSelectionSet, SeekFragment;
  }

  lemma OnIsName()
    ensures NameText("on")
  {
  }

  lemma SkipBlank(s: string, p: nat)
    requires p < |s| && s[p] == ' '
    ensures Skip(s, p) == Skip(s, p + 1)
  {
  }

  /** Inline fragments lead to what is inside them, as many spreads deeper. */
  lemma {:induction false} OpeningsLead(lib: Library, s: string, p: nat, os: seq<Opening>, inner: string, depth: nat)
    requires OpeningsFit(os) && At(s, p, PrintInside(os, inner)) && p + |PrintInside(os, inner)| <= |s|
    ensures var inside := p + |PrintInside(os, inner)| - |inner|;
      && p <= inside && At(s, inside, inner)
      && Selection(lib, s, p, depth) == Selection(lib, s, inside, depth + |os|)
    decreases |os|
  {
    hide At, FieldAt, Skip, SpreadTarget, PrintOpening, OpeningFits;
    if os != [] {
      AtSplit(s, p, PrintOpening(os[0]), PrintInside(os[1..], inner));
      OpeningLeads(s, p, os[0]);
      OpeningsLead(lib, s, p + |PrintOpening(os[0])|, os[1..], inner, depth + 1);
    }
  }

  /** A selection set opened by spreads into inline fragments selects the field inside them, unless they are
      more than the bound. */
  lemma InsideReads(lib: Library, s: string, p: nat, os: seq<Opening>, f: Selected, depth: nat)
    requires OpeningsFit(os) && SelectedFits(f) && At(s, p, PrintInside(os, PrintSelected(f)))
    ensures p <= |s| && Selection(lib, s, p, depth) == InsideMeaning(depth + |os|, f)
  {
    hide At, SelectedFits, PrintSelected, FieldMeaning, OpeningsFit, Selection, PrintInside;
    AtFits(s, p, PrintInside(os, PrintSelected(f)));
    OpeningsLead(lib, s, p, os, PrintSelected(f), depth);
    var inside := p + |PrintInside(os, PrintSelected(f))| - |PrintSelected(f)|;
    FieldReads(lib, s, inside, f, depth + |os|);
  }

  lemma FieldReads(lib: Library, s: string, p: nat, f: Selected, depth: nat)
    requires SelectedFits(f) && At(s, p, PrintSelected(f)) && p <= |s|
    ensures Selection(lib, s, p, depth) == if depth <= MAX_SPREADS then FieldMeaning(f) else UNKNOWN
  {
    hide At, FieldAt, Skip, SpreadTarget, SelectedFits, PrintSelected, FieldMeaning;
    SelectedReads(lib, s, p, f);
    if At(s, p, SPREAD) {
      AtChar(s, p, SPREAD, 0);
      assert false;
    }
  }

  // ---------------------------------------------------------------- a whole document

  /** A fragment's definition: what stands before its block, and the block. */
  datatype Definition = Definition(header: seq<Noise>, body: seq<Noise>)

  predicate DefinitionFits(d: Definition) {
    AllFit(d.header, false) && AllFit(d.body, true) && AllBalanced(d.body)
  }

  predicate DefinitionsFit(ds: seq<Definition>) {
    forall i :: 0 <= i < |ds| ==> DefinitionFits(ds[i])
  }

  function PrintDefinition(d: Definition): string
    requires DefinitionFits(d)
  {
    FRAGMENT + (" " + PrintAll(d.header, false) + ("{" + (PrintAll(d.body, true) + "}")))
  }

  /** An operation: its keyword and whatever stands before its selection set, or nothing of that; and the text
      that starts inside the selection set. */
  datatype Operation = Operation(keyword: string, header: seq<Noise>, inside: string)

  predicate OperationFits(o: Operation) {
    (o.keyword == "" || o.keyword in OPERATIONS) && AllFit(o.header, false)
  }

  function PrintOperation(o: Operation): string
    requires OperationFits(o)
  {
    (if o.keyword == "" then "" else o.keyword + (" " + PrintAll(o.header, false))) + ("{" + o.inside)
  }

  function Document(ds: seq<Definition>, o: Operation): string
    requires DefinitionsFit(ds) && OperationFits(o)
  {
    if ds == [] then PrintOperation(o) else PrintDefinition(ds[0]) + Document(ds[1..], o)
  }

  lemma BraceOpens(s: string, p: nat)
    requires At(s, p, "{")
    ensures ToSelectionSet(s, p, 0) == Some(p + 1) && p < |s|
  {
    AtChar(s, p, "{", 0);
  }

  /** A keyword, what stands before a brace, and the brace. */
  lemma HeaderPassed(s: string, p: nat, keyword: string, header: seq<Noise>, rest: string)
    requires NameText(keyword) && AllFit(header, false)
        && At(s, p, keyword + (" " + PrintAll(header, false) + ("{" + rest)))
    ensures var inside := p + |keyword| + 2 + |PrintAll(header, false)|;
      && p < |s| && NameByte(s[p], true) && Skip(s, p) == p
      && NameEnd(s, p) == p + |keyword| <= |s| && s[p..p + |keyword|] == keyword
      && ToSelectionSet(s, p + |keyword|, 0) == Some(inside) && At(s, inside, rest) && inside <= |s|
  {
    hide At, AllFit, PrintAll, Skip, NameEnd;
    var end := p + |keyword|;
    var before := " " + PrintAll(header, false);
    AtSplit(s, p, keyword, before + ("{" + rest));
    AtSplit(s, end, before, "{" + rest);
    AtSplit(s, end + |before|, "{", rest);
    AtSplit(s, end, " ", PrintAll(header, false));
    AtChar(s, end, " ", 0);
    NameReads(s, p, keyword);
    OtherPassed(s, end, ' ', 0);
    AllPassed(s, end + 1, header, 0);
    BraceOpens(s, end + |before|);
  }

  lemma KeywordText(keyword: string)
    requires keyword in OPERATIONS || keyword == FRAGMENT
    ensures NameText(keyword)
  {
  }

  /** An operation leads into its selection set. */
  lemma OperationAt(lib: Library, s: string, p: nat, o: Operation)
    requires OperationFits(o) && At(s, p, PrintOperation(o)) && p + |PrintOperation(o)| <= |s|
    ensures var inside := p + |PrintOperation(o)| - |o.inside|;
      At(s, inside, o.inside) && RootField(lib, s, p) == Selection(lib, s, inside, 0)
  {
    hide At, AllFit, PrintAll, Selection, Skip, NameEnd, RootField, ToSelectionSet;
    if o.keyword == "" {
      assert "" + ("{" + o.inside) == "{" + o.inside;
      AtSplit(s, p, "{", o.inside);
      AtChar(s, p, "{", 0);
      SkipStays(s, p);
      ShorthandOf(lib, s, p);
    } else {
      var before := " " + PrintAll(o.header, false);
      assert o.keyword + before + ("{" + o.inside) == o.keyword + (before + ("{" + o.inside));
      KeywordText(o.keyword);
      HeaderPassed(s, p, o.keyword, o.header, o.inside);
      RootOf(lib, s, p, o.keyword, p + |o.keyword| + 2 + |PrintAll(o.header, false)|);
    }
  }

  lemma ShorthandOf(lib: Library, s: string, p: nat)
    requires p < |s| && Skip(s, p) == p && s[p] == '{'
    ensures RootField(lib, s, p) == Selection(lib, s, p + 1, 0)
  {
    hide Selection, Skip;
  }

  lemma RootOf(lib: Library, s: string, p: nat, keyword: string, inside: nat)
    requires keyword in OPERATIONS && p < |s| && NameByte(s[p], true) && inside <= |s| && Skip(s, p) == p
    requires NameEnd(s, p) == p + |keyword| <= |s| && s[p..p + |keyword|] == keyword
    requires ToSelectionSet(s, p + |keyword|, 0) == Some(inside)
    ensures RootField(lib, s, p) == Selection(lib, s, inside, 0)
  {
    hide Selection, ToSelectionSet, Skip, NameEnd, SkipBlock, OPERATIONS;
    assert s[p] != '{';
  }

  lemma FragmentOf(lib: Library, s: string, p: nat, inside: nat, after: nat)
    requires p < |s| && NameByte(s[p], true) && inside <= |s| && after <= |s| && Skip(s, p) == p
    requires NameEnd(s, p) == p + |FRAGMENT| <= |s| && s[p..p + |FRAGMENT|] == FRAGMENT
    requires ToSelectionSet(s, p + |FRAGMENT|, 0) == Some(inside) && SkipBlock(s, inside, 1) == Some(after)
    ensures RootField(lib, s, p) == RootField(lib, s, after)
  {
    hide Selection, ToSelectionSet, SkipBlock, Skip, NameEnd;
  }

  /** A fragment's definition before an operation makes no difference. */
  lemma DefinitionPassed(lib: Library, s: string, p: nat, d: Definition)
    requires DefinitionFits(d) && At(s, p, PrintDefinition(d))
    ensures var after := p + |PrintDefinition(d)|; after <= |s| && RootField(lib, s, p) == RootField(lib, s, after)
  {
    hide At, AllFit, AllBalanced, PrintAll, RootField, SkipBlock, ToSelectionSet;
    var body := PrintAll(d.body, true);
    KeywordText(FRAGMENT);
    HeaderPassed(s, p, FRAGMENT, d.header, body + "}");
    var inside := p + |FRAGMENT| + 2 + |PrintAll(d.header, false)|;
    AtSplit(s, inside, body, "}");
    AllInBlock(s, inside, d.body, 1);
    BraceInBlock(s, inside + |body|, 1);
    AtFits(s, inside + |body|, "}");
    FragmentOf(lib, s, p, inside, inside + |body| + 1);
  }

  /** A document leads into the selection set of its operation, whatever fragments are defined before. */
  lemma {:induction false} DocumentAt(lib: Library, s: string, p: nat, ds: seq<Definition>, o: Operation)
    requires DefinitionsFit(ds) && OperationFits(o)
    requires At(s, p, Document(ds, o)) && p + |Document(ds, o)| <= |s|
    ensures var inside := p + |Document(ds, o)| - |o.inside|;
      p <= inside && At(s, inside, o.inside) && RootField(lib, s, p) == Selection(lib, s, inside, 0)
    decreases |ds|
  {
    hide At, DefinitionFits, OperationFits, PrintDefinition, RootField, Selection;
    if ds == [] {
      OperationAt(lib, s, p, o);
    } else {
      hide PrintOperation;
      AtSplit(s, p, PrintDefinition(ds[0]), Document(ds[1..], o));
      DefinitionPassed(lib, s, p, ds[0]);
      DocumentAt(lib, s, p + |PrintDefinition(ds[0])|, ds[1..], o);
    }
  }

  /** A document answers the field its operation selects, with all of its arguments or none: whatever
      fragments are defined before the operation, whatever names, comments, strings and variable
      definitions stand before its selection set, and inside up to eight inline fragments. */
  lemma DocumentReads(lib: Library, ds: seq<Definition>, o: Operation, os: seq<Opening>, f: Selected, rest: string)
    requires DefinitionsFit(ds) && OperationFits(o) && OpeningsFit(os) && SelectedFits(f)
    requires o.inside == PrintInside(os, PrintSelected(f)) + rest
    ensures RootField(lib, Document(ds, o), 0) == InsideMeaning(|os|, f)
  {
    hide RootField, Document, DefinitionsFit, OperationFits, OpeningsFit, SelectedFits, Selection, PrintInside, At;
    var s := Document(ds, o);
    AtWhole(s);
    DocumentAt(lib, s, 0, ds, o);
    AtSplit(s, |s| - |o.inside|, PrintInside(os, PrintSelected(f)), rest);
    InsideReads(lib, s, |s| - |o.inside|, os, f, 0);
  }

  lemma AtWhole(s: string)
    ensures At(s, 0, s)
  {
    assert s[0..|s|] == s;
  }

  // ---------------------------------------------------------------- spreads that name a fragment

  /** The word `fragment` and the name, wherever they stand: comments and strings are not told apart. */
  predicate Defines(s: string, i: nat, name: string) {
    && i + 8 <= |s| && At(s, i, FRAGMENT)
    && (i > 0 ==> !NameByte(s[i - 1], false)) && (i + 8 < |s| ==> !NameByte(s[i + 8], false))
    && s[Skip(s, i + 8)..NameEnd(s, Skip(s, i + 8))] == name
  }

  ghost predicate DefinesFirst(s: string, k: nat, name: string) {
    Defines(s, k, name) && forall i :: 0 <= i < k ==> !Defines(s, i, name)
  }

  lemma {:induction false} FirstIsFound(s: string, i: nat, k: nat, name: string)
    requires i <= k && DefinesFirst(s, k, name)
    ensures SeekFragment(s, name, i) == ToSelectionSet(s, NameEnd(s, Skip(s, k + 8)), 0)
    decreases k - i
  {
    hide Skip, NameEnd, ToSelectionSet, At;
    if i < k {
      assert !Defines(s, i, name);
      FirstIsFound(s, i + 1, k, name);
    }
  }

  /** A fragment's definition up to its block, and the text that starts inside it. */
  function PrintNamed(name: string, header: seq<Noise>, inner: string): string
    requires AllFit(header, false)
  {
    FRAGMENT + (" " + (name + (" " + PrintAll(header, false) + ("{" + inner))))
  }

  /** A definition that a text starts with is the first of its name. */
  lemma StartIsFirst(s: string, name: string, header: seq<Noise>, inner: string)
    requires NameText(name) && AllFit(header, false) && At(s, 0, PrintNamed(name, header, inner))
    ensures DefinesFirst(s, 0, name)
  {
    hide At, Skip, NameEnd, AllFit, PrintAll, NameText, ToSelectionSet;
    var text := name + (" " + PrintAll(header, false) + ("{" + inner));
    AtFits(s, 0, PrintNamed(name, header, inner));
    AtSplit(s, 0, FRAGMENT, " " + text);
    AtSplit(s, 8, " ", text);
    AtChar(s, 8, " ", 0);
    SkipBlank(s, 8);
    HeaderPassed(s, 9, name, header, inner);
  }

  /** A spread that names a fragment leads into the block of the first definition of that name. */
  lemma NamedLeads(s: string, p: nat, name: string, k: nat, header: seq<Noise>, inner: string)
    requires NameText(name) && name != "on" && AllFit(header, false)
    requires At(s, p, name) && p + |name| <= |s| && (p + |name| < |s| ==> !NameByte(s[p + |name|], false))
    requires DefinesFirst(s, k, name) && At(s, k, PrintNamed(name, header, inner))
    ensures var inside := k + |PrintNamed(name, header, inner)| - |inner|;
      inside <= |s| && At(s, inside, inner) && SpreadTarget(s, p) == Some(inside)
  {
    hide At, Skip, NameEnd, SeekFragment, ToSelectionSet, AllFit, PrintAll, NameText, DefinesFirst;
    var text := name + (" " + PrintAll(header, false) + ("{" + inner));
    AtFits(s, k, PrintNamed(name, header, inner));
    AtSplit(s, k, FRAGMENT, " " + text);
    AtSplit(s, k + 8, " ", text);
    HeaderPassed(s, k + 9, name, header, inner);
    AtChar(s, k + 8, " ", 0);
    SkipBlank(s, k + 8);
    FirstIsFound(s, 0, k, name);
    NameReads(s, p, name);
  }

  lemma NamedSelects(lib: Library, s: string, p: nat, name: string, depth: nat, inside: nat)
    requires At(s, p, SPREAD + name) && p + 3 + |name| <= |s| && inside <= |s|
    requires SpreadTarget(s, p + 3) == Some(inside)
    ensures Selection(lib, s, p, depth) == Selection(lib, s, inside, depth + 1)
  {
    hide At, SpreadTarget, Skip, FieldAt;
    AtSplit(s, p, SPREAD, name);
    AtChar(s, p, SPREAD, 0);
    SkipStays(s, p);
  }

  /** Past inline fragments to the spread inside them. */
  lemma SpreadAt(lib: Library, s: string, p: nat, os: seq<Opening>, name: string, rest: string) returns (at: nat)
    requires OpeningsFit(os) && (rest != "" ==> !NameByte(rest[0], false))
    requires At(s, p, PrintInside(os, SPREAD + name) + rest) && p + |PrintInside(os, SPREAD + name) + rest| == |s|
    ensures At(s, at, SPREAD + name) && At(s, at + 3, name) && at + 3 + |name| <= |s|
    ensures at + 3 + |name| < |s| ==> !NameByte(s[at + 3 + |name|], false)
    ensures Selection(lib, s, p, 0) == Selection(lib, s, at, |os|)
  {
    hide Selection, PrintInside, At, OpeningsFit;
    var end := p + |PrintInside(os, SPREAD + name)|;
    AtSplit(s, p, PrintInside(os, SPREAD + name), rest);
    OpeningsLead(lib, s, p, os, SPREAD + name, 0);
    at := end - |SPREAD + name|;
    AtSplit(s, at, SPREAD, name);
    if rest != "" {
      AtChar(s, end, rest, 0);
    }
  }

  /** So a document whose operation selects by naming a fragment answers the field that the first definition
      of that name selects, wherever in the document that definition stands. */
  lemma SpreadReads(lib: Library, ds: seq<Definition>, o: Operation, os: seq<Opening>, name: string, rest: string,
                    k: nat, header: seq<Noise>, inner: seq<Opening>, f: Selected, tail: string)
    requires DefinitionsFit(ds) && OperationFits(o) && OpeningsFit(os) && NameText(name) && name != "on"
    requires o.inside == PrintInside(os, SPREAD + name) + rest && (rest != "" ==> !NameByte(rest[0], false))
    requires AllFit(header, false) && OpeningsFit(inner) && SelectedFits(f)
    requires DefinesFirst(Document(ds, o), k, name)
    requires At(Document(ds, o), k, PrintNamed(name, header, PrintInside(inner, PrintSelected(f)) + tail))
    ensures RootField(lib, Document(ds, o), 0) == InsideMeaning(|os| + 1 + |inner|, f)
  {
    hide *;
    var s := Document(ds, o);
    AtWhole(s);
    DocumentAt(lib, s, 0, ds, o);
    var at := SpreadAt(lib, s, |s| - |o.inside|, os, name, rest);
    var block := PrintInside(inner, PrintSelected(f));
    NamedLeads(s, at + 3, name, k, header, block + tail);
    var inside := k + |PrintNamed(name, header, block + tail)| - |block + tail|;
    NamedSelects(lib, s, at, name, |os|, inside);
    AtSplit(s, inside, block, tail);
    InsideReads(lib, s, inside, inner, f, |os| + 1);
  }

  // ---------------------------------------------------------------- spreads in a circle

  /** Every place leads by a spread to another of them. */
  ghost predicate Circle(s: string, places: set<nat>) {
    forall p :: p in places ==>
      p <= |s| && At(s, Skip(s, p), SPREAD) && Skip(s, p) + 3 <= |s| &&
      SpreadTarget(s, Skip(s, p) + 3).Some? && SpreadTarget(s, Skip(s, p) + 3).value in places
  }

  /** Fragments that spread each other in a circle select nothing. */
  lemma {:induction false} CircleSelectsNothing(lib: Library, s: string, places: set<nat>, p: nat, depth: nat)
    requires Circle(s, places) && p in places
    ensures Selection(lib, s, p, depth) == UNKNOWN
    decreases MAX_SPREADS + 1 - depth
  {
    hide SpreadTarget, FieldAt, Skip, At;
    if depth <= MAX_SPREADS {
      CircleSelectsNothing(lib, s, places, SpreadTarget(s, Skip(s, p) + 3).value, depth + 1);
    }
  }
}
