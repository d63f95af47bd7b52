/** A scanner of GraphQL documents: the field a document selects and the arguments it is passed
    (internal/proto/graphql/scan.go). A character stands for a byte. */
module Documents {
  import opened Options
  import opened Decimals
  import opened Texts
  import opened Literals

  // ---------------------------------------------------------------- ignored tokens and names

  predicate NameByte(c: char, first: bool) {
    c == '_' || 'a' <= c <= 'z' || 'A' <= c <= 'Z' || (!first && IsDigit(c))
  }

  predicate Ignored(c: char) {
    c in {' ', '\t', '\n', '\r', ','}
  }

  function Skip(s: string, p: nat): (q: nat)
    requires p <= |s|
    ensures p <= q <= |s|
    decreases |s| - p
  {
    if p < |s| && Ignored(s[p]) then Skip(s, p + 1)
    else if p < |s| && s[p] == '#' then Skip(s, SkipTo(s, p + 1, '\n'))
    else p
  }

  /** Where a name's characters after its first one end. */
  function NameRest(s: string, p: nat): (q: nat)
    requires p <= |s|
    ensures p <= q <= |s|
    decreases |s| - p
  {
    if p < |s| && NameByte(s[p], false) then NameRest(s, p + 1) else p
  }

  function NameEnd(s: string, p: nat): (q: nat)
    requires p <= |s|
    ensures p <= q <= |s|
  {
    if p < |s| && NameByte(s[p], true) then NameRest(s, p + 1) else p
  }

  // ---------------------------------------------------------------- strings and groups skipped

  /** The closing quotes of a block string, or a place too near the end for any. */
  function BlockEnd(s: string, p: nat): (q: nat)
    ensures p <= q
    decreases |s| - p
  {
    if p + 2 < |s| && s[p..p + 3] != TRIPLE then BlockEnd(s, if s[p] == '\\' then p + 2 else p + 1) else p
  }

  function QuoteEnd(s: string, p: nat): (q: nat)
    ensures p <= q
    decreases |s| - p
  {
    if p < |s| && s[p] != '"' then QuoteEnd(s, if s[p] == '\\' then p + 2 else p + 1) else p
  }

  /** The place after a string literal; past the end when it is not closed. */
  function SkipString(s: string, p: nat): (q: nat)
    ensures p < q
  {
    if At(s, p, TRIPLE) then BlockEnd(s, p + 3) + 3 else QuoteEnd(s, p + 1) + 1
  }

  function OneLess(depth: nat): nat {
    if depth > 0 then depth - 1 else 0
  }

  /** Past the first brace outside strings, comments and parentheses. */
  function ToSelectionSet(s: string, p: nat, depth: nat): (q: Option<nat>)
    ensures q.Some? ==> p < q.value <= |s|
    decreases |s| - p
  {
    if p >= |s| then None
    else if s[p] == '"' then ToSelectionSet(s, SkipString(s, p), depth)
    else if s[p] == '#' then ToSelectionSet(s, SkipTo(s, p + 1, '\n') + 1, depth)
    else if s[p] == '{' && depth == 0 then Some(p + 1)
    else ToSelectionSet(s, p + 1, if s[p] == '(' then depth + 1 else if s[p] == ')' then OneLess(depth) else depth)
  }

  /** Past the brace that closes the block p stands in. */
  function SkipBlock(s: string, p: nat, depth: nat): (q: Option<nat>)
    requires depth > 0
    ensures q.Some? ==> p < q.value <= |s|
    decreases |s| - p
  {
    if p >= |s| then None
    else if s[p] == '"' then SkipBlock(s, SkipString(s, p), depth)
    else if s[p] == '#' then SkipBlock(s, SkipTo(s, p + 1, '\n') + 1, depth)
    else if s[p] == '}' then if depth == 1 then Some(p + 1) else SkipBlock(s, p + 1, depth - 1)
    else SkipBlock(s, p + 1, if s[p] == '{' then depth + 1 else depth)
  }

  const FRAGMENT := "fragment"

  /** Just inside the definition of a fragment, the first from i on with that name. */
  function SeekFragment(s: string, want: string, i: nat): (q: Option<nat>)
    ensures q.Some? ==> q.value <= |s|
    decreases |s| - i
  {
    if i + 8 > |s| then None
    else if !At(s, i, FRAGMENT) || (i > 0 && NameByte(s[i - 1], false)) || (i + 8 < |s| && NameByte(s[i + 8], false))
    then SeekFragment(s, want, i + 1)
    else
      var start := Skip(s, i + 8);
      var end := NameEnd(s, start);
      if s[start..end] != want then SeekFragment(s, want, i + 1) else ToSelectionSet(s, end, 0)
  }

  // ---------------------------------------------------------------- values

  const MAX_DEPTH := 64

  function ReadValue(lib: Library, s: string, p: nat, depth: nat): (r: Option<(Value, nat)>)
    requires p <= |s|
    ensures r.Some? ==> p < r.value.1 <= |s|
    decreases |s| - p, 0
  {
    if depth > MAX_DEPTH then None
    else
      var q := Skip(s, p);
      if q >= |s| then None
      else if s[q] == '$' then
        var end := NameEnd(s, q + 1);
        if end == q + 1 then None else Some((Variable(s[q + 1..end]), end))
      else if s[q] == '"' then ReadString(lib, s, q)
      else if s[q] == '[' then
        var r := ReadItems(lib, s, q + 1, depth, []);
        if r.None? then None else Some((List(r.value.0), r.value.1))
      else if s[q] == '{' then
        var r := ReadFields(lib, s, q + 1, depth, map[]);
        if r.None? then None else Some((Object(r.value.0), r.value.1))
      else if s[q] == '-' || IsDigit(s[q]) then ReadNumber(lib, s, q)
      else
        var end := NameEnd(s, q);
        if end == q then None else Some((WordOf(s[q..end]), end))
  }

  function WordOf(word: string): Value {
    if word == "true" then Bool(true) else if word == "false" then Bool(false)
    else if word == "null" then Null else Str(word)
  }

  /** A list's items after those read, and its bracket. */
  function ReadItems(lib: Library, s: string, p: nat, depth: nat, read: seq<Value>): (r: Option<(seq<Value>, nat)>)
    requires p <= |s|
    ensures r.Some? ==> p < r.value.1 <= |s|
    decreases |s| - p, 1
  {
    var q := Skip(s, p);
    if q >= |s| then None
    else if s[q] == ']' then Some((read, q + 1))
    else
      var v := ReadValue(lib, s, q, depth + 1);
      if v.None? then None else ReadItems(lib, s, v.value.1, depth, read + [v.value.0])
  }

  /** Past the colon after a member's name, if there is one. */
  function PastColon(s: string, p: nat): (q: nat)
    requires p <= |s|
    ensures p <= q <= |s|
  {
    var q := Skip(s, p);
    if q < |s| && s[q] == ':' then q + 1 else q
  }

  function ReadFields(lib: Library, s: string, p: nat, depth: nat, read: map<string, Value>)
    : (r: Option<(map<string, Value>, nat)>)
    requires p <= |s|
    ensures r.Some? ==> p < r.value.1 <= |s|
    decreases |s| - p, 1
  {
    var q := Skip(s, p);
    if q >= |s| then None
    else if s[q] == '}' then Some((read, q + 1))
    else
      var end := NameEnd(s, q);
      if end == q then None
      else
        var v := ReadValue(lib, s, PastColon(s, end), depth + 1);
        if v.None? then None else ReadFields(lib, s, v.value.1, depth, read[s[q..end] := v.value.0])
  }

  type Arguments = map<string, Value>

  /** Arguments after those read, up to the closing parenthesis. */
  function ReadArguments(lib: Library, s: string, p: nat, read: Arguments): Option<Arguments>
    requires p <= |s|
    decreases |s| - p
  {
    var q := Skip(s, p);
    if q >= |s| then None
    else if s[q] == ')' then Some(read)
    else
      var end := NameEnd(s, q);
      if end == q then None
      else
        var v := ReadValue(lib, s, Skip(s, PastColon(s, end)), 0);
        if v.None? then None else ReadArguments(lib, s, v.value.1, read[s[q..end] := v.value.0])
  }

  // ---------------------------------------------------------------- the field a document selects

  /** A field and its arguments, none of them when it is written without or when they could not all be
      read. */
  datatype Field = Field(name: string, args: Option<Arguments>, bad: bool)

  const UNKNOWN := Field("Unknown", None, false)
  const MAX_SPREADS := 8

  /** The field named at p, under an alias or not. */
  function FieldAt(lib: Library, s: string, p: nat): Field
    requires p <= |s|
  {
    var first := NameEnd(s, p);
    var colon := Skip(s, first);
    var aliased := colon < |s| && s[colon] == ':';
    var start := if aliased then Skip(s, colon + 1) else p;
    var end := NameEnd(s, start);
    if first == p || end == start then UNKNOWN
    else
      var open := Skip(s, end);
      if open >= |s| || s[open] != '(' then Field(s[start..end], None, false)
      else
        var args := ReadArguments(lib, s, open + 1, map[]);
        Field(s[start..end], args, args.None?)
  }

  /** Where a spread leads: into an inline fragment, or to the definition of a named one. */
  function SpreadTarget(s: string, p: nat): (q: Option<nat>)
    requires p <= |s|
    ensures q.Some? ==> q.value <= |s|
  {
    var start := Skip(s, p);
    var end := NameEnd(s, start);
    var word := s[start..end];
    if word == "" then ToSelectionSet(s, end, 0)
    else if word == "on" then ToSelectionSet(s, NameEnd(s, Skip(s, end)), 0)
    else SeekFragment(s, word, 0)
  }

  const SPREAD := "..."

  function Selection(lib: Library, s: string, p: nat, depth: nat): Field
    requires p <= |s|
    decreases MAX_SPREADS + 1 - depth
  {
    if depth > MAX_SPREADS then UNKNOWN
    else
      var q := Skip(s, p);
      if At(s, q, SPREAD) then
        var inside := SpreadTarget(s, q + 3);
        if inside.None? then UNKNOWN else Selection(lib, s, inside.value, depth + 1)
      else FieldAt(lib, s, q)
  }

  const OPERATIONS := {"query", "mutation", "subscription"}

  function RootField(lib: Library, s: string, p: nat): Field
    requires p <= |s|
    decreases |s| - p
  {
    var q := Skip(s, p);
    if q >= |s| then UNKNOWN
    else if s[q] == '{' then Selection(lib, s, q + 1, 0)
    else
      var end := NameEnd(s, q);
      var word := s[q..end];
      var inside := ToSelectionSet(s, end, 0);
      if word in OPERATIONS then
        if inside.None? then UNKNOWN else Selection(lib, s, inside.value, 0)
      else if word == FRAGMENT && inside.Some? && SkipBlock(s, inside.value, 1).Some? then
        RootField(lib, s, SkipBlock(s, inside.value, 1).value)
      else UNKNOWN
  }
}
