/** The file a recording proxy keeps its interactions in: lines of fields, and bodies by length
    (internal/proxy/proxy.go). */
module Cassettes {
  import opened Options
  import opened Decimals
  import opened Texts

  type Headers = map<string, seq<string>>

  datatype Interaction = Interaction(
    key: string, verb: string, path: string, query: string,
    requestHeaders: Headers, requestBody: string,
    status: int, responseHeaders: Headers, responseBody: string)

  // ---------------------------------------------------------------- header names

  const SKIPPED := {"Content-Length", "Transfer-Encoding", "Connection", "Keep-Alive", "Trailer", "Upgrade",
    "Proxy-Connection"}

  predicate Skipped(name: string) {
    Canonical(name) in SKIPPED
  }

  // ---------------------------------------------------------------- writing

  const PREFIX := "=== "
  const HEADING := "# mirror.cloud cassette v1\n"

  /** A field's line, and what stands after it. */
  function Line(name: string, value: string, more: string): string {
    name + ": " + value + ("\n" + more)
  }

  function ValueLines(field: string, name: string, values: seq<string>, more: string): string {
    if values == [] then more else Line(field, name + ": " + values[0], ValueLines(field, name, values[1..], more))
  }

  function HeaderLines(field: string, h: Headers, names: seq<string>, more: string): string
    requires forall k :: k in names ==> k in h
  {
    if names == [] then more
    else ValueLines(field, names[0], h[names[0]], HeaderLines(field, h, names[1..], more))
  }

  function NamesWritten(h: Headers): (names: seq<string>)
    ensures forall k :: k in names <==> k in h && !Skipped(k)
    ensures forall i, j :: 0 <= i < j < |names| ==> names[i] != names[j]
  {
    var names := Sorted(set k | k in h && !Skipped(k));
    AscendingDiffer(names);
    names
  }

  const METHOD := "method"
  const PATH := "path"
  const QUERY := "query"
  const STATUS := "status"

  function HeaderField(request: bool): string {
    if request then "req-header" else "resp-header"
  }

  function BodyField(request: bool): string {
    if request then "req-body" else "resp-body"
  }

  function HeadersOf(i: Interaction, request: bool): Headers {
    if request then i.requestHeaders else i.responseHeaders
  }

  function BodyOf(i: Interaction, request: bool): string {
    if request then i.requestBody else i.responseBody
  }

  function WithHeaders(i: Interaction, request: bool, h: Headers): Interaction {
    if request then i.(requestHeaders := h) else i.(responseHeaders := h)
  }

  function WithBody(i: Interaction, request: bool, body: string): Interaction {
    if request then i.(requestBody := body) else i.(responseBody := body)
  }

  /** One side's headers and body. */
  function Side(i: Interaction, request: bool, more: string): string {
    var h, body := HeadersOf(i, request), BodyOf(i, request);
    HeaderLines(HeaderField(request), h, NamesWritten(h),
      Line(BodyField(request), Itoa(|body|), body + ("\n" + more)))
  }

  /** One interaction's text, and what stands after it. */
  function Record(i: Interaction, more: string): string {
    "\n" + (PREFIX + i.key + ("\n" +
    Line(METHOD, i.verb, Line(PATH, i.path, Line(QUERY, i.query,
    Side(i, true, Line(STATUS, Itoa(i.status), Side(i, false, more))))))))
  }

  type Store = map<string, Interaction>

  function Records(store: Store, keys: seq<string>): string
    requires forall k :: k in keys ==> k in store
  {
    if keys == [] then "" else Record(store[keys[0]], Records(store, keys[1..]))
  }

  function Written(store: Store): string {
    HEADING + Records(store, Sorted(store.Keys))
  }

  // ---------------------------------------------------------------- reading

  function Unspaced(s: string): string {
    if s != "" && s[0] == ' ' then s[1..] else s
  }

  /** Before the first of c and after it, less one space. */
  function Split(s: string, c: char): Option<(string, string)> {
    var i := Index(s, c);
    if i == |s| then None else Some((s[..i], Unspaced(s[i + 1..])))
  }

  function SplitHeader(s: string): (string, string) {
    var parts := Split(s, ':');
    if parts.None? then (s, "") else parts.value
  }

  function NumberOrZero(s: string): int {
    var n := Atoi(s);
    if n.None? then 0 else n.value
  }

  /** A body of n bytes and the line end after it, if one is there. */
  function ReadBlock(rest: string, n: int): Option<(string, string)> {
    var size := if n < 0 then 0 else n;
    if size > |rest| then None
    else
      var body, after := rest[..size], rest[size..];
      Some((body,
        if after != "" && after[0] == '\r' then (if |after| < 2 then "" else after[2..])
        else if after != "" && after[0] == '\n' then after[1..] else after))
  }

  function AddHeader(h: Headers, name: string, value: string): Headers {
    var k := Canonical(name);
    h[k := (if k in h then h[k] else []) + [value]]
  }

  /** The record being read and those before it. */
  datatype State = State(cur: Option<Interaction>, out: Store)

  function Close(st: State): Store {
    if st.cur.Some? && st.cur.value.key != "" then st.out[st.cur.value.key := st.cur.value] else st.out
  }

  function Fresh(key: string): Interaction {
    Interaction(key, "", "", "", map[], "", 0, map[], "")
  }

  /** What a named value makes of the current record, and what is left to read after it. */
  function TakeValue(name: string, value: string, rest: string, cur: Interaction): (r: Option<(Interaction, string)>)
    ensures r.Some? ==> |r.value.1| <= |rest|
  {
    if name == METHOD then Some((cur.(verb := value), rest))
    else if name == PATH then Some((cur.(path := value), rest))
    else if name == QUERY then Some((cur.(query := value), rest))
    else if name == STATUS then Some((cur.(status := NumberOrZero(value)), rest))
    else if name == HeaderField(true) || name == HeaderField(false) then
      var request := name == HeaderField(true);
      var (k, v) := SplitHeader(value);
      Some((WithHeaders(cur, request, AddHeader(HeadersOf(cur, request), k, v)), rest))
    else if name == BodyField(true) || name == BodyField(false) then
      var block := ReadBlock(rest, NumberOrZero(value));
      if block.None? then None
      else Some((WithBody(cur, name == BodyField(true), block.value.0), block.value.1))
    else Some((cur, rest))
  }

  function TakeField(line: string, rest: string, cur: Interaction): (r: Option<(Interaction, string)>)
    ensures r.Some? ==> |r.value.1| <= |rest|
  {
    var field := Split(line, ':');
    if field.None? then Some((cur, rest)) else TakeValue(field.value.0, field.value.1, rest, cur)
  }

  function TakeLine(line: string, rest: string, st: State): (r: Option<(State, string)>)
    ensures r.Some? ==> |r.value.1| <= |rest|
  {
    if line == "" || line[0] == '#' then Some((st, rest))
    else if PREFIX <= line then Some((State(Some(Fresh(line[|PREFIX|..])), Close(st)), rest))
    else if st.cur.None? then Some((st, rest))
    else
      var r := TakeField(line, rest, st.cur.value);
      if r.None? then None else Some((st.(cur := Some(r.value.0)), r.value.1))
  }

  function TrimEnd(s: string): (t: string)
    ensures t <= s && (t == "" || (t[|t| - 1] != '\r' && t[|t| - 1] != '\n'))
    ensures s == "" || (s[|s| - 1] != '\r' && s[|s| - 1] != '\n') ==> t == s
  {
    if s != "" && (s[|s| - 1] == '\r' || s[|s| - 1] == '\n') then TrimEnd(s[..|s| - 1]) else s
  }

  /** What the rest of a file adds to what was read of it. */
  function Read(rest: string, st: State): Option<Store>
    decreases |rest|
  {
    var i := Index(rest, '\n');
    var line := TrimEnd(rest[..i]);
    if i == |rest| then
      var r := TakeLine(line, "", st);
      if r.None? then None else Some(Close(r.value.0))
    else
      var r := TakeLine(line, rest[i + 1..], st);
      if r.None? then None else Read(r.value.1, r.value.0)
  }

  function Parse(data: string): Option<Store> {
    Read(data, State(None, map[]))
  }
}
