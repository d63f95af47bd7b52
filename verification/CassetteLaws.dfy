/** A cassette read back: what is written comes back the same, exactly when its lines keep to
    themselves and its headers are ones that are written. */
module CassetteLaws {
  import opened Options
  import opened Decimals
  import opened Texts
  import opened Cassettes

  // ---------------------------------------------------------------- what fits

  predicate FitsLine(s: string) {
    '\n' !in s && (s == "" || s[|s| - 1] != '\r')
  }

  predicate NameFits(name: string) {
    ':' !in name && '\n' !in name && Canonical(name) == name
  }

  predicate ValuesFit(values: seq<string>) {
    forall i :: 0 <= i < |values| ==> FitsLine(values[i])
  }

  predicate HeadersFit(h: Headers) {
    forall k :: k in h ==> NameFits(k) && ValuesFit(h[k])
  }

  predicate Fits(i: Interaction) {
    && i.key != "" && FitsLine(i.key) && FitsLine(i.verb) && FitsLine(i.path) && FitsLine(i.query)
    && HeadersFit(i.requestHeaders) && HeadersFit(i.responseHeaders)
  }

  /** Every interaction fits its lines and stands under its own key. */
  predicate StoreFits(store: Store) {
    forall k :: k in store ==> store[k].key == k && Fits(store[k])
  }

  /** The headers that are written: those not skipped that have a value. */
  function Kept(h: Headers): Headers {
    map k | k in h && !Skipped(k) && h[k] != [] :: h[k]
  }

  function Stored(i: Interaction): Interaction {
    i.(requestHeaders := Kept(i.requestHeaders), responseHeaders := Kept(i.responseHeaders))
  }

  function StoredAll(store: Store): Store {
    map k | k in store :: Stored(store[k])
  }

  // ---------------------------------------------------------------- one line

  /** What a line and its reading come to. */
  function After(r: Option<(State, string)>): Option<Store> {
    if r.None? then None else Read(r.value.1, r.value.0)
  }

  lemma ReadLine(line: string, more: string, st: State)
    requires FitsLine(line)
    ensures Read(line + ("\n" + more), st) == After(TakeLine(line, more, st))
  {
    hide TakeLine;
    var s := line + ("\n" + more);
    assert s == line + ['\n'] + more;
    IndexAt(line, '\n', more);
    assert s[..|line|] == line && s[|line| + 1..] == more;
  }

  lemma SplitAt(name: string, value: string)
    requires ':' !in name
    ensures Split(name + ": " + value, ':') == Some((name, value))
  {
    var s := name + ": " + value;
    assert s == name + [':'] + (" " + value);
    IndexAt(name, ':', " " + value);
    assert s[..|name|] == name && s[|name| + 1..] == " " + value;
    assert (" " + value)[1..] == value;
  }

  const FIELDS :=
    {METHOD, PATH, QUERY, STATUS, HeaderField(true), HeaderField(false), BodyField(true), BodyField(false)}

  /** A field's line, read into the current record. */
  lemma ReadField(name: string, value: string, more: string, cur: Interaction, out: Store)
    requires name in FIELDS && FitsLine(value)
    ensures var r := TakeValue(name, value, more, cur);
      Read(Line(name, value, more), State(Some(cur), out)) ==
      if r.None? then None else Read(r.value.1, State(Some(r.value.0), out))
  {
    hide TakeValue, Read;
    var line := name + ": " + value;
    assert ':' !in name && '\n' !in name && name != "" && name[0] != '#' && name[0] != '=';
    SplitAt(name, value);
    assert line[0] == name[0] && line[|line| - 1] == if value == "" then ' ' else value[|value| - 1];
    ReadLine(line, more, State(Some(cur), out));
  }

  // ---------------------------------------------------------------- headers

  function Extended(h: Headers, name: string, values: seq<string>): Headers {
    if values == [] then h else h[name := (if name in h then h[name] else []) + values]
  }

  lemma ExtendedJoins(h: Headers, name: string, values: seq<string>)
    requires values != []
    ensures Extended(Extended(h, name, [values[0]]), name, values[1..]) == Extended(h, name, values)
  {
    var before := if name in h then h[name] else [];
    var v, rest := [values[0]], values[1..];
    assert values == v + rest;
    assert before + values == (before + v) + rest;
    var a, b := Extended(Extended(h, name, v), name, rest), Extended(h, name, values);
    assert rest == [] ==> before + v == before + values;
    assert a[name] == b[name] == before + values;
    assert a.Keys == b.Keys && forall k :: k in a ==> a[k] == b[k];
  }

  lemma {:induction false} ValuesRead(request: bool, name: string, values: seq<string>, more: string,
          cur: Interaction, out: Store)
    requires NameFits(name) && ValuesFit(values)
    ensures Read(ValueLines(HeaderField(request), name, values, more), State(Some(cur), out)) ==
      Read(more, State(Some(WithHeaders(cur, request, Extended(HeadersOf(cur, request), name, values))), out))
    decreases |values|
  {
    hide Read, Canonical, Line;
    var h := HeadersOf(cur, request);
    if values != [] {
      var v := values[0];
      var rest := ValueLines(HeaderField(request), name, values[1..], more);
      var next := Extended(h, name, [v]);
      ReadField(HeaderField(request), name + ": " + v, rest, cur, out);
      SplitAt(name, v);
      assert Canonical(name) == name;
      assert AddHeader(h, name, v) == next;
      ValuesRead(request, name, values[1..], more, WithHeaders(cur, request, next), out);
      ExtendedJoins(h, name, values);
    }
  }

  /** The headers of some names, those without a value left out. */
  function Valued(h: Headers, names: seq<string>): Headers {
    map k | k in h && k in names && h[k] != [] :: h[k]
  }

  function Over(g: Headers, h: Headers, names: seq<string>): Headers {
    g + Valued(h, names)
  }

  lemma OverJoins(g: Headers, h: Headers, names: seq<string>)
    requires names != [] && (forall k :: k in names ==> k in h && k !in g) && names[0] !in names[1..]
    ensures var next := Extended(g, names[0], h[names[0]]);
      (forall k :: k in names[1..] ==> k in h && k !in next) && Over(next, h, names[1..]) == Over(g, h, names)
  {
    var name := names[0];
    var next := Extended(g, name, h[name]);
    assert [] + h[name] == h[name];
    var a, b := Over(next, h, names[1..]), Over(g, h, names);
    forall k
      ensures (k in a <==> k in b) && (k in a ==> a[k] == b[k])
    {
      NextAt(g, h, names, k);
    }
  }

  lemma NextAt(g: Headers, h: Headers, names: seq<string>, k: string)
    requires names != [] && names[0] in h && names[0] !in g && names[0] !in names[1..]
    ensures var a, b := Over(Extended(g, names[0], h[names[0]]), h, names[1..]), Over(g, h, names);
      (k in a <==> k in b) && (k in a ==> a[k] == b[k])
  {
    assert [] + h[names[0]] == h[names[0]];
    assert k in names <==> k == names[0] || k in names[1..];
  }

  lemma {:induction false} HeadersRead(request: bool, g: Headers, h: Headers, names: seq<string>,
          more: string, cur: Interaction, out: Store)
    requires HeadersFit(h) && (forall k :: k in names ==> k in h && k !in g) && HeadersOf(cur, request) == g
    requires forall i, j :: 0 <= i < j < |names| ==> names[i] != names[j]
    ensures Read(HeaderLines(HeaderField(request), h, names, more), State(Some(cur), out)) ==
      Read(more, State(Some(WithHeaders(cur, request, Over(g, h, names))), out))
    decreases |names|
  {
    hide Read, ValueLines, NameFits, ValuesFit;
    if names == [] {
      assert Over(g, h, names) == g;
    } else {
      var name := names[0];
      var next := Extended(g, name, h[name]);
      var rest := HeaderLines(HeaderField(request), h, names[1..], more);
      ValuesRead(request, name, h[name], rest, cur, out);
      assert name !in names[1..];
      OverJoins(g, h, names);
      HeadersRead(request, next, h, names[1..], more, WithHeaders(cur, request, next), out);
    }
  }

  // ---------------------------------------------------------------- bodies

  lemma BodyRead(body: string, more: string)
    ensures ReadBlock(body + ("\n" + more), |body|) == Some((body, more))
  {
    var s := body + ("\n" + more);
    assert s[..|body|] == body && s[|body|..] == "\n" + more;
    assert ("\n" + more)[1..] == more;
  }

  lemma {:induction false} DigitsFit(n: nat)
    ensures forall c :: c in Digits(n) ==> IsDigit(c)
  {
  }

  lemma ItoaFits(n: int)
    ensures FitsLine(Itoa(n))
  {
    DigitsFit(if n < 0 then -n else n);
    var s := Itoa(n);
    assert s[|s| - 1] in s;
    hide Digits;
  }

  /** One side of a record. */
  lemma SideRead(i: Interaction, request: bool, more: string, cur: Interaction, out: Store)
    requires HeadersFit(HeadersOf(i, request)) && HeadersOf(cur, request) == map[]
    ensures Read(Side(i, request, more), State(Some(cur), out)) ==
      Read(more, State(Some(
        WithBody(WithHeaders(cur, request, Kept(HeadersOf(i, request))), request, BodyOf(i, request))), out))
  {
    hide Read, Line, HeaderLines, HeadersFit, Itoa, Atoi, ReadBlock;
    var h, body := HeadersOf(i, request), BodyOf(i, request);
    var names := NamesWritten(h);
    var last := Line(BodyField(request), Itoa(|body|), body + ("\n" + more));
    HeadersRead(request, map[], h, names, last, cur, out);
    assert Over(map[], h, names) == Kept(h);
    var next := WithHeaders(cur, request, Kept(h));
    ItoaFits(|body|);
    ItoaReads(|body|);
    ReadField(BodyField(request), Itoa(|body|), body + ("\n" + more), next, out);
    BodyRead(body, more);
  }

  // ---------------------------------------------------------------- records

  /** The lines that open a record. */
  lemma OpeningRead(key: string, more: string, st: State)
    requires FitsLine(key)
    ensures Read("\n" + (PREFIX + key + ("\n" + more)), st) == Read(more, State(Some(Fresh(key)), Close(st)))
  {
    hide Read;
    var title := PREFIX + key;
    var rest := title + ("\n" + more);
    ReadLine("", rest, st);
    assert "" + ("\n" + rest) == "\n" + rest;
    assert title[|title| - 1] == if key == "" then ' ' else key[|key| - 1];
    ReadLine(title, more, st);
    assert title[|PREFIX|..] == key && PREFIX <= title && title[0] == '=';
  }

  /** A record's text, read whatever stood before it. */
  lemma RecordRead(i: Interaction, more: string, st: State)
    requires Fits(i)
    ensures Read(Record(i, more), st) == Read(more, State(Some(Stored(i)), Close(st)))
  {
    hide Read, Line, Side, HeadersFit, Close, Itoa, Atoi, FitsLine;
    var answer := Side(i, false, more);
    var status := Line(STATUS, Itoa(i.status), answer);
    var request := Side(i, true, status);
    var query := Line(QUERY, i.query, request);
    var path := Line(PATH, i.path, query);
    var verb := Line(METHOD, i.verb, path);
    var out, c0 := Close(st), Fresh(i.key);
    OpeningRead(i.key, verb, st);
    ReadField(METHOD, i.verb, path, c0, out);
    var c1 := c0.(verb := i.verb);
    ReadField(PATH, i.path, query, c1, out);
    var c2 := c1.(path := i.path);
    ReadField(QUERY, i.query, request, c2, out);
    var c3 := c2.(query := i.query);
    SideRead(i, true, status, c3, out);
    var c4 := c3.(requestHeaders := Kept(i.requestHeaders), requestBody := i.requestBody);
    ItoaFits(i.status);
    ItoaReads(i.status);
    ReadField(STATUS, Itoa(i.status), answer, c4, out);
    var c5 := c4.(status := i.status);
    SideRead(i, false, more, c5, out);
  }

  function StoredAt(store: Store, keys: seq<string>): Store {
    map k | k in store && k in keys :: Stored(store[k])
  }

  lemma {:induction false} RecordsRead(store: Store, keys: seq<string>, st: State)
    requires StoreFits(store) && forall k :: k in keys ==> k in store
    ensures Read(Records(store, keys), st) == Some(Close(st) + StoredAt(store, keys))
    decreases |keys|
  {
    hide Record, Fits, Stored;
    if keys == [] {
      assert TrimEnd(""[..0]) == "";
      assert StoredAt(store, keys) == map[];
      assert Close(st) + StoredAt(store, keys) == Close(st);
    } else {
      hide Read;
      var k := keys[0];
      var next := State(Some(Stored(store[k])), Close(st));
      RecordRead(store[k], Records(store, keys[1..]), st);
      RecordsRead(store, keys[1..], next);
      StoredKey(store[k]);
      hide Records, StoreFits;
      var a, b := Close(next) + StoredAt(store, keys[1..]), Close(st) + StoredAt(store, keys);
      assert forall j :: j in keys <==> j == k || j in keys[1..];
      assert a.Keys == b.Keys;
      assert a == b;
    }
  }

  lemma StoredKey(i: Interaction)
    requires Fits(i)
    ensures Stored(i).key == i.key != ""
  {
  }

  /** What a cassette comes back as: everything but the headers that are not written. */
  lemma WrittenIsRead(store: Store)
    requires StoreFits(store)
    ensures Parse(Written(store)) == Some(StoredAll(store))
  {
    hide Read, Records, StoreFits;
    var heading, keys := HEADING[..|HEADING| - 1], Sorted(store.Keys);
    var st := State(None, map[]);
    ReadLine(heading, Records(store, keys), st);
    assert heading + ("\n" + Records(store, keys)) == Written(store);
    RecordsRead(store, keys, st);
    assert map[] + StoredAt(store, keys) == StoredAll(store);
  }

  // ---------------------------------------------------------------- what is read fits

  predicate StateFits(st: State) {
    && StoreFits(st.out)
    && (st.cur.Some? ==> st.cur.value.key == "" || Fits(st.cur.value))
    && (st.cur.Some? ==> Fits(st.cur.value.(key := "k")))
  }

  lemma CanonicalFits(name: string)
    requires ':' !in name && '\n' !in name
    ensures NameFits(Canonical(name))
  {
    CasedKeeps(name, true);
    hide Cased;
    var c := Cased(name, true);
    if forall i :: 0 <= i < |name| ==> Token(name[i]) {
      forall i | 0 <= i < |c|
        ensures c[i] != ':' && c[i] != '\n'
      {
        assert Token(c[i]);
      }
    }
  }

  lemma SplitFits(s: string, c: char)
    requires FitsLine(s)
    ensures var parts := Split(s, c);
      parts.Some? ==> FitsLine(parts.value.1) && c !in parts.value.0 && '\n' !in parts.value.0
  {
    var i := Index(s, c);
    if i < |s| {
      var t := s[i + 1..];
      assert t != "" ==> t[|t| - 1] == s[|s| - 1];
      assert forall x :: x in t ==> x in s;
      var u := Unspaced(t);
      assert u != "" ==> u[|u| - 1] == t[|t| - 1];
      assert forall x :: x in u ==> x in t;
    }
  }

  lemma TrimEndFits(s: string)
    requires '\n' !in s
    ensures FitsLine(TrimEnd(s))
  {
    var t := TrimEnd(s);
    assert forall i :: 0 <= i < |t| ==> t[i] == s[i];
  }

  lemma HeaderFits(h: Headers, value: string)
    requires HeadersFit(h) && FitsLine(value)
    ensures HeadersFit(AddHeader(h, SplitHeader(value).0, SplitHeader(value).1))
  {
    SplitFits(value, ':');
    var (name, v) := SplitHeader(value);
    assert Split(value, ':').None? ==> ':' !in value by {
      assert value[..|value|] == value;
    }
    CanonicalFits(name);
  }

  lemma FieldFits(line: string, rest: string, cur: Interaction)
    requires FitsLine(line) && Fits(cur.(key := "k"))
    ensures var r := TakeField(line, rest, cur);
      r.Some? ==> Fits(r.value.0.(key := "k")) && r.value.0.key == cur.key
  {
    hide FitsLine, HeadersFit, Split, AddHeader, SplitHeader, ReadBlock, NumberOrZero;
    SplitFits(line, ':');
    var field := Split(line, ':');
    if field.Some? {
      var value := field.value.1;
      HeaderFits(cur.requestHeaders, value);
      HeaderFits(cur.responseHeaders, value);
    }
  }

  lemma LineFits(line: string, rest: string, st: State)
    requires FitsLine(line) && StateFits(st)
    ensures var r := TakeLine(line, rest, st); r.Some? ==> StateFits(r.value.0)
  {
    hide TakeField, Close, FitsLine, StoreFits, HeadersFit;
    CloseFits(st);
    if PREFIX <= line {
      TitleFits(line);
    }
    if st.cur.Some? {
      FieldFits(line, rest, st.cur.value);
    }
  }

  lemma TitleFits(line: string)
    requires FitsLine(line) && PREFIX <= line
    ensures var i := Fresh(line[|PREFIX|..]); Fits(i.(key := "k")) && FitsLine(i.key)
  {
    var key := line[|PREFIX|..];
    assert forall c :: c in key ==> c in line;
    assert key != "" ==> key[|key| - 1] == line[|line| - 1];
  }

  lemma {:induction false} ReadFits(rest: string, st: State)
    requires StateFits(st)
    ensures Read(rest, st).Some? ==> StoreFits(Read(rest, st).value)
    decreases |rest|
  {
    hide TakeLine, StateFits;
    var i := Index(rest, '\n');
    var line := TrimEnd(rest[..i]);
    TrimEndFits(rest[..i]);
    var after := if i == |rest| then "" else rest[i + 1..];
    LineFits(line, after, st);
    var r := TakeLine(line, after, st);
    if r.Some? {
      CloseFits(r.value.0);
      if i < |rest| {
        ReadFits(r.value.1, r.value.0);
      }
    }
  }

  lemma CloseFits(st: State)
    requires StateFits(st)
    ensures StoreFits(Close(st))
  {
    hide Fits;
  }

  // ---------------------------------------------------------------- the round trip, exactly

  predicate AllKept(h: Headers) {
    forall k :: k in h ==> !Skipped(k) && h[k] != []
  }

  /** A cassette comes back as it was if and only if every interaction fits and has only headers that
      are written. */
  lemma RoundTripExactly(store: Store)
    ensures Parse(Written(store)) == Some(store) <==>
      StoreFits(store) && forall k :: k in store ==>
          AllKept(store[k].requestHeaders) && AllKept(store[k].responseHeaders)
  {
    hide Read, Written, Fits, Skipped;
    EmptyFits();
    ReadFits(Written(store), State(None, map[]));
    if StoreFits(store) {
      WrittenIsRead(store);
      forall k | k in store
        ensures Stored(store[k]) == store[k] <==> AllKept(store[k].requestHeaders) && AllKept(store[k].responseHeaders)
      {
        KeptExactly(store[k].requestHeaders);
        KeptExactly(store[k].responseHeaders);
      }
      assert StoredAll(store) == store <==> forall k :: k in store ==> Stored(store[k]) == store[k];
    }
  }

  lemma EmptyFits()
    ensures StateFits(State(None, map[]))
  {
  }

  lemma KeptExactly(h: Headers)
    ensures Kept(h) == h <==> AllKept(h)
  {
    hide Skipped;
    if Kept(h) == h {
      forall k | k in h
        ensures !Skipped(k) && h[k] != []
      {
        assert k in Kept(h);
      }
    }
  }
}
