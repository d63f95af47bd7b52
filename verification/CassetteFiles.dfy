/** A cassette kept in memory, written to a file and loaded from one, a buffer and a reader at a time
    (internal/proxy/proxy.go). */
module CassetteFiles {
  import opened Options
  import opened Decimals
  import opened Texts
  import opened Cassettes
  import opened CassetteLaws

  // ---------------------------------------------------------------- what is written follows on

  lemma LineJoins(name: string, value: string, more: string)
    ensures Line(name, value, more) == Line(name, value, "") + more
  {
    assert "\n" + more == ("\n" + "") + more;
  }

  lemma {:induction false} ValueLinesJoin(field: string, name: string, values: seq<string>, more: string)
    ensures ValueLines(field, name, values, more) == ValueLines(field, name, values, "") + more
    decreases |values|
  {
    if values != [] {
      var v := name + ": " + values[0];
      ValueLinesJoin(field, name, values[1..], more);
      LineJoins(field, v, ValueLines(field, name, values[1..], more));
      LineJoins(field, v, ValueLines(field, name, values[1..], ""));
    }
  }

  lemma {:induction false} HeaderLinesJoin(field: string, h: Headers, names: seq<string>, more: string)
    requires forall k :: k in names ==> k in h
    ensures HeaderLines(field, h, names, more) == HeaderLines(field, h, names, "") + more
    decreases |names|
  {
    hide ValueLines;
    if names != [] {
      HeaderLinesJoin(field, h, names[1..], more);
      ValueLinesJoin(field, names[0], h[names[0]], HeaderLines(field, h, names[1..], more));
      ValueLinesJoin(field, names[0], h[names[0]], HeaderLines(field, h, names[1..], ""));
    }
  }

  lemma SideJoins(i: Interaction, request: bool, more: string)
    ensures Side(i, request, more) == Side(i, request, "") + more
  {
    hide HeaderLines, Line, Itoa;
    var h, body := HeadersOf(i, request), BodyOf(i, request);
    var size := Itoa(|body|);
    LineJoins(BodyField(request), size, body + ("\n" + more));
    LineJoins(BodyField(request), size, body + ("\n" + ""));
    assert body + ("\n" + more) == body + ("\n" + "") + more;
    HeaderLinesJoin(HeaderField(request), h, NamesWritten(h), Line(BodyField(request), size, body + ("\n" + more)));
    HeaderLinesJoin(HeaderField(request), h, NamesWritten(h), Line(BodyField(request), size, body + ("\n" + "")));
  }

  lemma RecordJoins(i: Interaction, more: string)
    ensures Record(i, more) == Record(i, "") + more
  {
    hide Side, Line, Itoa;
    var a, b := Side(i, false, more), Side(i, false, "");
    SideJoins(i, false, more);
    var c, d := Line(STATUS, Itoa(i.status), a), Line(STATUS, Itoa(i.status), b);
    LineJoins(STATUS, Itoa(i.status), a);
    LineJoins(STATUS, Itoa(i.status), b);
    SideJoins(i, true, c);
    SideJoins(i, true, d);
    FieldsJoin(i, Side(i, true, d), more);
    assert Side(i, true, c) == Side(i, true, d) + more;
  }

  function Opening(i: Interaction, more: string): string {
    "\n" + (PREFIX + i.key + ("\n" + Line(METHOD, i.verb, Line(PATH, i.path, Line(QUERY, i.query, more)))))
  }

  lemma LineTakesMore(name: string, value: string, text: string, more: string)
    ensures Line(name, value, text + more) == Line(name, value, text) + more
  {
    hide Line;
    LineJoins(name, value, text + more);
    LineJoins(name, value, text);
    assert Line(name, value, "") + (text + more) == Line(name, value, "") + text + more;
  }

  lemma FieldsJoin(i: Interaction, text: string, more: string)
    ensures Opening(i, text + more) == Opening(i, text) + more
  {
    hide Line;
    LineTakesMore(QUERY, i.query, text, more);
    var q := Line(QUERY, i.query, text);
    LineTakesMore(PATH, i.path, q, more);
    var p := Line(PATH, i.path, q);
    LineTakesMore(METHOD, i.verb, p, more);
    var m := Line(METHOD, i.verb, p);
    var t := PREFIX + i.key + ("\n" + m);
    assert PREFIX + i.key + ("\n" + (m + more)) == t + more;
    assert "\n" + (t + more) == "\n" + t + more;
  }

  // ---------------------------------------------------------------- writing

  lemma HeaderLinesEnd(field: string, h: Headers, names: seq<string>)
    requires names == []
    ensures HeaderLines(field, h, names, "") == ""
  {
  }

  lemma HeaderLinesStep(field: string, h: Headers, names: seq<string>, i: nat)
    requires i < |names| && forall k :: k in names ==> k in h
    ensures HeaderLines(field, h, names[i..], "") ==
      ValueLines(field, names[i], h[names[i]], "") + HeaderLines(field, h, names[i + 1..], "")
  {
    hide ValueLines;
    assert names[i..][0] == names[i] && names[i..][1..] == names[i + 1..];
    ValueLinesJoin(field, names[i], h[names[i]], HeaderLines(field, h, names[i + 1..], ""));
  }

  method WriteHeaders(buffer: string, field: string, h: Headers) returns (written: string)
    ensures written == buffer + HeaderLines(field, h, NamesWritten(h), "")
  {
    written := WriteEach(buffer, field, h, NamesWritten(h));
  }

  method WriteEach(buffer: string, field: string, h: Headers, names: seq<string>) returns (written: string)
    requires forall k :: k in names ==> k in h
    ensures written == buffer + HeaderLines(field, h, names, "")
  {
    hide ValueLines, HeaderLines;
    written := buffer;
    assert names[0..] == names;
    for i := 0 to |names|
      invariant written + HeaderLines(field, h, names[i..], "") == buffer + HeaderLines(field, h, names, "")
    {
      ghost var before, rest := written, HeaderLines(field, h, names[i + 1..], "");
      HeaderLinesStep(field, h, names, i);
      written := WriteValues(written, field, names[i], h[names[i]]);
      assert before + (ValueLines(field, names[i], h[names[i]], "") + rest) == written + rest;
    }
    HeaderLinesEnd(field, h, names[|names|..]);
    assert written + "" == written;
  }

  method WriteValues(buffer: string, field: string, name: string, values: seq<string>) returns (written: string)
    ensures written == buffer + ValueLines(field, name, values, "")
  {
    written := buffer;
    assert values[0..] == values;
    for j := 0 to |values|
      invariant written + ValueLines(field, name, values[j..], "") == buffer + ValueLines(field, name, values, "")
    {
      ghost var rest := ValueLines(field, name, values[j + 1..], "");
      assert values[j..][0] == values[j] && values[j..][1..] == values[j + 1..];
      LineJoins(field, name + ": " + values[j], rest);
      ghost var before := written;
      written := written + Line(field, name + ": " + values[j], "");
      assert before + (Line(field, name + ": " + values[j], "") + rest) == written + rest;
    }
    assert written + "" == written;
  }

  method WriteSide(buffer: string, i: Interaction, request: bool) returns (written: string)
    ensures written == buffer + Side(i, request, "")
  {
    hide HeaderLines, NamesWritten, Line, Itoa;
    var h, body := HeadersOf(i, request), BodyOf(i, request);
    written := WriteHeaders(buffer, HeaderField(request), h);
    ghost var headers := HeaderLines(HeaderField(request), h, NamesWritten(h), "");
    written := written + Line(BodyField(request), Itoa(|body|), "");
    written := written + body;
    written := written + "\n";
    ghost var last := Line(BodyField(request), Itoa(|body|), body + ("\n" + ""));
    LineJoins(BodyField(request), Itoa(|body|), body + ("\n" + ""));
    HeaderLinesJoin(HeaderField(request), h, NamesWritten(h), last);
    assert written == buffer + (headers + (Line(BodyField(request), Itoa(|body|), "") + (body + ("\n" + ""))));
  }

  method WriteInteraction(buffer: string, i: Interaction) returns (written: string)
    ensures written == buffer + Record(i, "")
  {
    hide Side, Line, Itoa;
    written := buffer + "\n" + PREFIX + i.key + "\n";
    written := written + Line(METHOD, i.verb, "");
    written := written + Line(PATH, i.path, "");
    written := written + Line(QUERY, i.query, "");
    assert written == buffer + Opening(i, "") by {
      LineJoins(PATH, i.path, Line(QUERY, i.query, ""));
      LineJoins(METHOD, i.verb, Line(PATH, i.path, Line(QUERY, i.query, "")));
    }
    written := WriteSide(written, i, true);
    written := written + Line(STATUS, Itoa(i.status), "");
    written := WriteSide(written, i, false);
    ghost var answer := Side(i, false, "");
    ghost var status := Line(STATUS, Itoa(i.status), answer);
    LineJoins(STATUS, Itoa(i.status), answer);
    SideJoins(i, true, status);
    FieldsJoin(i, "", Side(i, true, status));
    assert "" + Side(i, true, status) == Side(i, true, status);
    assert written ==
      buffer + (Opening(i, "") + (Side(i, true, "") + (Line(STATUS, Itoa(i.status), "") + answer)));
  }

  lemma RecordsStep(store: Store, keys: seq<string>, j: nat)
    requires j < |keys| && forall k :: k in keys ==> k in store
    ensures Records(store, keys[j..]) == Record(store[keys[j]], "") + Records(store, keys[j + 1..])
  {
    hide Record;
    assert keys[j..][0] == keys[j] && keys[j..][1..] == keys[j + 1..];
    RecordJoins(store[keys[j]], Records(store, keys[j + 1..]));
  }

  method WriteRecords(buffer: string, store: Store, keys: seq<string>) returns (written: string)
    requires forall k :: k in keys ==> k in store
    ensures written == buffer + Records(store, keys)
  {
    hide Record;
    written := buffer;
    assert keys[0..] == keys;
    for j := 0 to |keys|
      invariant written + Records(store, keys[j..]) == buffer + Records(store, keys)
    {
      ghost var before, rest := written, Records(store, keys[j + 1..]);
      RecordsStep(store, keys, j);
      written := WriteInteraction(written, store[keys[j]]);
      assert before + (Record(store[keys[j]], "") + rest) == written + rest;
    }
    assert written + "" == written;
  }

  // ---------------------------------------------------------------- reading

  method ParseCassette(data: string) returns (out: Option<Store>)
    ensures out == Parse(data)
  {
    hide TakeLine, Close, TrimEnd, Index;
    var rest, st := data, State(None, map[]);
    while true
      invariant Read(rest, st) == Parse(data)
      decreases |rest|
    {
      var i := Index(rest, '\n');
      var eof := i == |rest|;
      var line := TrimEnd(rest[..i]);
      var taken := TakeLine(line, if eof then "" else rest[i + 1..], st);
      if taken.None? {
        return None;
      }
      if eof {
        return Some(Close(taken.value.0));
      }
      rest, st := taken.value.1, taken.value.0;
    }
  }

  class FileCassette {
    var byKey: Store

    /** Every interaction stands under its own key, and the key is not empty. */
    predicate Valid()
      reads this
    {
      forall k :: k in byKey ==> byKey[k].key == k != ""
    }

    constructor ()
      ensures Valid() && byKey == map[]
    {
      byKey := map[];
    }

    /** Keeps an interaction under its key, or under the key derived from its request. */
    method Append(i: Interaction, derived: string)
      requires Valid() && derived != ""
      modifies this
      ensures Valid()
      ensures var key := if i.key == "" then derived else i.key;
        byKey == old(byKey)[key := i.(key := key)]
    {
      var stored := i;
      if stored.key == "" {
        stored := stored.(key := derived);
      }
      byKey := byKey[stored.key := stored];
    }

    method Flush() returns (data: string)
      ensures data == Written(byKey)
    {
      data := WriteRecords(HEADING, byKey, Sorted(byKey.Keys));
    }

    /** Takes on what a file holds; a file that cannot be read changes nothing. */
    method Load(data: string) returns (ok: bool)
      requires Valid()
      modifies this
      ensures Valid() && ok == Parse(data).Some?
      ensures byKey == if ok then Parse(data).value else old(byKey)
    {
      var m := ParseCassette(data);
      ok := m.Some?;
      if ok {
        EmptyFits();
        ReadFits(data, State(None, map[]));
        byKey := m.value;
      }
    }
  }
}
