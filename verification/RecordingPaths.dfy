/** Paths of nested keys that lead back, and those that do not: what that does to a recording
    (internal/equivalence/trace.go). */
module RecordingPaths {
  import opened Options
  import opened Answers
  import opened Recordings

  // ---------------------------------------------------------------- a chain of keys

  /** An answer that holds one string, inside an object for each key. */
  function Chain(ks: seq<string>, t: string): Json
    decreases |ks|
  {
    if ks == [] then Text(t) else Object(map[ks[0] := Chain(ks[1..], t)])
  }

  /** The path that indexing gives the string. */
  function PathOf(ks: seq<string>): string {
    JoinAll("", ks)
  }

  predicate NoDots(ks: seq<string>) {
    forall i :: 0 <= i < |ks| ==> NoDot(ks[i])
  }

  lemma {:induction false} WalkFront(v: Json, part: string, rest: seq<string>)
    ensures Walk(v, [part] + rest) ==
      var inner := Enter(v, part); if inner.None? then None else Walk(inner.value, rest)
    decreases |rest|
  {
    var parts := [part] + rest;
    if rest == [] {
      assert parts[..0] == [] && Walk(v, []) == Some(v);
    } else {
      assert parts[..|parts| - 1] == [part] + rest[..|rest| - 1];
      WalkFront(v, part, rest[..|rest| - 1]);
    }
  }

  /** Walking a chain gets exactly as far as the parts are its keys. */
  lemma {:induction false} WalkChain(ks: seq<string>, t: string, parts: seq<string>)
    ensures Walk(Chain(ks, t), parts) == if parts <= ks then Some(Chain(ks[|parts|..], t)) else None
    decreases |parts|
  {
    if parts != [] {
      var rest := parts[1..];
      assert parts == [parts[0]] + rest;
      WalkFront(Chain(ks, t), parts[0], rest);
      if ks != [] && parts[0] == ks[0] {
        WalkChain(ks[1..], t, rest);
        assert ks == [ks[0]] + ks[1..];
        assert rest <= ks[1..] <==> parts <= ks;
        if parts <= ks {
          assert ks[1..][|rest|..] == ks[|parts|..];
        }
      }
    }
  }

  lemma WalkChainExactly(ks: seq<string>, t: string, parts: seq<string>)
    ensures Walk(Chain(ks, t), parts) == Some(Text(t)) <==> parts == ks
  {
    WalkChain(ks, t, parts);
  }

  // ---------------------------------------------------------------- the parts of its path

  /** The parts of every key, one after another. */
  function Splits(ks: seq<string>): seq<string> {
    if ks == [] then [] else Split(ks[0]) + Splits(ks[1..])
  }

  /** The keys that leave a trace in the path: all but empty ones at the front. */
  function Heard(ks: seq<string>): (heard: seq<string>)
    ensures |heard| <= |ks|
  {
    if ks != [] && ks[0] == "" then Heard(ks[1..]) else ks
  }

  /** Parts after one more character. */
  function Grown(parts: seq<string>, c: char): seq<string>
    requires parts != []
  {
    if c == '.' then parts + [""] else parts[..|parts| - 1] + [parts[|parts| - 1] + [c]]
  }

  lemma SplitMore(s: string, c: char)
    ensures Split(s + [c]) == Grown(Split(s), c)
  {
    assert (s + [c])[..|s|] == s;
  }

  lemma GrownAfter(a: seq<string>, b: seq<string>, c: char)
    requires b != []
    ensures Grown(a + b, c) == a + Grown(b, c)
  {
    assert (a + b)[|a + b| - 1] == b[|b| - 1];
    assert (a + b)[..|a + b| - 1] == a + b[..|b| - 1];
  }

  lemma {:induction false} SplitBoth(path: string, key: string)
    ensures Split(path + "." + key) == Split(path) + Split(key)
    decreases |key|
  {
    hide Split;
    if key == "" {
      SplitDot(path);
      assert path + "." + key == path + ".";
    } else {
      var init, c := key[..|key| - 1], key[|key| - 1];
      SplitBoth(path, init);
      SplitOneMore(path + ".", Split(path), init, c);
      assert init + [c] == key;
    }
  }

  lemma SplitDot(path: string)
    ensures Split(path + ".") == Split(path) + Split("")
  {
    SplitMore(path, '.');
    assert path + "." == path + ['.'];
  }

  lemma SplitOneMore(before: string, parts: seq<string>, init: string, c: char)
    requires Split(before + init) == parts + Split(init)
    ensures Split(before + (init + [c])) == parts + Split(init + [c])
  {
    hide Split;
    SplitMore(before + init, c);
    SplitMore(init, c);
    assert before + init + [c] == before + (init + [c]);
    GrownAfter(parts, Split(init), c);
  }

  lemma {:induction false} SplitFrom(path: string, ks: seq<string>)
    requires path != ""
    ensures JoinAll(path, ks) != "" && Split(JoinAll(path, ks)) == Split(path) + Splits(ks)
    decreases |ks|
  {
    hide Split;
    if ks != [] {
      SplitBoth(path, ks[0]);
      SplitFrom(Join(path, ks[0]), ks[1..]);
      assert Split(path) + Split(ks[0]) + Splits(ks[1..]) == Split(path) + (Split(ks[0]) + Splits(ks[1..]));
    } else {
      assert Split(path) + [] == Split(path);
    }
  }

  lemma {:induction false} SplitPath(ks: seq<string>)
    ensures PathOf(ks) == "" <==> Heard(ks) == []
    ensures Heard(ks) != [] ==> Split(PathOf(ks)) == Splits(Heard(ks))
  {
    if ks != [] {
      if ks[0] == "" {
        SplitPath(ks[1..]);
      } else {
        SplitFrom(ks[0], ks[1..]);
      }
    }
  }

  lemma {:induction false} SplitHasNoDots(s: string)
    ensures NoDots(Split(s))
  {
    if s != "" {
      SplitHasNoDots(s[..|s| - 1]);
    }
  }

  /** Splitting keys loses none, and gives them back when they have no dot. */
  lemma {:induction false} SplitsOfKeys(ks: seq<string>)
    ensures |Splits(ks)| >= |ks| && NoDots(Splits(ks)) && (NoDots(ks) ==> Splits(ks) == ks)
  {
    if ks != [] {
      SplitHasNoDots(ks[0]);
      SplitsOfKeys(ks[1..]);
      if NoDots(ks) {
        SplitNoDot(ks[0]);
        assert ks == [ks[0]] + ks[1..];
      }
    }
  }

  lemma {:induction false} HeardShorter(ks: seq<string>)
    ensures ks != [] && ks[0] == "" ==> |Heard(ks)| < |ks|
    ensures ks != [] && ks[0] != "" ==> Heard(ks) == ks
    ensures NoDots(ks) ==> NoDots(Heard(ks))
  {
    if ks != [] && ks[0] == "" {
      HeardShorter(ks[1..]);
    }
  }

  /** The parts of the path are the keys themselves exactly when no key has a dot and none is lost. */
  lemma PartsAreKeys(ks: seq<string>)
    requires ks != []
    ensures Split(PathOf(ks)) == ks <==> NoDots(ks) && (|ks| == 1 || ks[0] != "")
  {
    SplitPath(ks);
    HeardShorter(ks);
    SplitsOfKeys(Heard(ks));
    SplitsOfKeys(ks);
    if Heard(ks) == [] {
      SplitNoDot("");
      assert Split(PathOf(ks)) == [""];
    }
    if |ks| == 1 && ks[0] == "" {
      assert ks == [""] && Heard(ks[1..]) == [];
    }
  }

  /** The path of a chain leads back along it if and only if no key has a dot and the first is not empty,
      or is the only one. */
  lemma WalkLeadsExactly(ks: seq<string>, t: string)
    requires ks != []
    ensures Walk(Chain(ks, t), Split(PathOf(ks))) == Some(Text(t)) <==> NoDots(ks) && (|ks| == 1 || ks[0] != "")
  {
    WalkChainExactly(ks, t, Split(PathOf(ks)));
    PartsAreKeys(ks);
  }

  /** The path without its first key, which a lookup may cross as a wrapper. */
  lemma PartsAreRest(ks: seq<string>)
    requires |ks| >= 2 && ks != ["", ""]
    ensures Split(PathOf(ks)) == ks[1..] <==> NoDots(ks) && ks[0] == "" && ks[1] != ""
  {
    var rest := ks[1..];
    SplitPath(ks);
    HeardShorter(ks);
    HeardShorter(rest);
    SplitsOfKeys(Heard(ks));
    SplitsOfKeys(rest);
    assert NoDots(ks) <==> NoDot(ks[0]) && NoDots(rest);
    if Heard(ks) == [] {
      SplitNoDot("");
    }
  }

  /** A path that a lookup finds its way back by, the wrapper it may cross included. */
  predicate LeadsBack(ks: seq<string>) {
    ks != [] && NoDots(ks) && (|ks| == 1 || ks[0] != "" || ks[1] != "")
  }

  /** Looking a chain's path up in the chain, one wrapper crossed if need be. */
  lemma LookupLeadsExactly(ks: seq<string>, t: string)
    requires ks != []
    ensures Lookup(Chain(ks, t), PathOf(ks)) == Some(Text(t)) <==> LeadsBack(ks)
  {
    var parts := Split(PathOf(ks));
    PartsAreKeys(ks);
    WalkChain(ks, t, parts);
    if |ks| >= 2 {
      if ks == ["", ""] {
        SplitPath(ks);
        SplitNoDot("");
        assert Heard(ks[1..]) == [] && Heard(ks) == [];
        assert parts == [""] <= ks;
      } else {
        PartsAreRest(ks);
      }
    }
    hide Split, Walk, PathOf, NoDots;
    LookupChain(ks, t, PathOf(ks));
  }

  lemma LookupChain(ks: seq<string>, t: string, path: string)
    requires ks != []
    ensures var parts := Split(path);
      Lookup(Chain(ks, t), path) ==
      if parts <= ks then Some(Chain(ks[|parts|..], t))
      else if |ks| >= 2 && parts <= ks[1..] then Some(Chain(ks[1..][|parts|..], t)) else None
  {
    var parts, inner := Split(path), Chain(ks[1..], t);
    WalkChain(ks, t, parts);
    WalkChain(ks[1..], t, parts);
    hide Split, Walk;
    var out := Chain(ks, t);
    var hits := set k | k in out.members && out.members[k].Object? && Walk(out.members[k], parts).Some?;
    assert hits == if |ks| >= 2 && parts <= ks[1..] then {ks[0]} else {};
  }

  // ---------------------------------------------------------------- two steps

  /** A first step that answers something and is given nothing, and a second given one string. */
  function TwoSteps(output: map<string, Json>, name: string, t: string): seq<StepEntry> {
    [StepEntry("", map[], output), StepEntry("", map[name := Text(t)], map[])]
  }

  /** What linking leaves of a recording. */
  ghost predicate IsLinking(was: seq<StepEntry>, linked: seq<StepEntry>, trace: seq<Linking>) {
    && |trace| == |was| + 1 && |linked| == |was| && trace[0] == Linking(map[], {})
    && forall j :: 0 <= j < |was| ==> LinksFrom(trace[j], trace[j + 1], was[j], linked[j], Outputs(was), j)
  }

  /** After the first step, what is known stands in its answer; nothing was supplied. */
  lemma FirstStep(output: map<string, Json>, name: string, t: string, linked: seq<StepEntry>, trace: seq<Linking>)
    requires IsLinking(TwoSteps(output, name, t), linked, trace)
    ensures trace[1].supplied == {}
    ensures forall u :: u in trace[1].origin ==>
      var ref := trace[1].origin[u]; ref.step == 0 && ref.path != "" && Stands(Object(output), "", u, ref.path)
    ensures forall u, path :: Stands(Object(output), "", u, path) && path != "" && |u| >= 8 ==> u in trace[1].origin
  {
    var was := TwoSteps(output, name, t);
    hide LinkValue, Literals, Identifiers, Namable, Leads, Stands;
    assert LinksFrom(trace[0], trace[1], was[0], linked[0], Outputs(was), 0);
    NothingSupplied(linked[0]);
  }

  lemma NothingSupplied(step: StepEntry)
    requires Object(step.input) == LinkValue(Object(map[]), map[], {})
    ensures Literals(Object(step.input)) == {}
  {
  }

  /** The second step's input, linked. */
  lemma SecondLinked(output: map<string, Json>, name: string, t: string, linked: seq<StepEntry>, trace: seq<Linking>)
    requires IsLinking(TwoSteps(output, name, t), linked, trace) && trace[1].supplied == {}
    ensures linked[1].input == map[name := if t in trace[1].origin then From(trace[1].origin[t]) else Text(t)]
  {
    var was := TwoSteps(output, name, t);
    hide Indexed, Added, AllKnown, Literals, Identifiers, LinkValue;
    assert LinksFrom(trace[1], trace[2], was[1], linked[1], Outputs(was), 1);
    OneMember(name, t, trace[1].origin);
  }

  lemma OneMember(name: string, t: string, origin: map<string, Ref>)
    ensures LinkValue(Object(map[name := Text(t)]), origin, {}) ==
      Object(map[name := if t in origin then From(origin[t]) else Text(t)])
  {
    var members := map[name := Text(t)];
    assert AsRef(members).None?;
  }

  lemma ResolveOne(name: string, v: Json, outcomes: seq<Json>)
    ensures Resolve(Object(map[name := v]), outcomes, SAME_PATH) == Object(map[name := Resolve(v, outcomes, SAME_PATH)])
  {
    var members := map[name := v];
    assert AsRef(members).None?;
    hide Lookup;
  }

  lemma ResolveFrom(ref: Ref, outcomes: seq<Json>)
    ensures Resolve(From(ref), outcomes, SAME_PATH) ==
      if 0 <= ref.step < |outcomes| && Lookup(outcomes[ref.step], ref.path).Some?
      then Lookup(outcomes[ref.step], ref.path).value else Null
  {
    hide Lookup, AsRef;
    FromIsRef(ref);
  }

  /** The second step's input, linked and resolved against the answer of the first. */
  lemma SecondInput(output: map<string, Json>, name: string, t: string, linked: seq<StepEntry>, trace: seq<Linking>)
    requires IsLinking(TwoSteps(output, name, t), linked, trace)
    ensures var origin := trace[1].origin;
      var value := if t !in origin then Text(t)
        else if Lookup(Object(output), origin[t].path).Some?
        then Lookup(Object(output), origin[t].path).value else Null;
      Resolve(Object(linked[1].input), Outputs(TwoSteps(output, name, t))[..1], SAME_PATH) == Object(map[name := value])
  {
    FirstStep(output, name, t, linked, trace);
    SecondLinked(output, name, t, linked, trace);
    var origin, outcomes := trace[1].origin, Outputs(TwoSteps(output, name, t))[..1];
    assert outcomes == [Object(output)];
    hide IsLinking, Stands, Lookup, Resolve, From;
    ResolveOne(name, if t in origin then From(origin[t]) else Text(t), outcomes);
    if t in origin {
      ResolveFrom(origin[t], outcomes);
    } else {
      TextStays(t, outcomes);
    }
  }

  lemma TextStays(t: string, outcomes: seq<Json>)
    ensures Resolve(Text(t), outcomes, SAME_PATH) == Text(t)
  {
  }

  // ---------------------------------------------------------------- which recordings come back

  /** A chain holds its string at the end of its keys, and nothing else. */
  lemma {:induction false} ChainHolds(ks: seq<string>, t: string, js: seq<string>, u: string)
    ensures Holds(Chain(ks, t), js, u) <==> js == ks && u == t
    decreases |ks|
  {
    if ks != [] && js != [] {
      ChainHolds(ks[1..], t, js[1..], u);
      assert ks == [ks[0]] + ks[1..] && js == [js[0]] + js[1..];
    }
  }

  lemma ChainStands(ks: seq<string>, t: string, u: string, path: string)
    ensures Stands(Chain(ks, t), "", u, path) <==> u == t && path == PathOf(ks)
  {
    forall js
      ensures Holds(Chain(ks, t), js, u) <==> js == ks && u == t
    {
      ChainHolds(ks, t, js, u);
    }
  }

  /** A recording whose first answer holds one identifier, inside an object for each key, and whose second
      step is given it: linked and resolved it comes back if and only if the lookup leads back by the
      path of the keys, or the path is empty and the identifier was left as it was. */
  lemma ChainRecordingExactly(ks: seq<string>, t: string, name: string, linked: seq<StepEntry>, trace: seq<Linking>)
    requires ks != [] && |t| >= 8
    requires IsLinking(TwoSteps(Chain(ks, t).members, name, t), linked, trace)
    ensures var was := TwoSteps(Chain(ks, t).members, name, t);
      Resolve(Object(linked[1].input), Outputs(was)[..1], SAME_PATH) == Object(was[1].input)
      <==> LeadsBack(ks) || forall i :: 0 <= i < |ks| ==> ks[i] == ""
  {
    var output := Chain(ks, t).members;
    SecondInput(output, name, t, linked, trace);
    ChainOrigin(ks, t, name, linked, trace);
    LookupLeadsExactly(ks, t);
    SplitPath(ks);
    HeardNothing(ks);
    hide IsLinking, Resolve, Lookup, PathOf, LeadsBack, Heard, Outputs;
    SameMember(name, Text(t));
  }

  lemma ChainOrigin(ks: seq<string>, t: string, name: string, linked: seq<StepEntry>, trace: seq<Linking>)
    requires ks != [] && |t| >= 8
    requires IsLinking(TwoSteps(Chain(ks, t).members, name, t), linked, trace)
    ensures t in trace[1].origin <==> PathOf(ks) != ""
    ensures t in trace[1].origin ==> trace[1].origin[t].path == PathOf(ks)
  {
    FirstStep(Chain(ks, t).members, name, t, linked, trace);
    hide IsLinking, Stands, PathOf;
    ChainStands(ks, t, t, PathOf(ks));
    if t in trace[1].origin {
      ChainStands(ks, t, t, trace[1].origin[t].path);
    }
  }

  lemma {:induction false} HeardNothing(ks: seq<string>)
    ensures Heard(ks) == [] <==> forall i :: 0 <= i < |ks| ==> ks[i] == ""
  {
    if ks != [] {
      HeardNothing(ks[1..]);
      assert forall i :: 0 <= i < |ks| - 1 ==> ks[1..][i] == ks[i + 1];
    }
  }

  lemma SameMember(name: string, v: Json)
    ensures forall w :: Object(map[name := w]) == Object(map[name := v]) <==> w == v
  {
    forall w
      ensures Object(map[name := w]) == Object(map[name := v]) <==> w == v
    {
      assert map[name := w][name] == w && map[name := v][name] == v;
    }
  }

  // ---------------------------------------------------------------- one that is misled

  /** The input: an answer with an empty key at the top, and beside it a member of the same name as the one
      inside it. The second step was given the one and is replayed with the other. */
  lemma EmptyTopKeyMisleads(linked: seq<StepEntry>, trace: seq<Linking>)
    requires var output := map["" := Object(map["Id" := Text("aaaaaaaa")]), "Id" := Text("bbbbbbbb")];
      IsLinking(TwoSteps(output, "Id", "aaaaaaaa"), linked, trace)
    ensures var output := map["" := Object(map["Id" := Text("aaaaaaaa")]), "Id" := Text("bbbbbbbb")];
      var was := TwoSteps(output, "Id", "aaaaaaaa");
      && was[1].input == map["Id" := Text("aaaaaaaa")]
      && Resolve(Object(linked[1].input), Outputs(was)[..1], SAME_PATH) == Object(map["Id" := Text("bbbbbbbb")])
  {
    var a, b := "aaaaaaaa", "bbbbbbbb";
    var output := map["" := Object(map["Id" := Text(a)]), "Id" := Text(b)];
    SecondInput(output, "Id", a, linked, trace);
    FirstStep(output, "Id", a, linked, trace);
    MisledPath(output, a, b);
    hide IsLinking, Resolve, Stands, Lookup;
    MisledLookup(output, b);
  }

  lemma MisledPath(output: map<string, Json>, a: string, b: string)
    requires a != b && output == map["" := Object(map["Id" := Text(a)]), "Id" := Text(b)]
    ensures Stands(Object(output), "", a, "Id") && forall path :: Stands(Object(output), "", a, path) ==> path == "Id"
  {
    var ks := ["", "Id"];
    assert ks[1..] == ["Id"] && ["Id"][1..] == [];
    assert Holds(Text(a), [], a) && Holds(Object(map["Id" := Text(a)]), ["Id"], a);
    assert Holds(Object(output), ks, a);
    assert JoinAll("Id", []) == "Id" && JoinAll("", ["Id"]) == "Id" && JoinAll("", ks) == "Id";
    forall js | Holds(Object(output), js, a)
      ensures js == ks
    {
      assert js != [] && js == [js[0]] + js[1..];
      assert Holds(output[js[0]], js[1..], a);
      assert js[1..] != [] && js[1..] == [js[1..][0]] + js[1..][1..];
    }
  }

  lemma MisledLookup(output: map<string, Json>, b: string)
    requires "Id" in output && output["Id"] == Text(b)
    ensures Lookup(Object(output), "Id") == Some(Text(b))
  {
    SplitNoDot("Id");
    WalkFront(Object(output), "Id", []);
    assert ["Id"] + [] == ["Id"];
    hide Split, Lookup;
    DirectHitWins(Object(output), "Id");
  }
}
