/** Inputs of a recording that name what earlier steps answered, and their resolution on replay
    (internal/equivalence/trace.go). */
module Recordings {
  import opened Options
  import opened Decimals
  import opened Answers

  const FROM_STEP := "$fromStep"
  const FROM_PATH := "$fromPath"

  // ---------------------------------------------------------------- paths

  function Join(path: string, key: string): string {
    if path == "" then key else path + "." + key
  }

  predicate NoDot(s: string) {
    forall i :: 0 <= i < |s| ==> s[i] != '.'
  }

  function Split(s: string): (parts: seq<string>)
    ensures parts != []
  {
    if s == "" then [""]
    else
      var rest := Split(s[..|s| - 1]);
      var c := s[|s| - 1];
      if c == '.' then rest + [""] else rest[..|rest| - 1] + [rest[|rest| - 1] + [c]]
  }

  /** Follows one part of a path: a member of an object, or an item of a list by its index. */
  function Enter(v: Json, part: string): Option<Json> {
    match v
    case Object(members) => if part in members then Some(members[part]) else None
    case List(items) =>
      var i := Atoi(part);
      if i.None? || i.value < 0 || i.value >= |items| then None else Some(items[i.value])
    case _ => None
  }

  function Walk(v: Json, parts: seq<string>): Option<Json> {
    if parts == [] then Some(v)
    else
      var before := Walk(v, parts[..|parts| - 1]);
      if before.None? then None else Enter(before.value, parts[|parts| - 1])
  }

  method WalkPath(v: Json, path: string) returns (found: Option<Json>)
    ensures found == Walk(v, Split(path))
  {
    var parts := Split(path);
    var current := v;
    for i := 0 to |parts|
      invariant Walk(v, parts[..i]) == Some(current)
    {
      assert parts[..i + 1][..i] == parts[..i];
      var next := Enter(current, parts[i]);
      if next.None? {
        WalkStops(v, parts, i + 1);
        return None;
      }
      current := next.value;
    }
    assert parts[..|parts|] == parts;
    found := Some(current);
  }

  lemma {:induction false} WalkStops(v: Json, parts: seq<string>, i: nat)
    requires i <= |parts| && Walk(v, parts[..i]).None?
    ensures Walk(v, parts).None?
    decreases |parts| - i
  {
    if i < |parts| {
      assert parts[..i + 1][..i] == parts[..i];
      WalkStops(v, parts, i + 1);
    } else {
      assert parts[..i] == parts;
    }
  }

  /** A direct hit wins; otherwise one wrapper is crossed, if exactly one member carries the path. */
  function Lookup(out: Json, path: string): Option<Json> {
    var parts := Split(path);
    if Walk(out, parts).Some? then Walk(out, parts)
    else if !out.Object? then None
    else
      var hits := set k | k in out.members && out.members[k].Object? && Walk(out.members[k], parts).Some?;
      if |hits| != 1 then None
      else
        OnlyOne(hits);
        var k :| k in hits;
        Walk(out.members[k], parts)
  }

  lemma OnlyOne(s: set<string>)
    requires |s| == 1
    ensures exists k :: k in s && forall j :: j in s ==> j == k
  {
    var k :| k in s;
    assert |s - {k}| == 0;
    assert forall j :: j in s ==> j !in s - {k};
  }

  // ---------------------------------------------------------------- references

  datatype Ref = Ref(step: int, path: string)

  function AsRef(members: map<string, Json>): Option<Ref> {
    if |members| != 2 || FROM_STEP !in members || FROM_PATH !in members || !members[FROM_PATH].Text? then None
    else
      match members[FROM_STEP]
      case Int(n) => Some(Ref(n, members[FROM_PATH].s))
      case Float(truncated, _) => Some(Ref(truncated, members[FROM_PATH].s))
      case _ => None
  }

  function From(ref: Ref): Json {
    Object(map[FROM_STEP := Int(ref.step), FROM_PATH := Text(ref.path)])
  }

  lemma FromIsRef(ref: Ref)
    ensures AsRef(From(ref).members) == Some(ref)
  {
    var m := From(ref).members;
    assert m.Keys == {FROM_STEP, FROM_PATH};
    assert FROM_STEP[5] != FROM_PATH[5];
    assert |m.Keys| == 2;
    assert |m| == |m.Keys|;
  }

  /** Replaces each string a service issued with a reference to where it was first answered. */
  function LinkValue(v: Json, origin: map<string, Ref>, supplied: set<string>): Json {
    match v
    case Object(members) =>
      if AsRef(members).Some? then v
      else Object(map k | k in members :: LinkValue(members[k], origin, supplied))
    case List(items) => List(seq(|items|, i requires 0 <= i < |items| => LinkValue(items[i], origin, supplied)))
    case Text(s) => if s !in supplied && s in origin then From(origin[s]) else v
    case _ => v
  }

  /** Replaces each reference with what the candidate answered there, or with nothing. */
  function Resolve(v: Json, outcomes: seq<Json>, at: (int, string) -> string): Json {
    match v
    case Object(members) =>
      var ref := AsRef(members);
      if ref.Some? then
        if 0 <= ref.value.step < |outcomes| then
          var got := Lookup(outcomes[ref.value.step], at(ref.value.step, ref.value.path));
          if got.Some? then got.value else Null
        else Null
      else Object(map k | k in members :: Resolve(members[k], outcomes, at))
    case List(items) => List(seq(|items|, i requires 0 <= i < |items| => Resolve(items[i], outcomes, at)))
    case _ => v
  }

  function Literals(v: Json): set<string> {
    match v
    case Object(members) =>
      if AsRef(members).Some? then {} else set k, s | k in members && s in Literals(members[k]) :: s
    case List(items) => set i, s | 0 <= i < |items| && s in Literals(items[i]) :: s
    case Text(s) => {s}
    case _ => {}
  }

  // ---------------------------------------------------------------- recording

  datatype StepEntry = StepEntry(operation: string, input: map<string, Json>, output: map<string, Json>)

  /** Keys that a path can name: no dot in any, and no empty one at the top, where joining it to the
      empty path would leave no trace of it. */
  ghost predicate KeysNamable(v: Json) {
    match v
    case Object(members) => forall k :: k in members ==> NoDot(k) && KeysNamable(members[k])
    case List(items) => forall i :: 0 <= i < |items| ==> KeysNamable(items[i])
    case _ => true
  }

  ghost predicate Namable(output: Json) {
    output.Object? && "" !in output.members && KeysNamable(output)
  }

  ghost predicate NoRefs(v: Json) {
    match v
    case Object(members) => AsRef(members).None? && forall k :: k in members ==> NoRefs(members[k])
    case List(items) => forall i :: 0 <= i < |items| ==> NoRefs(items[i])
    case _ => true
  }

  /** Every origin leads to its string, in an answer that was already given. */
  ghost predicate Leads(origin: map<string, Ref>, outcomes: seq<Json>) {
    forall t :: t in origin ==>
      && 0 <= origin[t].step < |outcomes|
      && Walk(outcomes[origin[t].step], Split(origin[t].path)) == Some(Text(t))
  }

  /** The strings of an answer long enough to be identifiers the service issued. */
  function Identifiers(v: Json): set<string> {
    match v
    case Object(members) => set k, s | k in members && s in Identifiers(members[k]) :: s
    case List(items) => set i, s | 0 <= i < |items| && s in Identifiers(items[i]) :: s
    case Text(s) => if |s| >= 8 then {s} else {}
    case _ => {}
  }

  lemma {:induction false} SplitNoDot(s: string)
    requires NoDot(s)
    ensures Split(s) == [s]
  {
    if s != "" {
      SplitNoDot(s[..|s| - 1]);
      assert s == s[..|s| - 1] + [s[|s| - 1]];
    }
  }

  lemma {:induction false} SplitJoins(path: string, key: string)
    requires NoDot(key)
    ensures Split(path + "." + key) == Split(path) + [key]
  {
    var s := path + "." + key;
    if key == "" {
      assert s[..|s| - 1] == path;
    } else {
      SplitJoins(path, key[..|key| - 1]);
      assert s[..|s| - 1] == path + "." + key[..|key| - 1];
      assert key == key[..|key| - 1] + [key[|key| - 1]];
    }
  }

  /** A path joined with a part enters what the path leads to by that part. */
  lemma WalkJoins(root: Json, path: string, part: string, v: Json, inner: Json)
    requires NoDot(part) && Enter(v, part) == Some(inner)
    requires if path == "" then v == root else Walk(root, Split(path)) == Some(v)
    ensures Walk(root, Split(Join(path, part))) == Some(inner)
  {
    if path == "" {
      SplitNoDot(part);
      assert [part][..0] == [];
    } else {
      SplitJoins(path, part);
      var parts := Split(path) + [part];
      assert parts[..|parts| - 1] == Split(path);
    }
  }

  lemma IndexNames(i: nat)
    ensures NoDot(Itoa(i)) && Itoa(i) != ""
  {
  }

  /** What indexing part of an answer leaves: nothing known is lost, only identifiers of that part are
      added, and where paths can be followed all of them are and each leads to its string. */
  ghost predicate Indexed(origin: map<string, Ref>, indexed: map<string, Ref>, found: set<string>,
          outcomes: seq<Json>, step: nat, namable: bool)
  {
    && (forall t :: t in origin ==> t in indexed && indexed[t] == origin[t])
    && (forall t :: t in indexed && t !in origin ==> indexed[t].step == step)
    && indexed.Keys <= origin.Keys + found
    && (namable && Leads(origin, outcomes) ==> Leads(indexed, outcomes) && indexed.Keys == origin.Keys + found)
  }

  lemma IndexedJoins(origin: map<string, Ref>, middle: map<string, Ref>, indexed: map<string, Ref>,
                     found: set<string>, more: set<string>, outcomes: seq<Json>, step: nat, namable: bool)
    requires Indexed(origin, middle, found, outcomes, step, namable)
        && Indexed(middle, indexed, more, outcomes, step, namable)
    ensures Indexed(origin, indexed, found + more, outcomes, step, namable)
  {
    hide Leads;
  }

  lemma IndexedKeeps(origin: map<string, Ref>, indexed: map<string, Ref>, found: set<string>,
          outcomes: seq<Json>, step: nat, namable: bool)
    requires Indexed(origin, indexed, found, outcomes, step, namable)
    ensures forall t :: t in origin ==> t in indexed && indexed[t] == origin[t]
  {
    hide Leads;
  }

  lemma AddedNothing(origin: map<string, Ref>, v: Json, prefix: string)
    ensures Added(origin, origin, v, prefix)
  {
  }

  lemma IndexedNothing(origin: map<string, Ref>, outcomes: seq<Json>, step: nat, namable: bool)
    ensures Indexed(origin, origin, {}, outcomes, step, namable)
  {
  }

  /** A stronger claim of what paths can name asks no less. */
  lemma IndexedWhen(origin: map<string, Ref>, indexed: map<string, Ref>, found: set<string>,
          outcomes: seq<Json>, step: nat, namable: bool, less: bool)
    requires Indexed(origin, indexed, found, outcomes, step, namable) && (less ==> namable)
    ensures Indexed(origin, indexed, found, outcomes, step, less)
  {
    hide Leads;
  }

  // ---------------------------------------------------------------- where a string stands

  /** A chain of members and items leads from v to the string t. */
  ghost predicate Holds(v: Json, ks: seq<string>, t: string)
    decreases v
  {
    if ks == [] then v == Text(t)
    else
      match v
      case Object(members) => ks[0] in members && Holds(members[ks[0]], ks[1..], t)
      case List(items) => exists i :: 0 <= i < |items| && ks[0] == Itoa(i) && Holds(items[i], ks[1..], t)
      case _ => false
  }

  function JoinAll(path: string, ks: seq<string>): string
    decreases |ks|
  {
    if ks == [] then path else JoinAll(Join(path, ks[0]), ks[1..])
  }

  ghost predicate Stands(v: Json, prefix: string, t: string, path: string) {
    exists ks :: Holds(v, ks, t) && path == JoinAll(prefix, ks)
  }

  lemma StandsUp(v: Json, prefix: string, part: string, inner: Json, t: string, path: string)
    requires Stands(inner, Join(prefix, part), t, path)
    requires (v.Object? && part in v.members && v.members[part] == inner)
          || (v.List? && exists i :: 0 <= i < |v.items| && part == Itoa(i) && v.items[i] == inner)
    ensures Stands(v, prefix, t, path)
  {
    var ks :| Holds(inner, ks, t) && path == JoinAll(Join(prefix, part), ks);
    HoldsUp(v, part, inner, ks, t);
    assert ([part] + ks)[0] == part && ([part] + ks)[1..] == ks;
  }

  lemma HoldsUp(v: Json, part: string, inner: Json, ks: seq<string>, t: string)
    requires Holds(inner, ks, t)
    requires (v.Object? && part in v.members && v.members[part] == inner)
          || (v.List? && exists i :: 0 <= i < |v.items| && part == Itoa(i) && v.items[i] == inner)
    ensures Holds(v, [part] + ks, t)
  {
    var all := [part] + ks;
    assert all[0] == part && all[1..] == ks;
    if v.Object? {
      assert Holds(v.members[all[0]], all[1..], t);
    } else {
      ItemHolds(v, all, inner, t);
    }
  }

  lemma ItemHolds(v: Json, all: seq<string>, inner: Json, t: string)
    requires v.List? && all != [] && Holds(inner, all[1..], t)
    requires exists i :: 0 <= i < |v.items| && all[0] == Itoa(i) && v.items[i] == inner
    ensures Holds(v, all, t)
  {
    hide Itoa;
    var i :| 0 <= i < |v.items| && all[0] == Itoa(i) && v.items[i] == inner;
    var rest := all[1..];
    assert Holds(v.items[i], rest, t) by {
      assert v.items[i] == inner;
    }
  }

  lemma StandsDown(v: Json, prefix: string, t: string, path: string)
    requires Stands(v, prefix, t, path)
    ensures v.Object? ==> exists k :: k in v.members && Stands(v.members[k], Join(prefix, k), t, path)
    ensures v.List? ==> exists i :: 0 <= i < |v.items| && Stands(v.items[i], Join(prefix, Itoa(i)), t, path)
    ensures !v.Object? && !v.List? ==> v == Text(t) && path == prefix
  {
    var ks :| Holds(v, ks, t) && path == JoinAll(prefix, ks);
    if ks != [] {
      assert path == JoinAll(Join(prefix, ks[0]), ks[1..]);
      hide Itoa;
      if v.Object? {
        assert Stands(v.members[ks[0]], Join(prefix, ks[0]), t, path);
      } else if v.List? {
        var i :| 0 <= i < |v.items| && ks[0] == Itoa(i) && Holds(v.items[i], ks[1..], t);
        var rest := ks[1..];
        assert Holds(v.items[i], rest, t) && path == JoinAll(Join(prefix, Itoa(i)), rest);
        assert Stands(v.items[i], Join(prefix, Itoa(i)), t, path);
      }
    }
  }

  /** What was added to the origins has a path, and stands where it says. */
  ghost predicate Added(origin: map<string, Ref>, indexed: map<string, Ref>, v: Json, prefix: string) {
    forall t :: t in indexed && t !in origin ==> indexed[t].path != "" && Stands(v, prefix, t, indexed[t].path)
  }

  /** Every identifier with a path is known. */
  ghost predicate AllKnown(indexed: map<string, Ref>, v: Json, prefix: string) {
    forall t, path :: Stands(v, prefix, t, path) && path != "" && |t| >= 8 ==> t in indexed
  }

  /** What indexing a part of v adds, stands in v. */
  lemma AddedJoins(origin: map<string, Ref>, middle: map<string, Ref>, indexed: map<string, Ref>,
                   v: Json, prefix: string, part: string, inner: Json)
    requires Added(origin, middle, v, prefix) && Added(middle, indexed, inner, Join(prefix, part))
    requires forall t :: t in middle ==> t in indexed && indexed[t] == middle[t]
    requires (v.Object? && part in v.members && v.members[part] == inner)
          || (v.List? && exists i :: 0 <= i < |v.items| && part == Itoa(i) && v.items[i] == inner)
    ensures Added(origin, indexed, v, prefix)
  {
    hide Stands;
    forall t | t in indexed && t !in origin
      ensures indexed[t].path != "" && Stands(v, prefix, t, indexed[t].path)
    {
      if t !in middle {
        StandsUp(v, prefix, part, inner, t, indexed[t].path);
      }
    }
  }

  lemma KnownGrows(middle: map<string, Ref>, indexed: map<string, Ref>, v: Json, prefix: string)
    requires AllKnown(middle, v, prefix) && forall t :: t in middle ==> t in indexed
    ensures AllKnown(indexed, v, prefix)
  {
    hide Stands;
  }

  lemma AllMembersKnown(indexed: map<string, Ref>, v: Json, prefix: string)
    requires v.Object? && forall k :: k in v.members ==> AllKnown(indexed, v.members[k], Join(prefix, k))
    ensures AllKnown(indexed, v, prefix)
  {
    hide Stands;
    forall t, path | Stands(v, prefix, t, path) && path != "" && |t| >= 8
      ensures t in indexed
    {
      StandsDown(v, prefix, t, path);
      var k :| k in v.members && Stands(v.members[k], Join(prefix, k), t, path);
    }
  }

  lemma AllItemsKnown(indexed: map<string, Ref>, v: Json, prefix: string)
    requires v.List? && forall i :: 0 <= i < |v.items| ==> AllKnown(indexed, v.items[i], Join(prefix, Itoa(i)))
    ensures AllKnown(indexed, v, prefix)
  {
    hide Stands, Itoa;
    forall t, path | Stands(v, prefix, t, path) && path != "" && |t| >= 8
      ensures t in indexed
    {
      StandsDown(v, prefix, t, path);
      var i :| 0 <= i < |v.items| && Stands(v.items[i], Join(prefix, Itoa(i)), t, path);
    }
  }

  /** A scalar is known if it is an identifier with a path. */
  lemma ScalarKnown(origin: map<string, Ref>, indexed: map<string, Ref>, v: Json, prefix: string, step: nat)
    requires !v.Object? && !v.List?
    requires indexed ==
        if v.Text? && |v.s| >= 8 && prefix != "" && v.s !in origin then origin[v.s := Ref(step, prefix)] else origin
    ensures Added(origin, indexed, v, prefix) && AllKnown(indexed, v, prefix)
  {
    forall t, path | Stands(v, prefix, t, path)
      ensures v == Text(t) && path == prefix
    {
      StandsDown(v, prefix, t, path);
    }
    if v.Text? {
      assert Holds(v, [], v.s) && JoinAll(prefix, []) == prefix;
      assert Stands(v, prefix, v.s, prefix);
    }
  }

  ghost predicate IsAt(outcome: Json, prefix: string, v: Json) {
    if prefix == "" then v == outcome && Namable(v) else Walk(outcome, Split(prefix)) == Some(v)
  }

  /** Adds where each identifier of an answer came from, unless an earlier place is known; members are
      visited in whatever order. */
  method IndexOutput(step: nat, prefix: string, v: Json, ghost outcomes: seq<Json>, origin: map<string, Ref>)
    returns (indexed: map<string, Ref>)
    requires step < |outcomes|
    ensures Indexed(origin, indexed, Identifiers(v), outcomes, step, KeysNamable(v) && IsAt(outcomes[step], prefix, v))
    ensures Added(origin, indexed, v, prefix) && AllKnown(indexed, v, prefix)
    decreases v, 1
  {
    hide Stands;
    match v
    case Object(_) =>
      indexed := IndexMembers(step, prefix, v, outcomes, origin);
    case List(_) =>
      indexed := IndexItems(step, prefix, v, outcomes, origin);
    case Text(s) =>
      indexed := origin;
      if |s| >= 8 && prefix != "" && s !in indexed {
        indexed := indexed[s := Ref(step, prefix)];
      }
      ScalarKnown(origin, indexed, v, prefix, step);
    case _ =>
      indexed := origin;
      ScalarKnown(origin, indexed, v, prefix, step);
  }

  function IdentifiersAt(v: Json, names: set<string>): set<string>
    requires v.Object? && names <= v.members.Keys
  {
    set k, s | k in names && s in Identifiers(v.members[k]) :: s
  }

  method IndexMembers(step: nat, prefix: string, v: Json, ghost outcomes: seq<Json>, origin: map<string, Ref>)
    returns (indexed: map<string, Ref>)
    requires v.Object? && step < |outcomes|
    ensures Indexed(origin, indexed, Identifiers(v), outcomes, step, KeysNamable(v) && IsAt(outcomes[step], prefix, v))
    ensures Added(origin, indexed, v, prefix) && AllKnown(indexed, v, prefix)
    decreases v, 0
  {
    hide Walk, Split, Indexed, Added, AllKnown, Stands;
    ghost var namable := KeysNamable(v) && IsAt(outcomes[step], prefix, v);
    indexed := origin;
    IndexedNothing(origin, outcomes, step, namable);
    AddedNothing(origin, v, prefix);
    var todo := v.members.Keys;
    ghost var done: set<string> := {};
    assert IdentifiersAt(v, {}) == {};
    while todo != {}
      invariant todo <= v.members.Keys && done == v.members.Keys - todo
      invariant Indexed(origin, indexed, IdentifiersAt(v, done), outcomes, step, namable)
      invariant Added(origin, indexed, v, prefix)
      invariant forall k :: k in done ==> AllKnown(indexed, v.members[k], Join(prefix, k))
      decreases todo
    {
      var k :| k in todo;
      todo := todo - {k};
      done := done + {k};
      if namable {
        WalkJoins(outcomes[step], prefix, k, v, v.members[k]);
      }
      ghost var before := indexed;
      indexed := IndexOutput(step, Join(prefix, k), v.members[k], outcomes, indexed);
      IndexedWhen(before, indexed, Identifiers(v.members[k]), outcomes, step,
                  KeysNamable(v.members[k]) && IsAt(outcomes[step], Join(prefix, k), v.members[k]), namable);
      IndexedJoins(origin, before, indexed, IdentifiersAt(v, done - {k}), Identifiers(v.members[k]), outcomes, step,
          namable);
      assert IdentifiersAt(v, done) == IdentifiersAt(v, done - {k}) + Identifiers(v.members[k]);
      IndexedKeeps(before, indexed, Identifiers(v.members[k]), outcomes, step,
                   KeysNamable(v.members[k]) && IsAt(outcomes[step], Join(prefix, k), v.members[k]));
      AddedJoins(origin, before, indexed, v, prefix, k, v.members[k]);
      forall j | j in done
        ensures AllKnown(indexed, v.members[j], Join(prefix, j))
      {
        if j != k {
          KnownGrows(before, indexed, v.members[j], Join(prefix, j));
        }
      }
    }
    assert done == v.members.Keys;
    AllMembersKnown(indexed, v, prefix);
    assert IdentifiersAt(v, done) == Identifiers(v);
  }

  function IdentifiersUpTo(v: Json, i: nat): set<string>
    requires v.List? && i <= |v.items|
  {
    set j, s | 0 <= j < i && s in Identifiers(v.items[j]) :: s
  }

  method IndexItems(step: nat, prefix: string, v: Json, ghost outcomes: seq<Json>, origin: map<string, Ref>)
    returns (indexed: map<string, Ref>)
    requires v.List? && step < |outcomes|
    ensures Indexed(origin, indexed, Identifiers(v), outcomes, step, KeysNamable(v) && IsAt(outcomes[step], prefix, v))
    ensures Added(origin, indexed, v, prefix) && AllKnown(indexed, v, prefix)
    decreases v, 0
  {
    hide Walk, Split, Atoi, Itoa, Indexed, Added, AllKnown, Stands;
    ghost var namable := KeysNamable(v) && IsAt(outcomes[step], prefix, v);
    indexed := origin;
    IndexedNothing(origin, outcomes, step, namable);
    AddedNothing(origin, v, prefix);
    assert IdentifiersUpTo(v, 0) == {};
    for i := 0 to |v.items|
      invariant Indexed(origin, indexed, IdentifiersUpTo(v, i), outcomes, step, namable)
      invariant Added(origin, indexed, v, prefix)
      invariant forall j :: 0 <= j < i ==> AllKnown(indexed, v.items[j], Join(prefix, Itoa(j)))
    {
      IndexNames(i);
      EnterItem(v, i);
      if namable {
        WalkJoins(outcomes[step], prefix, Itoa(i), v, v.items[i]);
      }
      ghost var before := indexed;
      indexed := IndexOutput(step, Join(prefix, Itoa(i)), v.items[i], outcomes, indexed);
      IndexedWhen(before, indexed, Identifiers(v.items[i]), outcomes, step,
                  KeysNamable(v.items[i]) && IsAt(outcomes[step], Join(prefix, Itoa(i)), v.items[i]), namable);
      IndexedJoins(origin, before, indexed, IdentifiersUpTo(v, i), Identifiers(v.items[i]), outcomes, step, namable);
      assert IdentifiersUpTo(v, i + 1) == IdentifiersUpTo(v, i) + Identifiers(v.items[i]);
      IndexedKeeps(before, indexed, Identifiers(v.items[i]), outcomes, step,
                   KeysNamable(v.items[i]) && IsAt(outcomes[step], Join(prefix, Itoa(i)), v.items[i]));
      AddedJoins(origin, before, indexed, v, prefix, Itoa(i), v.items[i]);
      forall j | 0 <= j < i
        ensures AllKnown(indexed, v.items[j], Join(prefix, Itoa(j)))
      {
        KnownGrows(before, indexed, v.items[j], Join(prefix, Itoa(j)));
      }
    }
    AllItemsKnown(indexed, v, prefix);
    assert IdentifiersUpTo(v, |v.items|) == Identifiers(v);
  }

  lemma EnterItem(v: Json, i: nat)
    requires v.List? && i < |v.items|
    ensures Enter(v, Itoa(i)) == Some(v.items[i])
  {
    ItoaReads(i);
  }

  // ---------------------------------------------------------------- link, then resolve

  const SAME_PATH: (int, string) -> string := (step, path) => path

  lemma LinkKeepsKind(v: Json, origin: map<string, Ref>, supplied: set<string>)
    ensures LinkValue(v, origin, supplied).Int? ==> v.Int?
    ensures LinkValue(v, origin, supplied).Float? ==> v.Float?
    ensures LinkValue(v, origin, supplied).Text? ==> v.Text?
  {
  }

  ghost predicate IsLinked(members: map<string, Json>, linked: map<string, Json>,
          origin: map<string, Ref>, supplied: set<string>)
  {
    linked.Keys == members.Keys && forall k :: k in members ==> linked[k] == LinkValue(members[k], origin, supplied)
  }

  /** Linking never makes the shape of a reference. */
  lemma LinkKeepsShape(members: map<string, Json>, linked: map<string, Json>, origin: map<string, Ref>,
          supplied: set<string>)
    requires AsRef(members).None? && IsLinked(members, linked, origin, supplied)
    ensures AsRef(linked).None?
  {
    assert |linked| == |linked.Keys| && |members| == |members.Keys|;
    if FROM_STEP in members && FROM_PATH in members {
      LinkKeepsKind(members[FROM_STEP], origin, supplied);
      LinkKeepsKind(members[FROM_PATH], origin, supplied);
      hide LinkValue;
    }
  }

  /** Resolving a linked input against the recorded answers gives the input back. */
  lemma {:induction false} LinkThenResolve(v: Json, origin: map<string, Ref>, supplied: set<string>,
          outcomes: seq<Json>)
    requires NoRefs(v) && Leads(origin, outcomes)
    ensures Resolve(LinkValue(v, origin, supplied), outcomes, SAME_PATH) == v
    decreases v
  {
    hide Lookup, Walk, Split, AsRef;
    match v
    case Object(members) =>
      var linked := LinkValue(v, origin, supplied).members;
      LinkKeepsShape(members, linked, origin, supplied);
      forall k | k in members
        ensures Resolve(linked[k], outcomes, SAME_PATH) == members[k]
      {
        LinkThenResolve(members[k], origin, supplied, outcomes);
      }
      assert Resolve(Object(linked), outcomes, SAME_PATH).members == members;
    case List(items) =>
      var linked := LinkValue(v, origin, supplied).items;
      forall i | 0 <= i < |items|
        ensures Resolve(linked[i], outcomes, SAME_PATH) == items[i]
      {
        LinkThenResolve(items[i], origin, supplied, outcomes);
      }
      assert Resolve(List(linked), outcomes, SAME_PATH).items == items;
    case Text(s) =>
      if s !in supplied && s in origin {
        FromIsRef(origin[s]);
        DirectHitWins(outcomes[origin[s].step], origin[s].path);
      }
    case _ =>
  }

  lemma DirectHitWins(out: Json, path: string)
    ensures Walk(out, Split(path)).Some? ==> Lookup(out, path) == Walk(out, Split(path))
  {
  }

  function Outputs(steps: seq<StepEntry>): seq<Json> {
    seq(|steps|, i requires 0 <= i < |steps| => Object(steps[i].output))
  }

  /** The state of a linking after i steps: what is known of issued identifiers, and what callers have
      supplied themselves, which is literal from then on. */
  datatype Linking = Linking(origin: map<string, Ref>, supplied: set<string>)

  ghost predicate LinksFrom(before: Linking, after: Linking, was: StepEntry, linked: StepEntry,
          outcomes: seq<Json>, step: nat)
  {
    && linked == was.(input := linked.input)
    && Object(linked.input) == LinkValue(Object(was.input), before.origin, before.supplied)
    && after.supplied == before.supplied + Literals(Object(linked.input))
    && Indexed(before.origin, after.origin, Identifiers(Object(was.output)), outcomes, step,
         Namable(Object(was.output)))
    && Added(before.origin, after.origin, Object(was.output), "") && AllKnown(after.origin, Object(was.output), "")
  }

  /** Rewrites the inputs of a recording in place, one step after another: each is linked with what the
      answers of the steps before it issued and no step up to it supplied. */
  method LinkInputs(steps: array<StepEntry>) returns (ghost trace: seq<Linking>)
    modifies steps
    ensures |trace| == steps.Length + 1 && trace[0] == Linking(map[], {})
    ensures forall i :: 0 <= i < steps.Length ==>
      LinksFrom(trace[i], trace[i + 1], old(steps[i]), steps[i], Outputs(old(steps[..])), i)
  {
    hide LinkValue, Literals, Identifiers, Indexed, Namable, IsAt, KeysNamable, Added, AllKnown, Stands;
    ghost var was, outcomes := steps[..], Outputs(steps[..]);
    var origin: map<string, Ref>, supplied: set<string> := map[], {};
    trace := [Linking(origin, supplied)];
    for i := 0 to steps.Length
      invariant |trace| == i + 1 && trace[0] == Linking(map[], {}) && trace[i] == Linking(origin, supplied)
      invariant forall j :: i <= j < steps.Length ==> steps[j] == was[j]
      invariant forall j :: 0 <= j < i ==> LinksFrom(trace[j], trace[j + 1], was[j], steps[j], outcomes, j)
    {
      var step := steps[i];
      LinkedIsObject(step.input, origin, supplied);
      var linked := LinkValue(Object(step.input), origin, supplied);
      steps[i] := step.(input := linked.members);
      supplied := supplied + Literals(linked);
      ghost var before := origin;
      origin := IndexOutput(i, "", Object(step.output), outcomes, origin);
      TopIsAt(before, origin, outcomes, i, step.output);
      trace := trace + [Linking(origin, supplied)];
    }
  }

  lemma LinkedIsObject(members: map<string, Json>, origin: map<string, Ref>, supplied: set<string>)
    ensures LinkValue(Object(members), origin, supplied).Object?
  {
  }

  lemma TopIsAt(origin: map<string, Ref>, indexed: map<string, Ref>, outcomes: seq<Json>, i: nat,
          output: map<string, Json>)
    requires i < |outcomes| && outcomes[i] == Object(output)
    requires var v := Object(output);
      Indexed(origin, indexed, Identifiers(v), outcomes, i, KeysNamable(v) && IsAt(outcomes[i], "", v))
    ensures Indexed(origin, indexed, Identifiers(Object(output)), outcomes, i, Namable(Object(output)))
  {
  }

  ghost predicate LeadsBefore(origin: map<string, Ref>, outcomes: seq<Json>, i: nat) {
    Leads(origin, outcomes) && forall t :: t in origin ==> origin[t].step < i
  }

  lemma {:induction false} OriginsLead(was: seq<StepEntry>, linked: seq<StepEntry>, trace: seq<Linking>, i: nat)
    requires |trace| == |was| + 1 && |linked| == |was| && trace[0] == Linking(map[], {}) && i <= |was|
    requires forall j :: 0 <= j < |was| ==> LinksFrom(trace[j], trace[j + 1], was[j], linked[j], Outputs(was), j)
    requires forall s :: s in was ==> Namable(Object(s.output))
    ensures LeadsBefore(trace[i].origin, Outputs(was), i)
  {
    hide Namable, Walk, Split, Identifiers, LinkValue, Literals, Added, AllKnown;
    if i > 0 {
      OriginsLead(was, linked, trace, i - 1);
      assert LinksFrom(trace[i - 1], trace[i], was[i - 1], linked[i - 1], Outputs(was), i - 1);
      assert was[i - 1] in was;
    }
  }

  /** Linking a recording and resolving it are inverse: where paths can name every member answered and
      no input has the shape of a reference, each linked input, resolved against the answers recorded
      before it, is the input that was recorded. */
  lemma LinkedRecordingResolves(was: seq<StepEntry>, linked: seq<StepEntry>, trace: seq<Linking>, i: nat)
    requires |trace| == |was| + 1 && |linked| == |was| && trace[0] == Linking(map[], {}) && i < |was|
    requires forall j :: 0 <= j < |was| ==> LinksFrom(trace[j], trace[j + 1], was[j], linked[j], Outputs(was), j)
    requires forall s :: s in was ==> Namable(Object(s.output)) && NoRefs(Object(s.input))
    ensures Resolve(Object(linked[i].input), Outputs(was)[..i], SAME_PATH) == Object(was[i].input)
  {
    OriginsLead(was, linked, trace, i);
    assert LinksFrom(trace[i], trace[i + 1], was[i], linked[i], Outputs(was), i);
    assert was[i] in was;
    LinkThenResolve(Object(was[i].input), trace[i].origin, trace[i].supplied, Outputs(was)[..i]);
  }
}
