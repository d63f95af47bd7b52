/** The comparison of recorded answers with a candidate's, up to one renaming of generated
    identifiers over the whole run (internal/equivalence/equivalence.go). */
module Unifiers {
  import opened Texts
  import opened Answers

  // ---------------------------------------------------------------- tokens

  predicate AllHex(s: string) {
    forall i :: 0 <= i < |s| ==> HexDigit(s[i]).Some?
  }

  predicate IsUuid(s: string) {
    && |s| == 36 && s[8] == '-' && s[13] == '-' && s[18] == '-' && s[23] == '-'
    && AllHex(s[..8] + s[9..13] + s[14..18] + s[19..23] + s[24..])
  }

  /** A string shaped like a generated identifier; anything else has to match exactly. */
  predicate LooksGenerated(s: string) {
    (|s| >= 8 && AllHex(s)) || IsUuid(s)
  }

  /** Absent, an empty list and an empty object say the same thing. */
  predicate Blank(v: Json) {
    v == Null || v == List([]) || v == Object(map[])
  }

  // ---------------------------------------------------------------- one renaming

  type Renaming = map<string, string>

  ghost predicate Injective(r: Renaming) {
    forall a, b :: a in r && b in r && r[a] == r[b] ==> a == b
  }

  ghost predicate Extends(r: Renaming, small: Renaming) {
    forall a :: a in small ==> a in r && r[a] == small[a]
  }

  predicate TextRelated(r: Renaming, s: string, t: string) {
    s == t || (LooksGenerated(s) && LooksGenerated(t) && s in r && r[s] == t)
  }

  /** The two answers are one under the renaming, up to blank members. */
  ghost predicate Related(r: Renaming, want: Json, got: Json)
    decreases want, 1
  {
    if Blank(want) && Blank(got) then true
    else
      match want
      case Object(_) => got.Object? && forall k :: k in Names(want, got) ==> MemberRelated(r, want, got, k)
      case List(ws) => got.List? && |ws| == |got.items| && forall i :: 0 <= i < |ws| ==> Related(r, ws[i], got.items[i])
      case Text(s) => got.Text? && TextRelated(r, s, got.s)
      case _ => Printed(want) == Printed(got)
  }

  function Names(want: Json, got: Json): set<string>
    requires want.Object? && got.Object?
  {
    want.members.Keys + got.members.Keys
  }

  ghost predicate MemberRelated(r: Renaming, want: Json, got: Json, k: string)
    requires want.Object? && got.Object? && k in Names(want, got)
    decreases want, 0
  {
    if k !in got.members then Blank(want.members[k])
    else if k !in want.members then Blank(got.members[k])
    else Related(r, want.members[k], got.members[k])
  }

  /** Two generated identifiers stand at the same place of the two answers. */
  ghost predicate Meets(want: Json, got: Json, p: (string, string))
    decreases want, 1
  {
    match want
    case Object(_) => got.Object? && exists k :: k in want.members && k in got.members && MeetsAt(want, got, k, p)
    case List(ws) => got.List? && |ws| == |got.items| && exists i :: 0 <= i < |ws| && Meets(ws[i], got.items[i], p)
    case Text(s) => got.Text? && LooksGenerated(s) && LooksGenerated(got.s) && p == (s, got.s)
    case _ => false
  }

  ghost predicate MeetsAt(want: Json, got: Json, k: string, p: (string, string))
    requires want.Object? && got.Object? && k in want.members && k in got.members
    decreases want, 0
  {
    Meets(want.members[k], got.members[k], p)
  }

  ghost predicate MeetsAmong(want: Json, got: Json, ks: set<string>, p: (string, string))
    requires want.Object? && got.Object?
  {
    exists k :: k in ks && k in want.members && k in got.members && MeetsAt(want, got, k, p)
  }

  ghost predicate MeetsBefore(want: Json, got: Json, n: nat, p: (string, string))
    requires want.List? && got.List?
  {
    exists i :: 0 <= i < n && i < |want.items| == |got.items| && Meets(want.items[i], got.items[i], p)
  }

  /** Answers that are related meet in identifiers that are. */
  lemma {:induction false} RelatedMeets(r: Renaming, want: Json, got: Json, p: (string, string))
    requires Related(r, want, got) && Meets(want, got, p)
    ensures TextRelated(r, p.0, p.1)
    decreases want
  {
    if want.Object? {
      var k :| k in want.members && k in got.members && MeetsAt(want, got, k, p);
      assert k in Names(want, got) && MemberRelated(r, want, got, k);
      RelatedMeets(r, want.members[k], got.members[k], p);
    } else if want.List? {
      var i :| 0 <= i < |want.items| && Meets(want.items[i], got.items[i], p);
      RelatedMeets(r, want.items[i], got.items[i], p);
    }
  }

  // ---------------------------------------------------------------- where two answers differ

  datatype Part = Member(name: string) | Index(i: nat)

  type Path = seq<Part>

  datatype Diff = Diff(path: Path, note: string)

  /** The places at which two answers at a path are not one under the renaming. */
  ghost function Differences(r: Renaming, want: Json, got: Json, path: Path): set<Path>
    decreases want, 2
  {
    if Blank(want) && Blank(got) then {}
    else
      match want
      case Object(_) => if !got.Object? then {path} else MembersDiffer(r, want, got, path, Names(want, got))
      case List(ws) =>
        if !got.List? || |ws| != |got.items| then {path} else ItemsDiffer(r, want, got, path, |ws|)
      case Text(s) => if got.Text? && TextRelated(r, s, got.s) then {} else {path}
      case _ => if Printed(want) == Printed(got) then {} else {path}
  }

  ghost function MembersDiffer(r: Renaming, want: Json, got: Json, path: Path, ks: set<string>): set<Path>
    requires want.Object? && got.Object? && ks <= Names(want, got)
    decreases want, 1
  {
    set k, d | k in ks && d in MemberDiffers(r, want, got, path, k) :: d
  }

  ghost function MemberDiffers(r: Renaming, want: Json, got: Json, path: Path, k: string): set<Path>
    requires want.Object? && got.Object? && k in Names(want, got)
    decreases want, 0
  {
    if k !in got.members then if Blank(want.members[k]) then {} else {path + [Member(k)]}
    else if k !in want.members then if Blank(got.members[k]) then {} else {path + [Member(k)]}
    else Differences(r, want.members[k], got.members[k], path + [Member(k)])
  }

  ghost function ItemsDiffer(r: Renaming, want: Json, got: Json, path: Path, n: nat): set<Path>
    requires want.List? && got.List? && n <= |want.items| == |got.items|
    decreases want, 0
  {
    set i, d | 0 <= i < n && d in Differences(r, want.items[i], got.items[i], path + [Index(i)]) :: d
  }

  /** They are one exactly where there is none. */
  lemma {:induction false} RelatedExactly(r: Renaming, want: Json, got: Json, path: Path)
    ensures Related(r, want, got) <==> Differences(r, want, got, path) == {}
    decreases want
  {
    if !(Blank(want) && Blank(got)) {
      if want.Object? && got.Object? {
        forall k | k in Names(want, got)
          ensures MemberRelated(r, want, got, k) <==> MemberDiffers(r, want, got, path, k) == {}
        {
          if k in want.members && k in got.members {
            RelatedExactly(r, want.members[k], got.members[k], path + [Member(k)]);
          }
        }
        NoneDiffer(r, want, got, path);
      } else if want.List? && got.List? && |want.items| == |got.items| {
        forall i | 0 <= i < |want.items|
          ensures var there := path + [Index(i)];
            Related(r, want.items[i], got.items[i]) <==> Differences(r, want.items[i], got.items[i], there) == {}
        {
          RelatedExactly(r, want.items[i], got.items[i], path + [Index(i)]);
        }
        NoItemsDiffer(r, want, got, path);
      }
    }
  }

  lemma NoneDiffer(r: Renaming, want: Json, got: Json, path: Path)
    requires want.Object? && got.Object?
    ensures MembersDiffer(r, want, got, path, Names(want, got)) == {} <==>
      forall k :: k in Names(want, got) ==> MemberDiffers(r, want, got, path, k) == {}
  {
    hide MemberDiffers;
    var all := MembersDiffer(r, want, got, path, Names(want, got));
    forall k, d | k in Names(want, got) && d in MemberDiffers(r, want, got, path, k)
      ensures d in all
    {
    }
  }

  lemma NoItemsDiffer(r: Renaming, want: Json, got: Json, path: Path)
    requires want.List? && got.List? && |want.items| == |got.items|
    ensures ItemsDiffer(r, want, got, path, |want.items|) == {} <==>
      forall i :: 0 <= i < |want.items| ==> Differences(r, want.items[i], got.items[i], path + [Index(i)]) == {}
  {
    hide Differences;
    var all := ItemsDiffer(r, want, got, path, |want.items|);
    forall i, d | 0 <= i < |want.items| && d in Differences(r, want.items[i], got.items[i], path + [Index(i)])
      ensures d in all
    {
    }
  }

  /** The renaming says what becomes of the pair: no larger one can make it anything else. */
  ghost predicate Decides(r: Renaming, p: (string, string)) {
    p.0 == p.1 || p.0 in r || p.1 in r.Values
  }

  ghost predicate DecidesAll(r: Renaming, want: Json, got: Json) {
    forall p :: Meets(want, got, p) ==> Decides(r, p)
  }

  /** Once decided, what differs stays what differs. */
  lemma {:induction false} DifferencesStay(r: Renaming, larger: Renaming, want: Json, got: Json, path: Path)
    requires Injective(larger) && Extends(larger, r) && DecidesAll(r, want, got)
    ensures Differences(larger, want, got, path) == Differences(r, want, got, path)
    decreases want, 1
  {
    if !(Blank(want) && Blank(got)) {
      if want.Object? && got.Object? {
        forall p | MeetsAmong(want, got, Names(want, got), p)
          ensures Decides(r, p)
        {
          assert Meets(want, got, p);
        }
        MembersStay(r, larger, want, got, path, Names(want, got));
      } else if want.List? && got.List? && |want.items| == |got.items| {
        forall p | MeetsBefore(want, got, |want.items|, p)
          ensures Decides(r, p)
        {
          assert Meets(want, got, p);
        }
        ItemsStay(r, larger, want, got, path, |want.items|);
      } else if want.Text? && got.Text? {
        TextStays(r, larger, want.s, got.s);
      }
    }
  }

  lemma TextStays(r: Renaming, larger: Renaming, s: string, t: string)
    requires Injective(larger) && Extends(larger, r) && (LooksGenerated(s) && LooksGenerated(t) ==> Decides(r, (s, t)))
    ensures TextRelated(larger, s, t) <==> TextRelated(r, s, t)
  {
    hide LooksGenerated;
    if LooksGenerated(s) && LooksGenerated(t) && s != t && s !in r {
      var a :| a in r && r[a] == t;
      assert larger[a] == t;
    }
  }

  lemma {:induction false} MembersStay(r: Renaming, larger: Renaming, want: Json, got: Json, path: Path,
                                       ks: set<string>)
    requires want.Object? && got.Object? && ks <= Names(want, got)
    requires Injective(larger) && Extends(larger, r)
    requires forall p :: MeetsAmong(want, got, ks, p) ==> Decides(r, p)
    ensures MembersDiffer(larger, want, got, path, ks) == MembersDiffer(r, want, got, path, ks)
    decreases want, 0
  {
    hide Injective, Extends, Decides;
    forall k | k in ks
      ensures MemberDiffers(larger, want, got, path, k) == MemberDiffers(r, want, got, path, k)
    {
      if k in want.members && k in got.members {
        forall p | Meets(want.members[k], got.members[k], p)
          ensures Decides(r, p)
        {
          assert MeetsAt(want, got, k, p);
          assert MeetsAmong(want, got, ks, p);
        }
        DifferencesStay(r, larger, want.members[k], got.members[k], path + [Member(k)]);
      }
    }
    hide MemberDiffers;
  }

  lemma {:induction false} ItemsStay(r: Renaming, larger: Renaming, want: Json, got: Json, path: Path, n: nat)
    requires want.List? && got.List? && n <= |want.items| == |got.items|
    requires Injective(larger) && Extends(larger, r)
    requires forall p :: MeetsBefore(want, got, n, p) ==> Decides(r, p)
    ensures ItemsDiffer(larger, want, got, path, n) == ItemsDiffer(r, want, got, path, n)
    decreases want, 0
  {
    hide Injective, Extends, Decides;
    forall i | 0 <= i < n
      ensures var there := path + [Index(i)];
        Differences(larger, want.items[i], got.items[i], there) == Differences(r, want.items[i], got.items[i], there)
    {
      forall p | Meets(want.items[i], got.items[i], p)
        ensures Decides(r, p)
      {
        assert MeetsBefore(want, got, n, p);
      }
      DifferencesStay(r, larger, want.items[i], got.items[i], path + [Index(i)]);
    }
    hide Differences;
  }

  lemma OneMoreMember(r: Renaming, want: Json, got: Json, path: Path, ks: set<string>, k: string)
    requires want.Object? && got.Object? && ks <= Names(want, got) && k in Names(want, got)
    ensures MembersDiffer(r, want, got, path, ks + {k}) ==
      MembersDiffer(r, want, got, path, ks) + MemberDiffers(r, want, got, path, k)
  {
    hide MemberDiffers;
  }

  lemma OneMoreItem(r: Renaming, want: Json, got: Json, path: Path, n: nat)
    requires want.List? && got.List? && n < |want.items| == |got.items|
    ensures ItemsDiffer(r, want, got, path, n + 1) ==
      ItemsDiffer(r, want, got, path, n) + Differences(r, want.items[n], got.items[n], path + [Index(n)])
  {
    hide Differences;
  }

  function Places(diffs: seq<Diff>): set<Path> {
    set d | d in diffs :: d.path
  }

  function Report(path: Path, note: string): (diffs: seq<Diff>)
    ensures |diffs| == 1 && diffs[0].path == path && Places(diffs) == {path}
  {
    assert Diff(path, note) in [Diff(path, note)];
    [Diff(path, note)]
  }

  lemma PlaceOf(d: Diff)
    ensures Places([d]) == {d.path}
  {
    assert d in [d];
  }

  lemma NoPlace()
    ensures Places([]) == {}
  {
  }

  lemma PlacesJoin(a: seq<Diff>, b: seq<Diff>)
    ensures Places(a + b) == Places(a) + Places(b)
    ensures Places(a) == {} <==> a == []
  {
    forall d | d in a + b
      ensures d in a || d in b
    {
    }
    if a != [] {
      assert a[0] in a;
      assert a[0].path in Places(a);
    }
  }

  // ---------------------------------------------------------------- the unifier

  /** A renaming that the bindings so far allow and that makes the two answers one. */
  ghost predicate Candidate(r: Renaming, before: Renaming, want: Json, got: Json) {
    Injective(r) && Extends(r, before) && Related(r, want, got)
  }

  /** A comparison loses no candidate: where there is one it reports nothing and binds no more. */
  ghost predicate Complete(before: Renaming, after: Renaming, want: Json, got: Json, same: bool) {
    forall r {:trigger Candidate(r, before, want, got)} :: Candidate(r, before, want, got) ==> same && Extends(r, after)
  }

  class Unifier {
    var bound: map<string, string>
    var used: map<string, string>
    /** The pairs of generated identifiers met at the same place on both sides. */
    ghost var met: set<(string, string)>

    constructor ()
      ensures bound == map[] && used == map[] && met == {} && Valid()
    {
      bound, used, met := map[], map[], {};
    }

    /** The two directions are each other's inverse, and every binding is of two identifiers that
        differ and were met. */
    ghost predicate Valid()
      reads this
    {
      && (forall a :: a in bound ==> bound[a] in used && used[bound[a]] == a)
      && (forall b :: b in used ==> used[b] in bound && bound[used[b]] == b)
      && (forall a :: a in bound ==> (a, bound[a]) in met && a != bound[a])
    }

    /** What became of every pair met is settled for good. */
    ghost predicate Decided()
      reads this
    {
      forall p :: p in met ==> Decides(bound, p)
    }

    /** Records a substitution unless it contradicts an earlier one in either direction. */
    method Unify(path: Path, want: string, got: string) returns (diffs: seq<Diff>)
      requires Valid() && want != got && (want, got) in met && LooksGenerated(want) && LooksGenerated(got)
      modifies this`bound, this`used
      ensures Valid() && Extends(bound, old(bound))
      ensures diffs == [] ==> bound == old(bound)[want := got]
      ensures diffs != [] ==> bound == old(bound)
      ensures Decides(bound, (want, got)) && Places(diffs) == if TextRelated(bound, want, got) then {} else {path}
      ensures forall r :: Injective(r) && Extends(r, old(bound)) && want in r && r[want] == got ==> diffs == []
    {
      NoPlace();
      if want in bound && bound[want] != got {
        return Report(path, "identifier was already matched to another");
      }
      assert want in bound ==> got in used && used[got] == want;
      if got in used && used[got] != want {
        return Report(path, "identifier is already standing in for another");
      }
      bound := bound[want := got];
      used := used[got := want];
      diffs := [];
    }

    /** Compares two answers. The places reported are exactly those at which they differ under the bindings
        it leaves, and so under every renaming that has them. */
    method Compare(path: Path, want: Json, got: Json) returns (diffs: seq<Diff>)
      requires Valid() && Decided()
      modifies this
      ensures Valid() && Decided() && Extends(bound, old(bound))
      ensures Places(diffs) == Differences(bound, want, got, path)
      ensures forall p :: p in met <==> p in old(met) || Meets(want, got, p)
      ensures Complete(old(bound), bound, want, got, diffs == [])
      decreases want, 2
    {
      if Blank(want) && Blank(got) {
        return [];
      }
      hide Decides, MembersDiffer, ItemsDiffer, MeetsAt, MemberRelated, Places, TextRelated, Extends, Injective;
      hide Blank, Names;
      NoPlace();
      match want
      case Object(_) =>
        if !got.Object? {
          return Report(path, "shape differs");
        }
        diffs := CompareMembers(path, want, got);
      case List(_) =>
        if !got.List? {
          return Report(path, "shape differs");
        }
        if |want.items| != |got.items| {
          return Report(path, "length differs");
        }
        diffs := CompareItems(path, want, got);
      case Text(s) =>
        if !got.Text? {
          return Report(path, "type differs");
        }
        diffs := CompareText(path, s, got.s);
      case _ =>
        diffs := if Printed(want) != Printed(got) then Report(path, "") else [];
    }

    method CompareText(path: Path, want: string, got: string) returns (diffs: seq<Diff>)
      requires Valid() && Decided()
      modifies this
      ensures Valid() && Decided() && Extends(bound, old(bound))
      ensures Places(diffs) == Differences(bound, Text(want), Text(got), path)
      ensures forall p :: p in met <==> p in old(met) || Meets(Text(want), Text(got), p)
      ensures Complete(old(bound), bound, Text(want), Text(got), diffs == [])
    {
      hide Places, LooksGenerated;
      NoPlace();
      if LooksGenerated(want) && LooksGenerated(got) {
        met := met + {(want, got)};
      }
      if want == got {
        return [];
      }
      if LooksGenerated(want) && LooksGenerated(got) {
        diffs := Unify(path, want, got);
      } else {
        diffs := Report(path, "");
      }
    }

    /** The members of two objects, in whatever order they are visited. */
    method CompareMembers(path: Path, want: Json, got: Json) returns (diffs: seq<Diff>)
      requires Valid() && Decided() && want.Object? && got.Object? && !(Blank(want) && Blank(got))
      modifies this
      ensures Valid() && Decided() && Extends(bound, old(bound))
      ensures Places(diffs) == Differences(bound, want, got, path)
      ensures forall p :: p in met <==> p in old(met) || Meets(want, got, p)
      ensures Complete(old(bound), bound, want, got, diffs == [])
      decreases want, 1
    {
      diffs := [];
      var todo := Names(want, got);
      ghost var done: set<string> := {};
      while todo != {}
        invariant done + todo == Names(want, got)
        invariant Valid() && Decided() && Extends(bound, old(bound))
        invariant Places(diffs) == MembersDiffer(bound, want, got, path, done)
        invariant forall p :: p in met <==> p in old(met) || MeetsAmong(want, got, done, p)
        invariant Complete(old(bound), bound, want, got, diffs == [])
        decreases todo
      {
        hide Blank, Related, Differences, Meets, Complete, Injective, MembersDiffer, MemberDiffers, MeetsAt;
        hide Decides, Places;
        var k :| k in todo;
        todo := todo - {k};
        ghost var before := bound;
        var more := CompareMember(path, want, got, k);
        ValidIsInjective(this);
        MemberStep(before, bound, want, got, path, done, k, diffs, more);
        CompleteJoins(old(bound), before, bound, want, got, diffs == [], more == []);
        MeetsOneMore(want, got, done, k);
        done := done + {k};
        diffs := diffs + more;
      }
    }

    method CompareMember(path: Path, want: Json, got: Json, k: string) returns (diffs: seq<Diff>)
      requires Valid() && Decided() && want.Object? && got.Object? && !(Blank(want) && Blank(got))
      requires k in Names(want, got)
      modifies this
      ensures Valid() && Decided() && Extends(bound, old(bound))
      ensures Places(diffs) == MemberDiffers(bound, want, got, path, k)
      ensures forall p :: p in met <==> p in old(met) || MeetsAmong(want, got, {k}, p)
      ensures Complete(old(bound), bound, want, got, diffs == [])
      decreases want, 0
    {
      diffs := [];
      if k !in got.members {
        if !Blank(want.members[k]) {
          diffs := Report(path + [Member(k)], "member missing");
        }
        MemberComplete(bound, bound, want, got, k, diffs == []);
      } else if k !in want.members {
        if !Blank(got.members[k]) {
          diffs := Report(path + [Member(k)], "unexpected member");
        }
        MemberComplete(bound, bound, want, got, k, diffs == []);
      } else {
        ghost var before := bound;
        diffs := Compare(path + [Member(k)], want.members[k], got.members[k]);
        MemberComplete(before, bound, want, got, k, diffs == []);
        assert forall p :: MeetsAmong(want, got, {k}, p) <==> MeetsAt(want, got, k, p);
      }
    }

    method CompareItems(path: Path, want: Json, got: Json) returns (diffs: seq<Diff>)
      requires Valid() && Decided() && want.List? && got.List? && |want.items| == |got.items|
      requires !(Blank(want) && Blank(got))
      modifies this
      ensures Valid() && Decided() && Extends(bound, old(bound))
      ensures Places(diffs) == Differences(bound, want, got, path)
      ensures forall p :: p in met <==> p in old(met) || Meets(want, got, p)
      ensures Complete(old(bound), bound, want, got, diffs == [])
      decreases want, 1
    {
      diffs := [];
      for i := 0 to |want.items|
        invariant Valid() && Decided() && Extends(bound, old(bound))
        invariant Places(diffs) == ItemsDiffer(bound, want, got, path, i)
        invariant forall p :: p in met <==> p in old(met) || MeetsBefore(want, got, i, p)
        invariant Complete(old(bound), bound, want, got, diffs == [])
      {
        hide Blank, Related, Differences, Meets, Complete, Injective, ItemsDiffer, Decides, Places;
        ghost var before := bound;
        var more := Compare(path + [Index(i)], want.items[i], got.items[i]);
        ValidIsInjective(this);
        ItemStep(before, bound, want, got, path, i, diffs, more);
        ItemComplete(before, bound, want, got, i, more == []);
        CompleteJoins(old(bound), before, bound, want, got, diffs == [], more == []);
        MeetsOneItemMore(want, got, i);
        diffs := diffs + more;
      }
    }
  }

  lemma MeetsOneMore(want: Json, got: Json, ks: set<string>, k: string)
    requires want.Object? && got.Object?
    ensures forall p :: MeetsAmong(want, got, ks + {k}, p) <==>
      MeetsAmong(want, got, ks, p) || MeetsAmong(want, got, {k}, p)
  {
    hide MeetsAt;
  }

  lemma MeetsOneItemMore(want: Json, got: Json, n: nat)
    requires want.List? && got.List? && n < |want.items| == |got.items|
    ensures forall p :: MeetsBefore(want, got, n + 1, p) <==>
      MeetsBefore(want, got, n, p) || Meets(want.items[n], got.items[n], p)
  {
    hide Meets;
  }

  lemma MemberStep(before: Renaming, after: Renaming, want: Json, got: Json, path: Path, done: set<string>, k: string,
                   diffs: seq<Diff>, more: seq<Diff>)
    requires want.Object? && got.Object? && done <= Names(want, got) && k in Names(want, got)
    requires Injective(after) && Extends(after, before)
    requires forall p :: MeetsAmong(want, got, done, p) ==> Decides(before, p)
    requires Places(diffs) == MembersDiffer(before, want, got, path, done)
    requires Places(more) == MemberDiffers(after, want, got, path, k)
    ensures Places(diffs + more) == MembersDiffer(after, want, got, path, done + {k})
  {
    hide MemberDiffers, MembersDiffer, Places, Injective, Extends, Decides, MeetsAmong;
    MembersStay(before, after, want, got, path, done);
    OneMoreMember(after, want, got, path, done, k);
    PlacesJoin(diffs, more);
  }

  lemma ItemStep(before: Renaming, after: Renaming, want: Json, got: Json, path: Path, n: nat,
                 diffs: seq<Diff>, more: seq<Diff>)
    requires want.List? && got.List? && n < |want.items| == |got.items|
    requires Injective(after) && Extends(after, before)
    requires forall p :: MeetsBefore(want, got, n, p) ==> Decides(before, p)
    requires Places(diffs) == ItemsDiffer(before, want, got, path, n)
    requires Places(more) == Differences(after, want.items[n], got.items[n], path + [Index(n)])
    ensures Places(diffs + more) == ItemsDiffer(after, want, got, path, n + 1)
  {
    hide Differences, ItemsDiffer, Places, Injective, Extends, Decides, MeetsBefore;
    ItemsStay(before, after, want, got, path, n);
    OneMoreItem(after, want, got, path, n);
    PlacesJoin(diffs, more);
  }

  /** Completeness over two parts, one after the other. */
  lemma CompleteJoins(start: Renaming, before: Renaming, after: Renaming, want: Json, got: Json, same: bool, more: bool)
    requires Complete(start, before, want, got, same) && Complete(before, after, want, got, more)
    ensures Complete(start, after, want, got, same && more)
  {
    hide Related, Injective;
    forall r | Candidate(r, start, want, got)
      ensures same && more && Extends(r, after)
    {
      assert Candidate(r, before, want, got);
    }
  }

  /** Completeness of a whole from that of a member: a candidate for the whole is one for the member. */
  lemma MemberComplete(before: Renaming, after: Renaming, want: Json, got: Json, k: string, same: bool)
    requires want.Object? && got.Object? && k in Names(want, got) && !(Blank(want) && Blank(got))
    requires if k !in got.members then before == after && (Blank(want.members[k]) ==> same)
      else if k !in want.members then before == after && (Blank(got.members[k]) ==> same)
      else Complete(before, after, want.members[k], got.members[k], same)
    ensures Complete(before, after, want, got, same)
  {
    forall r | Candidate(r, before, want, got)
      ensures same && Extends(r, after)
    {
      assert MemberRelated(r, want, got, k);
      if k in want.members && k in got.members {
        assert Candidate(r, before, want.members[k], got.members[k]);
      }
    }
  }

  lemma ItemComplete(before: Renaming, after: Renaming, want: Json, got: Json, i: nat, same: bool)
    requires want.List? && got.List? && i < |want.items| == |got.items| && !(Blank(want) && Blank(got))
    requires Complete(before, after, want.items[i], got.items[i], same)
    ensures Complete(before, after, want, got, same)
  {
    forall r | Candidate(r, before, want, got)
      ensures same && Extends(r, after)
    {
      assert Candidate(r, before, want.items[i], got.items[i]);
    }
  }

  // ---------------------------------------------------------------- a whole run

  /** What a handler did with a step: an answer, or a refusal by code, status and kind (`class` in the recording). */
  datatype Outcome = Answer(output: Json) | Fault(code: string, status: int, kind: string)

  /** A step that is superseded only asserts that it succeeds. */
  ghost predicate OutcomeRelated(r: Renaming, want: Outcome, got: Outcome, superseded: bool) {
    if want.Answer? && got.Answer? then superseded || Related(r, want.output, got.output) else want == got
  }

  ghost predicate AllRelated(r: Renaming, wants: seq<Outcome>, gots: seq<Outcome>, superseded: seq<bool>)
    requires |wants| == |gots| == |superseded|
  {
    forall i :: 0 <= i < |wants| ==> OutcomeRelated(r, wants[i], gots[i], superseded[i])
  }

  const FAULT: Path := [Member("fault")]

  function FaultDiffers(want: Outcome, got: Outcome): set<Path>
    requires want.Fault? && got.Fault?
  {
    (if want.code != got.code then {FAULT + [Member("code")]} else {}) +
    (if want.status != got.status then {FAULT + [Member("status")]} else {}) +
    (if want.kind != got.kind then {FAULT + [Member("class")]} else {})
  }

  /** Under the renaming a step's outcomes differ at exactly the places that are exempted. */
  ghost predicate OutcomeStands(r: Renaming, want: Outcome, got: Outcome, superseded: bool, exempt: set<Path>) {
    if want.Answer? && got.Answer? then superseded || Differences(r, want.output, got.output, []) == exempt
    else want.Fault? && got.Fault? && FaultDiffers(want, got) == exempt
  }

  lemma StandsExactly(r: Renaming, want: Outcome, got: Outcome, superseded: bool)
    ensures OutcomeStands(r, want, got, superseded, {}) <==> OutcomeRelated(r, want, got, superseded)
  {
    if want.Answer? && got.Answer? {
      RelatedExactly(r, want.output, got.output, []);
    } else if want.Fault? && got.Fault? {
      assert FAULT + [Member("code")] in {FAULT + [Member("code")]};
      assert FAULT + [Member("status")] in {FAULT + [Member("status")]};
      assert FAULT + [Member("class")] in {FAULT + [Member("class")]};
    }
  }

  method CompareFaults(want: Outcome, got: Outcome) returns (diffs: seq<Diff>)
    requires want.Fault? && got.Fault?
    ensures Places(diffs) == FaultDiffers(want, got)
  {
    hide Places;
    diffs := [];
    NoPlace();
    if want.code != got.code {
      diffs := Report(FAULT + [Member("code")], "");
    }
    if want.status != got.status {
      PlacesJoin(diffs, Report(FAULT + [Member("status")], ""));
      diffs := diffs + Report(FAULT + [Member("status")], "");
    }
    if want.kind != got.kind {
      PlacesJoin(diffs, Report(FAULT + [Member("class")], ""));
      diffs := diffs + Report(FAULT + [Member("class")], "");
    }
  }

  /** Reports every exemption that excused nothing. */
  method Unused(exempt: set<Path>) returns (diffs: seq<Diff>)
    ensures Places(diffs) == exempt
  {
    hide Places;
    diffs := [];
    NoPlace();
    var todo := exempt;
    while todo != {}
      invariant todo <= exempt && Places(diffs) == exempt - todo
    {
      var q :| q in todo;
      todo := todo - {q};
      assert exempt - todo == exempt - (todo + {q}) + {q};
      var diff := Report(q, "the exemption excuses a member that does not diverge");
      PlacesJoin(diffs, diff);
      diffs := diffs + diff;
    }
  }

  /** Leaves out the differences that are exempted, and reports the exemptions that excused nothing: what is
      reported is where the two disagree. */
  method Excuse(diffs: seq<Diff>, exempt: set<Path>) returns (reported: seq<Diff>)
    ensures Places(reported) == (Places(diffs) - exempt) + (exempt - Places(diffs))
    ensures reported == [] <==> Places(diffs) == exempt
  {
    hide Places;
    reported := [];
    NoPlace();
    var used: set<Path> := {};
    for i := 0 to |diffs|
      invariant used == Places(diffs[..i]) * exempt
      invariant Places(reported) == Places(diffs[..i]) - exempt
    {
      assert diffs[..i + 1] == diffs[..i] + [diffs[i]];
      PlacesJoin(diffs[..i], [diffs[i]]);
      PlaceOf(diffs[i]);
      if diffs[i].path in exempt {
        used := used + {diffs[i].path};
      } else {
        PlacesJoin(reported, [diffs[i]]);
        reported := reported + [diffs[i]];
      }
    }
    assert diffs[..|diffs|] == diffs;
    var unused := Unused(exempt - used);
    PlacesJoin(reported, unused);
    reported := reported + unused;
    PlacesJoin(reported, []);
  }

  /** Two generated identifiers stand at the same place of a step's two answers, and the step is compared. */
  ghost predicate RunMeets(wants: seq<Outcome>, gots: seq<Outcome>, superseded: seq<bool>, p: (string, string))
    requires |wants| == |gots| == |superseded|
  {
    exists i :: 0 <= i < |wants| && StepMeets(wants[i], gots[i], superseded[i], p)
  }

  ghost predicate StepMeets(want: Outcome, got: Outcome, superseded: bool, p: (string, string)) {
    want.Answer? && got.Answer? && !superseded && Meets(want.output, got.output, p)
  }

  /** Compares one step's outcomes, all of a refusal or all of an answer. */
  method CompareStep(u: Unifier, want: Outcome, got: Outcome, superseded: bool, exempt: set<Path>)
    returns (diffs: seq<Diff>)
    requires u.Valid() && u.Decided()
    modifies u
    ensures u.Valid() && u.Decided() && Extends(u.bound, old(u.bound))
    ensures diffs == [] <==> OutcomeStands(u.bound, want, got, superseded, exempt)
    ensures forall p :: p in u.met <==> p in old(u.met) || StepMeets(want, got, superseded, p)
    ensures exempt == {} ==>
      forall r :: Injective(r) && Extends(r, old(u.bound)) && OutcomeRelated(r, want, got, superseded) ==>
        diffs == [] && Extends(r, u.bound)
  {
    hide Places, Differences, Related, Meets, Injective, FaultDiffers;
    diffs := [];
    if want.Fault? && got.Fault? {
      StandsExactly(u.bound, want, got, superseded);
      diffs := CompareFaults(want, got);
      diffs := Excuse(diffs, exempt);
    } else if want.Fault? || got.Fault? {
      diffs := Report(FAULT, if got.Answer? then "expected a fault" else "unexpected fault");
    } else if !superseded {
      ghost var before := u.bound;
      diffs := u.Compare([], want.output, got.output);
      PlacesJoin(diffs, []);
      diffs := Excuse(diffs, exempt);
      forall r | Injective(r) && Extends(r, before) && Related(r, want.output, got.output)
        ensures Candidate(r, before, want.output, got.output)
      {
      }
    }
  }

  /** Compares every recorded outcome with the candidate's under one unifier. Nothing is reported if and
      only if under the bindings every step differs at exactly the places exempted. With none exempted that
      is so if and only if one injective renaming makes every outcome the candidate's, and then the bindings
      are such a renaming, contained in every other. */
  method CompareRun(wants: seq<Outcome>, gots: seq<Outcome>, superseded: seq<bool>, exempt: seq<set<Path>>)
    returns (diffs: seq<Diff>, u: Unifier)
    requires |wants| == |gots| == |superseded| == |exempt|
    ensures fresh(u) && u.Valid() && Injective(u.bound)
    ensures forall p :: p in u.met <==> RunMeets(wants, gots, superseded, p)
    ensures diffs == [] <==>
      forall i :: 0 <= i < |wants| ==> OutcomeStands(u.bound, wants[i], gots[i], superseded[i], exempt[i])
    ensures (forall i :: 0 <= i < |wants| ==> exempt[i] == {}) ==>
      && (diffs == [] <==> exists r :: Injective(r) && AllRelated(r, wants, gots, superseded))
      && (diffs == [] ==> AllRelated(u.bound, wants, gots, superseded))
      && (diffs == [] ==> forall r :: Injective(r) && AllRelated(r, wants, gots, superseded) ==> Extends(r, u.bound))
  {
    hide Injective, OutcomeStands, OutcomeRelated, StepMeets, Decides;
    u := new Unifier();
    diffs := [];
    ghost var none := forall i :: 0 <= i < |wants| ==> exempt[i] == {};
    for i := 0 to |wants|
      invariant fresh(u) && u.Valid() && u.Decided()
      invariant diffs == [] <==>
        forall j :: 0 <= j < i ==> OutcomeStands(u.bound, wants[j], gots[j], superseded[j], exempt[j])
      invariant forall p :: p in u.met <==> exists j :: 0 <= j < i && StepMeets(wants[j], gots[j], superseded[j], p)
      invariant none ==> forall r {:trigger AllRelated(r, wants, gots, superseded)} ::
        Injective(r) && AllRelated(r, wants, gots, superseded) ==> diffs == [] && Extends(r, u.bound)
    {
      ghost var before := u.bound;
      var more := CompareStep(u, wants[i], gots[i], superseded[i], exempt[i]);
      ValidIsInjective(u);
      forall j | 0 <= j < i
        ensures OutcomeStands(u.bound, wants[j], gots[j], superseded[j], exempt[j])
            <==> OutcomeStands(before, wants[j], gots[j], superseded[j], exempt[j])
      {
        OutcomeStays(before, u.bound, wants[j], gots[j], superseded[j], exempt[j]);
      }
      diffs := diffs + more;
    }
    ValidIsInjective(u);
    if none && diffs == [] {
      forall i | 0 <= i < |wants|
        ensures OutcomeRelated(u.bound, wants[i], gots[i], superseded[i])
      {
        StandsExactly(u.bound, wants[i], gots[i], superseded[i]);
      }
      assert AllRelated(u.bound, wants, gots, superseded);
    }
  }

  /** What is decided of a step stays. */
  lemma OutcomeStays(r: Renaming, larger: Renaming, want: Outcome, got: Outcome, superseded: bool, exempt: set<Path>)
    requires Injective(larger) && Extends(larger, r)
    requires forall p :: StepMeets(want, got, superseded, p) ==> Decides(r, p)
    ensures OutcomeStands(larger, want, got, superseded, exempt) <==> OutcomeStands(r, want, got, superseded, exempt)
  {
    hide Injective, Extends, Decides, Meets, Differences;
    if want.Answer? && got.Answer? && !superseded {
      assert forall p :: Meets(want.output, got.output, p) ==> StepMeets(want, got, superseded, p);
      DifferencesStay(r, larger, want.output, got.output, []);
    }
  }

  lemma ValidIsInjective(u: Unifier)
    requires u.Valid()
    ensures Injective(u.bound)
  {
  }

  // ---------------------------------------------------------------- what it does not catch

  /** The identifiers that meet in a run correspond one to one. */
  ghost predicate OneToOne(wants: seq<Outcome>, gots: seq<Outcome>, superseded: seq<bool>)
    requires |wants| == |gots| == |superseded|
  {
    forall p, q :: RunMeets(wants, gots, superseded, p) && RunMeets(wants, gots, superseded, q) ==>
      (p.0 == q.0 <==> p.1 == q.1)
  }

  /** An identifier answered as itself is not recorded, so it does not stand in the way of another
      being renamed to it or from it. In a run that reports nothing, identifiers correspond one to one if
      and only if none that meets itself also meets another, on either side. */
  lemma OneToOneExactly(wants: seq<Outcome>, gots: seq<Outcome>, superseded: seq<bool>, r: Renaming)
    requires |wants| == |gots| == |superseded|
    requires Injective(r) && AllRelated(r, wants, gots, superseded)
    ensures OneToOne(wants, gots, superseded) <==>
      forall a, p :: RunMeets(wants, gots, superseded, (a, a)) && RunMeets(wants, gots, superseded, p) ==>
        (p.0 == a <==> p.1 == a)
  {
    if forall a, p :: RunMeets(wants, gots, superseded, (a, a)) && RunMeets(wants, gots, superseded, p) ==>
      (p.0 == a <==> p.1 == a)
    {
      forall p, q | RunMeets(wants, gots, superseded, p) && RunMeets(wants, gots, superseded, q)
        ensures p.0 == q.0 <==> p.1 == q.1
      {
        RunRelates(wants, gots, superseded, r, p);
        RunRelates(wants, gots, superseded, r, q);
        assert p == (p.0, p.1) && q == (q.0, q.1);
      }
    }
  }

  lemma RunRelates(wants: seq<Outcome>, gots: seq<Outcome>, superseded: seq<bool>, r: Renaming, p: (string, string))
    requires |wants| == |gots| == |superseded| && AllRelated(r, wants, gots, superseded)
    requires RunMeets(wants, gots, superseded, p)
    ensures TextRelated(r, p.0, p.1)
  {
    var i :| 0 <= i < |wants| && StepMeets(wants[i], gots[i], superseded[i], p);
    assert OutcomeRelated(r, wants[i], gots[i], superseded[i]);
    RelatedMeets(r, wants[i].output, gots[i].output, p);
  }

  /** So two recorded identifiers can be answered by one: the first equal to it, the second bound. */
  lemma TwoIdentifiersCollapse()
    ensures var a, b := "aaaaaaaa", "bbbbbbbb";
      var wants, gots := [Answer(Text(a)), Answer(Text(b))], [Answer(Text(a)), Answer(Text(a))];
      && Injective(map[b := a]) && AllRelated(map[b := a], wants, gots, [false, false])
      && RunMeets(wants, gots, [false, false], (a, a)) && RunMeets(wants, gots, [false, false], (b, a))
      && !OneToOne(wants, gots, [false, false])
  {
    var a, b := "aaaaaaaa", "bbbbbbbb";
    var wants, gots := [Answer(Text(a)), Answer(Text(b))], [Answer(Text(a)), Answer(Text(a))];
    assert AllHex(a) && AllHex(b);
    assert a[0] != b[0];
    assert OutcomeRelated(map[b := a], Answer(Text(b)), Answer(Text(a)), false);
    assert StepMeets(wants[0], gots[0], false, (a, a)) && StepMeets(wants[1], gots[1], false, (b, a));
  }
}
