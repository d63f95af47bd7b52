/** Which messages a receive takes: in order, at most one of a group and none of a closed one, or
    whole leading runs of groups (internal/engine/select.go). */
module Selections {

  /** A settled record as the selection sees it: its store key, the member it is grouped by, its
      state, what the filter and the order expression make of it, and its receive count. */
  datatype Item = Item(key: string, group: string, state: string, passes: bool, order: int, received: int)

  /** state "" takes any state, a limit that is not positive takes any number. */
  datatype Selector = Selector(state: string, ordered: bool, grouping: bool, exclusive: string, drain: bool, limit: int)

  predicate Selectable(sel: Selector, m: Item) {
    (sel.state == "" || m.state == sel.state) && m.passes
  }

  predicate Ungrouped(m: Item) {
    m.group == "" || m.group == "<nil>"
  }

  /** A message of no group is a group of its own, under its key. */
  function GroupOf(m: Item): string {
    if Ungrouped(m) then m.key else m.group
  }

  ghost predicate KeysDiffer(items: seq<Item>) {
    forall i, j :: 0 <= i < j < |items| ==> items[i].key != items[j].key
  }

  // ---------------------------------------------------------------- what the loops build

  function Candidates(sel: Selector, items: seq<Item>): (cs: seq<Item>)
    ensures forall m :: m in cs <==> m in items && Selectable(sel, m)
  {
    if items == [] then []
    else
      var init, last := Candidates(sel, items[..|items| - 1]), items[|items| - 1];
      assert items == items[..|items| - 1] + [last];
      if Selectable(sel, last) then init + [last] else init
  }

  function Members(items: seq<Item>, g: string): (ms: seq<Item>)
    ensures forall m :: m in ms <==> m in items && GroupOf(m) == g
  {
    if items == [] then []
    else
      var init, last := Members(items[..|items| - 1], g), items[|items| - 1];
      assert items == items[..|items| - 1] + [last];
      if GroupOf(last) == g then init + [last] else init
  }

  /** The groups in the order they are met. */
  function Groups(items: seq<Item>): (gs: seq<string>)
    ensures forall g :: g in gs <==> exists m :: m in items && GroupOf(m) == g
    ensures forall i, j :: 0 <= i < j < |gs| ==> gs[i] != gs[j]
  {
    if items == [] then []
    else
      var init, last := Groups(items[..|items| - 1]), items[|items| - 1];
      assert items == items[..|items| - 1] + [last];
      if GroupOf(last) in init then init else init + [GroupOf(last)]
  }

  /** Groups closed by a message in flight. */
  function Blocked(sel: Selector, items: seq<Item>): set<string> {
    if !sel.grouping || sel.exclusive == "" then {}
    else set m | m in items && m.state == sel.exclusive :: m.group
  }

  function Place(sorted: seq<Item>, m: Item): seq<Item> {
    if sorted == [] || sorted[|sorted| - 1].order <= m.order then sorted + [m]
    else Place(sorted[..|sorted| - 1], m) + [sorted[|sorted| - 1]]
  }

  /** A stable sort by the order expression. */
  function SortByOrder(items: seq<Item>): seq<Item> {
    if items == [] then [] else Place(SortByOrder(items[..|items| - 1]), items[|items| - 1])
  }

  function Arranged(sel: Selector, items: seq<Item>): seq<Item> {
    if sel.ordered then SortByOrder(items) else items
  }

  // ---------------------------------------------------------------- one of each group

  /** In order, skipping closed groups and groups already taken from. */
  function TakeSingly(sel: Selector, cs: seq<Item>, blocked: set<string>): (r: (seq<Item>, set<string>))
  {
    if cs == [] then ([], {})
    else
      var (taken, groups) := TakeSingly(sel, cs[..|cs| - 1], blocked);
      var m := cs[|cs| - 1];
      if !sel.grouping || Ungrouped(m) then (taken + [m], groups)
      else if m.group in blocked || m.group in groups then (taken, groups)
      else (taken + [m], groups + {m.group})
  }

  function Cut(taken: seq<Item>, limit: int): seq<Item> {
    if 0 < limit < |taken| then taken[..limit] else taken
  }

  // ---------------------------------------------------------------- whole leading runs

  /** The run of selectable messages a group begins with. */
  function Leading(sel: Selector, ms: seq<Item>): seq<Item> {
    if ms == [] || !Selectable(sel, ms[0]) then [] else [ms[0]] + Leading(sel, ms[1..])
  }

  function LeadingOf(sel: Selector, items: seq<Item>, g: string): seq<Item> {
    Leading(sel, Arranged(sel, Members(items, g)))
  }

  function Runs(sel: Selector, items: seq<Item>, order: seq<string>): seq<Item> {
    if order == [] then []
    else Runs(sel, items, order[..|order| - 1]) + LeadingOf(sel, items, order[|order| - 1])
  }

  type Arrange = seq<string> -> seq<string>

  /** A sort of the groups puts every group somewhere once. What order it is asked for is no part of
      this: the comparison it is given is not always an order. */
  ghost predicate Rearranges(arrange: Arrange) {
    forall gs :: multiset(arrange(gs)) == multiset(gs)
  }

  /** What a selection takes. */
  function Taken(sel: Selector, items: seq<Item>, arrange: Arrange): seq<Item> {
    if sel.grouping && sel.drain then Cut(Runs(sel, items, arrange(Groups(items))), sel.limit)
    else Cut(TakeSingly(sel, Arranged(sel, Candidates(sel, items)), Blocked(sel, items)).0, sel.limit)
  }

  /** The groups met so far, in order, and the members of each. */
  ghost predicate Gathered(items: seq<Item>, order: seq<string>, groups: map<string, seq<Item>>) {
    && order == Groups(items)
    && (forall g :: g in groups <==> g in order)
    && (forall g :: g in groups ==> groups[g] == Members(items, g))
  }

  lemma GatherOne(items: seq<Item>, m: Item, order: seq<string>, groups: map<string, seq<Item>>)
    requires Gathered(items, order, groups)
    ensures var g := GroupOf(m);
      if g in groups then Gathered(items + [m], order, groups[g := groups[g] + [m]])
      else Gathered(items + [m], order + [g], groups[g := [m]])
  {
    hide GroupOf, Groups, Members;
    var g := GroupOf(m);
    if g !in groups {
      NoMembers(items, g);
    }
    var more := if g in groups then groups[g := groups[g] + [m]] else groups[g := [m]];
    forall h | h in more
      ensures more[h] == Members(items + [m], h)
    {
      MembersOfMore(items, m, h);
    }
    GroupsOfMore(items, m);
  }

  lemma MembersOfMore(items: seq<Item>, m: Item, g: string)
    ensures Members(items + [m], g) == if GroupOf(m) == g then Members(items, g) + [m] else Members(items, g)
  {
    assert (items + [m])[..|items|] == items;
  }

  lemma GroupsOfMore(items: seq<Item>, m: Item)
    ensures Groups(items + [m]) == if GroupOf(m) in Groups(items) then Groups(items) else Groups(items) + [GroupOf(m)]
  {
    assert (items + [m])[..|items|] == items;
  }

  lemma NoMembers(items: seq<Item>, g: string)
    requires g !in Groups(items)
    ensures Members(items, g) == []
  {
    HasFirst(Members(items, g));
  }

  lemma HasFirst<T>(s: seq<T>)
    ensures s == [] || exists x :: x in s
  {
    if s != [] {
      assert s[0] in s;
    }
  }

  /** Sorts the items into those the selector may take, those that close their group, and groups. */
  method Gather(sel: Selector, items: seq<Item>)
    returns (candidates: seq<Item>, blocked: set<string>, order: seq<string>, groups: map<string, seq<Item>>)
    ensures candidates == Candidates(sel, items) && blocked == Blocked(sel, items)
    ensures sel.grouping && sel.drain ==> Gathered(items, order, groups)
  {
    candidates, blocked, order, groups := [], {}, [], map[];
    for i := 0 to |items|
      invariant candidates == Candidates(sel, items[..i])
      invariant blocked == Blocked(sel, items[..i])
      invariant sel.grouping && sel.drain ==> Gathered(items[..i], order, groups)
    {
      assert items[..i + 1] == items[..i] + [items[i]];
      var m := items[i];
      BlockedGrows(sel, items[..i], m);
      if sel.grouping && sel.exclusive != "" && m.state == sel.exclusive {
        blocked := blocked + {m.group};
      }
      if sel.grouping && sel.drain {
        GatherOne(items[..i], m, order, groups);
        var g := GroupOf(m);
        if g !in groups {
          order := order + [g];
          groups := groups[g := []];
        }
        groups := groups[g := groups[g] + [m]];
      }
      if Selectable(sel, m) {
        candidates := candidates + [m];
      }
    }
    assert items[..|items|] == items;
  }

  lemma BlockedGrows(sel: Selector, items: seq<Item>, m: Item)
    ensures Blocked(sel, items + [m]) == Blocked(sel, items) +
      if sel.grouping && sel.exclusive != "" && m.state == sel.exclusive then {m.group} else {}
  {
  }

  method SelectItems(sel: Selector, items: seq<Item>, arrange: Arrange) returns (taken: seq<Item>, count: nat)
    requires KeysDiffer(items) && Rearranges(arrange)
    ensures taken == Taken(sel, items, arrange)
    ensures count == |Candidates(sel, items)|
  {
    var candidates, blocked, order, groups := Gather(sel, items);
    count := |candidates|;
    candidates := Arranged(sel, candidates);
    groups := map g | g in groups :: Arranged(sel, groups[g]);
    if sel.grouping && sel.drain {
      var arranged := arrange(order);
      SameMembers(arranged, order);
      var selectable := set m | m in candidates :: m.key;
      KeysTellSelectable(sel, items, selectable);
      taken := DrainGroups(sel, items, arranged, groups, selectable);
    } else {
      taken := TakeOneOfEach(sel, candidates, blocked);
    }
  }

  lemma SameMembers<T>(s: seq<T>, t: seq<T>)
    requires multiset(s) == multiset(t)
    ensures forall x :: x in s <==> x in t
  {
    assert forall x :: x in s <==> x in multiset(s);
    assert forall x :: x in t <==> x in multiset(t);
  }

  lemma {:induction false} PlaceAdds(sorted: seq<Item>, m: Item)
    ensures multiset(Place(sorted, m)) == multiset(sorted) + multiset{m}
  {
    if sorted != [] && sorted[|sorted| - 1].order > m.order {
      PlaceAdds(sorted[..|sorted| - 1], m);
      assert sorted == sorted[..|sorted| - 1] + [sorted[|sorted| - 1]];
    }
  }

  lemma {:induction false} SortPermutes(items: seq<Item>)
    ensures multiset(SortByOrder(items)) == multiset(items)
  {
    if items != [] {
      hide Place;
      SortPermutes(items[..|items| - 1]);
      PlaceAdds(SortByOrder(items[..|items| - 1]), items[|items| - 1]);
      assert items == items[..|items| - 1] + [items[|items| - 1]];
    }
  }

  lemma ArrangedSame(sel: Selector, items: seq<Item>)
    ensures forall m :: m in Arranged(sel, items) <==> m in items
  {
    SortPermutes(items);
    SameMembers(Arranged(sel, items), items);
  }

  lemma KeysTellSelectable(sel: Selector, items: seq<Item>, selectable: set<string>)
    requires KeysDiffer(items)
    requires selectable == set m | m in Arranged(sel, Candidates(sel, items)) :: m.key
    ensures forall m :: m in items ==> (m.key in selectable <==> Selectable(sel, m))
  {
    ArrangedSame(sel, Candidates(sel, items));
  }

  method DrainGroups(sel: Selector, ghost items: seq<Item>, order: seq<string>, groups: map<string, seq<Item>>,
                     selectable: set<string>) returns (taken: seq<Item>)
    requires forall g :: g in order ==> g in groups && groups[g] == Arranged(sel, Members(items, g))
    requires forall m :: m in items ==> (m.key in selectable <==> Selectable(sel, m))
    ensures taken == Cut(Runs(sel, items, order), sel.limit)
  {
    taken := [];
    for i := 0 to |order|
      invariant taken == Runs(sel, items, order[..i])
      invariant sel.limit > 0 ==> |taken| < sel.limit
    {
      assert order[i] in order;
      var ms := groups[order[i]];
      assert order[..i + 1][..i] == order[..i];
      ArrangedSame(sel, Members(items, order[i]));
      var full;
      taken, full := DrainGroup(sel, items, taken, ms, selectable);
      if full {
        RunsGrow(sel, items, order, i + 1);
        return;
      }
    }
    assert order[..|order|] == order;
  }

  /** Takes a group's leading run, or as much of it as the limit leaves room for. */
  method DrainGroup(sel: Selector, ghost items: seq<Item>, before: seq<Item>, ms: seq<Item>, selectable: set<string>)
    returns (taken: seq<Item>, full: bool)
    requires sel.limit > 0 ==> |before| < sel.limit
    requires forall m :: m in ms ==> m in items
    requires forall m :: m in items ==> (m.key in selectable <==> Selectable(sel, m))
    ensures var all := before + Leading(sel, ms);
      if full then 0 < sel.limit <= |all| && taken == all[..sel.limit]
      else taken == all && (sel.limit > 0 ==> |taken| < sel.limit)
  {
    LeadingIsPrefix(sel, ms);
    ghost var lead := Leading(sel, ms);
    hide Leading;
    taken, full := before, false;
    for j := 0 to |ms|
      invariant j <= |lead| && taken == before + ms[..j]
      invariant sel.limit > 0 ==> |taken| < sel.limit
    {
      assert ms[j] in ms;
      if ms[j].key !in selectable {
        assert j == |lead|;
        return;
      }
      taken := taken + [ms[j]];
      if sel.limit > 0 && |taken| >= sel.limit {
        full := true;
        return;
      }
    }
  }

  lemma {:induction false} RunsGrow(sel: Selector, items: seq<Item>, order: seq<string>, i: nat)
    requires i <= |order|
    ensures Runs(sel, items, order[..i]) <= Runs(sel, items, order)
    decreases |order| - i
  {
    if i < |order| {
      assert order[..i + 1][..i] == order[..i];
      RunsGrow(sel, items, order, i + 1);
    } else {
      assert order[..i] == order;
    }
  }

  method TakeOneOfEach(sel: Selector, cs: seq<Item>, blocked: set<string>) returns (taken: seq<Item>)
    ensures taken == Cut(TakeSingly(sel, cs, blocked).0, sel.limit)
  {
    taken := [];
    var groups: set<string> := {};
    for i := 0 to |cs|
      invariant (taken, groups) == TakeSingly(sel, cs[..i], blocked)
      invariant sel.limit > 0 ==> |taken| < sel.limit
    {
      assert cs[..i + 1][..i] == cs[..i];
      var m := cs[i];
      if sel.grouping && !Ungrouped(m) {
        if m.group in blocked || m.group in groups {
          continue;
        }
        groups := groups + {m.group};
      }
      taken := taken + [m];
      if sel.limit > 0 && |taken| >= sel.limit {
        TakingGrows(sel, cs, blocked, i + 1);
        return;
      }
    }
    assert cs[..|cs|] == cs;
  }

  lemma {:induction false} TakingGrows(sel: Selector, cs: seq<Item>, blocked: set<string>, i: nat)
    requires i <= |cs|
    ensures TakeSingly(sel, cs[..i], blocked).0 <= TakeSingly(sel, cs, blocked).0
    decreases |cs| - i
  {
    if i < |cs| {
      assert cs[..i + 1][..i] == cs[..i];
      TakingGrows(sel, cs, blocked, i + 1);
    } else {
      assert cs[..i] == cs;
    }
  }

  // ---------------------------------------------------------------- draining is first in, first out

  lemma {:induction false} MembersJoin(a: seq<Item>, b: seq<Item>, g: string)
    ensures Members(a + b, g) == Members(a, g) + Members(b, g)
  {
    if b == [] {
      assert a + b == a;
    } else {
      assert (a + b)[..|a + b| - 1] == a + b[..|b| - 1];
      MembersJoin(a, b[..|b| - 1], g);
    }
  }

  lemma {:induction false} AllOrNoMembers(ms: seq<Item>, h: string, g: string)
    requires forall m :: m in ms ==> GroupOf(m) == h
    ensures Members(ms, g) == if h == g then ms else []
  {
    if ms != [] {
      assert ms == ms[..|ms| - 1] + [ms[|ms| - 1]];
      AllOrNoMembers(ms[..|ms| - 1], h, g);
    }
  }

  lemma {:induction false} LeadingIsPrefix(sel: Selector, ms: seq<Item>)
    ensures Leading(sel, ms) <= ms
    ensures forall i :: 0 <= i < |Leading(sel, ms)| ==> Selectable(sel, Leading(sel, ms)[i])
    ensures |Leading(sel, ms)| < |ms| ==> !Selectable(sel, ms[|Leading(sel, ms)|])
  {
    if ms != [] && Selectable(sel, ms[0]) {
      LeadingIsPrefix(sel, ms[1..]);
    }
  }

  lemma LeadingOfGroup(sel: Selector, items: seq<Item>, g: string)
    ensures forall m :: m in LeadingOf(sel, items, g) ==> m in items && GroupOf(m) == g && Selectable(sel, m)
  {
    LeadingIsPrefix(sel, Arranged(sel, Members(items, g)));
    ArrangedSame(sel, Members(items, g));
  }

  lemma {:induction false} RunsByGroup(sel: Selector, items: seq<Item>, order: seq<string>, g: string)
    requires forall i, j :: 0 <= i < j < |order| ==> order[i] != order[j]
    ensures Members(Runs(sel, items, order), g) == if g in order then LeadingOf(sel, items, g) else []
    ensures forall m :: m in Runs(sel, items, order) ==> m in items && Selectable(sel, m) && GroupOf(m) in order
  {
    if order != [] {
      var init, h := order[..|order| - 1], order[|order| - 1];
      assert order == init + [h];
      RunsByGroup(sel, items, init, g);
      LeadingOfGroup(sel, items, h);
      MembersJoin(Runs(sel, items, init), LeadingOf(sel, items, h), g);
      AllOrNoMembers(LeadingOf(sel, items, h), h, g);
    }
  }

  lemma PermutedIsUnrepeated(s: seq<string>, t: seq<string>)
    requires multiset(s) == multiset(t) && forall i, j :: 0 <= i < j < |t| ==> t[i] != t[j]
    ensures forall i, j :: 0 <= i < j < |s| ==> s[i] != s[j]
  {
    forall i, j | 0 <= i < j < |s|
      ensures s[i] != s[j]
    {
      assert s == s[..i] + [s[i]] + s[i + 1..j] + [s[j]] + s[j + 1..];
      assert s[i] == s[j] ==> multiset(s)[s[i]] >= 2;
      OnceOnly(t, s[i]);
    }
  }

  lemma {:induction false} OnceOnly(t: seq<string>, x: string)
    requires forall i, j :: 0 <= i < j < |t| ==> t[i] != t[j]
    ensures multiset(t)[x] <= 1
  {
    if t != [] {
      assert t == [t[0]] + t[1..];
      OnceOnly(t[1..], x);
      if t[0] == x {
        assert x !in t[1..];
      }
    }
  }

  /** First in, first out, however the groups come to be arranged: what is taken of a group is a prefix
      of the group in its order, all of it selectable, so no message is taken while an earlier one of
      its group is not to be had. At most the limit is taken, and less than the limit, or with no
      limit, is every message there was to take. */
  lemma DrainIsFifo(sel: Selector, items: seq<Item>, arrange: Arrange, g: string)
    requires sel.grouping && sel.drain && Rearranges(arrange)
    ensures var taken := Taken(sel, items, arrange);
      && (forall m :: m in taken ==> m in items && Selectable(sel, m))
      && Members(taken, g) <= LeadingOf(sel, items, g) <= Arranged(sel, Members(items, g))
      && (sel.limit > 0 ==> |taken| <= sel.limit)
      && (sel.limit <= 0 || |taken| < sel.limit ==> Members(taken, g) == LeadingOf(sel, items, g))
  {
    var order := arrange(Groups(items));
    var runs, taken := Runs(sel, items, order), Taken(sel, items, arrange);
    PermutedIsUnrepeated(order, Groups(items));
    SameMembers(order, Groups(items));
    hide Candidates, TakeSingly, Leading, Arranged, Groups, Members, Runs, Rearranges;
    RunsByGroup(sel, items, order, g);
    LeadingIsPrefix(sel, Arranged(sel, Members(items, g)));
    if g !in order {
      NoMembers(items, g);
      HasFirst(LeadingOf(sel, items, g));
      LeadingOfGroup(sel, items, g);
    }
    CutOfGroup(runs, sel.limit, g);
  }

  lemma CutOfGroup(runs: seq<Item>, limit: int, g: string)
    ensures Cut(runs, limit) <= runs && Members(Cut(runs, limit), g) <= Members(runs, g)
  {
    var taken := Cut(runs, limit);
    assert runs == taken + runs[|taken|..];
    MembersJoin(taken, runs[|taken|..], g);
  }

  lemma RepeatShows(s: seq<Item>, i: nat, j: nat)
    requires i < j < |s| && s[i] == s[j]
    ensures !KeysDiffer(Members(s, GroupOf(s[i])))
  {
    hide Members, KeysDiffer;
    var g := GroupOf(s[i]);
    assert s == s[..j] + s[j..];
    MembersJoin(s[..j], s[j..], g);
    assert s[i] == s[..j][i] && s[j] == s[j..][0];
    assert s[..j][i] in s[..j] && s[j..][0] in s[j..];
    RepeatInParts(Members(s[..j], g), Members(s[j..], g), s[i]);
  }

  lemma RepeatInParts(a: seq<Item>, b: seq<Item>, m: Item)
    requires m in a && m in b
    ensures !KeysDiffer(a + b)
  {
    var x :| 0 <= x < |a| && a[x] == m;
    var y :| 0 <= y < |b| && b[y] == m;
    assert (a + b)[x].key == (a + b)[|a| + y].key;
  }

  lemma MembersUnrepeated(s: seq<Item>)
    requires forall g :: KeysDiffer(Members(s, g))
    requires forall m, n :: m in s && n in s && m.key == n.key ==> m == n
    ensures KeysDiffer(s)
  {
    forall i, j | 0 <= i < j < |s|
      ensures s[i].key != s[j].key
    {
      if s[i] == s[j] {
        RepeatShows(s, i, j);
      }
    }
  }

  lemma {:induction false} PartDiffers(items: seq<Item>, g: string)
    requires KeysDiffer(items)
    ensures KeysDiffer(Members(items, g))
  {
    if items != [] {
      var init, last := items[..|items| - 1], items[|items| - 1];
      assert items == init + [last];
      PartDiffers(init, g);
      assert forall m :: m in init ==> m.key != last.key;
    }
  }

  lemma {:induction false} PlaceDiffers(sorted: seq<Item>, m: Item)
    requires KeysDiffer(sorted) && forall n :: n in sorted ==> n.key != m.key
    ensures KeysDiffer(Place(sorted, m))
  {
    if sorted != [] && sorted[|sorted| - 1].order > m.order {
      var init, last := sorted[..|sorted| - 1], sorted[|sorted| - 1];
      assert sorted == init + [last];
      PlaceDiffers(init, m);
      PlaceAdds(init, m);
      forall n | n in Place(init, m)
        ensures n.key != last.key
      {
        assert n in multiset(Place(init, m));
        assert n in init || n == m;
      }
    }
  }

  lemma {:induction false} SortDiffers(items: seq<Item>)
    requires KeysDiffer(items)
    ensures KeysDiffer(SortByOrder(items))
  {
    if items != [] {
      var init, last := items[..|items| - 1], items[|items| - 1];
      assert items == init + [last];
      SortDiffers(init);
      SortPermutes(init);
      SameMembers(SortByOrder(init), init);
      assert forall n :: n in init ==> n.key != last.key;
      PlaceDiffers(SortByOrder(init), last);
    }
  }

  /** No message is taken twice. */
  lemma DrainTakesOnce(sel: Selector, items: seq<Item>, arrange: Arrange)
    requires sel.grouping && sel.drain && Rearranges(arrange) && KeysDiffer(items)
    ensures KeysDiffer(Taken(sel, items, arrange))
  {
    var taken := Taken(sel, items, arrange);
    forall g
      ensures KeysDiffer(Members(taken, g))
      ensures forall m :: m in taken ==> m in items
    {
      DrainIsFifo(sel, items, arrange, g);
      PartDiffers(items, g);
      SortDiffers(Members(items, g));
    }
    assert forall m :: m in taken ==> m in items by {
      DrainIsFifo(sel, items, arrange, "");
    }
    MembersUnrepeated(taken);
  }

  /** Groups are drained one after another, and only the last one drained can be cut short. */
  lemma {:induction false} OnlyTheLastIsCut(sel: Selector, items: seq<Item>, order: seq<string>)
    requires sel.limit > 0
    ensures var taken := Cut(Runs(sel, items, order), sel.limit);
      taken == Runs(sel, items, order) ||
      exists i, n {:trigger LeadingOf(sel, items, order[i])[..n]} :: 0 <= i < |order|
          && 0 <= n <= |LeadingOf(sel, items, order[i])|
        && taken == Runs(sel, items, order[..i]) + LeadingOf(sel, items, order[i])[..n]
  {
    if order != [] {
      var init, h := order[..|order| - 1], order[|order| - 1];
      var run := LeadingOf(sel, items, h);
      if |Runs(sel, items, init)| > sel.limit {
        OnlyTheLastIsCut(sel, items, init);
        var i, n :| 0 <= i < |init| && 0 <= n <= |LeadingOf(sel, items, init[i])|
          && Cut(Runs(sel, items, init), sel.limit) ==
               Runs(sel, items, init[..i]) + LeadingOf(sel, items, init[i])[..n];
        assert init[..i] == order[..i] && init[i] == order[i];
        assert Cut(Runs(sel, items, order), sel.limit)
            == Runs(sel, items, order[..i]) + LeadingOf(sel, items, order[i])[..n];
      } else if |Runs(sel, items, order)| > sel.limit {
        var n := sel.limit - |Runs(sel, items, init)|;
        assert order[|order| - 1] == h && order[..|order| - 1] == init;
        assert Cut(Runs(sel, items, order), sel.limit)
            == Runs(sel, items, order[..|order| - 1]) + LeadingOf(sel, items, order[|order| - 1])[..n];
      }
    }
  }

  // ---------------------------------------------------------------- one of each group

  lemma {:induction false} SinglyInvariant(sel: Selector, cs: seq<Item>, blocked: set<string>)
    requires sel.grouping
    ensures var (taken, groups) := TakeSingly(sel, cs, blocked);
      && (forall m :: m in taken ==> m in cs && (Ungrouped(m) || (m.group in groups && m.group !in blocked)))
      && (forall i, j :: 0 <= i < j < |taken| && !Ungrouped(taken[i]) ==> taken[i].group != taken[j].group)
      && (forall m :: m in cs ==> m in taken || (!Ungrouped(m) && (m.group in blocked || m.group in groups)))
      && (forall g :: g in groups ==> exists m :: m in taken && !Ungrouped(m) && m.group == g)
      && (forall m :: m in taken && !Ungrouped(m) ==> IsFirstOfGroup(cs, m))
  {
    if cs != [] {
      var init, last := cs[..|cs| - 1], cs[|cs| - 1];
      assert cs == init + [last];
      SinglyInvariant(sel, init, blocked);
      var (taken, groups) := TakeSingly(sel, init, blocked);
      forall m | m in taken && !Ungrouped(m)
        ensures IsFirstOfGroup(cs, m)
      {
        FirstStaysFirst(init, last, m);
      }
      if !Ungrouped(last) && last.group !in blocked && last.group !in groups {
        NewGroupIsFirst(init, last);
      }
    }
  }

  /** The first of the candidates that is of its group. */
  ghost predicate IsFirstOfGroup(cs: seq<Item>, m: Item) {
    exists i :: 0 <= i < |cs| && cs[i] == m && forall j :: 0 <= j < i ==> Ungrouped(cs[j]) || cs[j].group != m.group
  }

  lemma FirstStaysFirst(cs: seq<Item>, last: Item, m: Item)
    requires IsFirstOfGroup(cs, m)
    ensures IsFirstOfGroup(cs + [last], m)
  {
    var i :| 0 <= i < |cs| && cs[i] == m && forall j :: 0 <= j < i ==> Ungrouped(cs[j]) || cs[j].group != m.group;
    assert (cs + [last])[i] == m;
    assert forall j :: 0 <= j < i ==> (cs + [last])[j] == cs[j];
  }

  lemma NewGroupIsFirst(cs: seq<Item>, last: Item)
    requires forall m :: m in cs ==> Ungrouped(m) || m.group != last.group
    ensures IsFirstOfGroup(cs + [last], last)
  {
    assert (cs + [last])[|cs|] == last;
    assert forall j :: 0 <= j < |cs| ==> (cs + [last])[j] == cs[j] && cs[j] in cs;
  }

  /** Not draining, a group gives its first candidate or nothing: nothing while a message of it is in
      flight, and with room to spare each group that is not closed gives one. */
  lemma OneOfEachOpenGroup(sel: Selector, items: seq<Item>, arrange: Arrange)
    requires sel.grouping && !sel.drain
    ensures var taken, cs := Taken(sel, items, arrange), Arranged(sel, Candidates(sel, items));
      && (forall m :: m in taken ==> m in items && Selectable(sel, m))
      && (forall m, n :: m in taken && !Ungrouped(m) && n in items && n.group == m.group && sel.exclusive != "" ==>
           n.state != sel.exclusive)
      && (forall i, j :: 0 <= i < j < |taken| && !Ungrouped(taken[i]) ==> taken[i].group != taken[j].group)
      && (forall m :: m in taken && !Ungrouped(m) ==> IsFirstOfGroup(cs, m))
      && (sel.limit > 0 ==> |taken| <= sel.limit)
      && (sel.limit <= 0 || |taken| < sel.limit ==>
        forall m :: m in items && Selectable(sel, m) && m !in taken ==>
          !Ungrouped(m) && (m.group in Blocked(sel, items)
              || exists n :: n in taken && !Ungrouped(n) && n.group == m.group))
  {
    var cs := Arranged(sel, Candidates(sel, items));
    ArrangedSame(sel, Candidates(sel, items));
    SinglyInvariant(sel, cs, Blocked(sel, items));
    var all := TakeSingly(sel, cs, Blocked(sel, items)).0;
    assert forall m :: m in Taken(sel, items, arrange) ==> m in all;
  }
}
