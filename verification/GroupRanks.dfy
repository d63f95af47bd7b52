/** The order that groups are drained in: what they are compared by, when that is an order at all, and
    that there is then one arrangement to drain (internal/engine/select.go). */
module GroupRanks {
  import opened Selections

  datatype Maybe = Nowhere | At(pos: nat)

  /** What groups are compared by: whether only part of the group can be had, whether any of it was
      received before, where its first candidate comes, and where the group was met. */
  datatype Rank = Rank(partial: bool, received: bool, first: Maybe, met: nat)

  predicate Before(a: Rank, b: Rank) {
    if a.partial != b.partial then !a.partial
    else if a.received != b.received then !a.received
    else if a.first.At? && b.first.At? && a.first.pos != b.first.pos then a.first.pos < b.first.pos
    else a.met < b.met
  }

  /** The place of the first candidate of a group. */
  function FirstOf(cs: seq<Item>, g: string): (first: Maybe)
    ensures first.Nowhere? <==> forall m :: m in cs ==> GroupOf(m) != g
    ensures first.At? ==> first.pos < |cs| && GroupOf(cs[first.pos]) == g
  {
    if cs == [] then Nowhere
    else
      var init, last := FirstOf(cs[..|cs| - 1], g), cs[|cs| - 1];
      assert cs == cs[..|cs| - 1] + [last];
      if init.At? then init else if GroupOf(last) == g then At(|cs| - 1) else Nowhere
  }

  /** The place of a group in the order met. */
  function MetAt(gs: seq<string>, g: string): (i: nat)
    requires g in gs
    ensures i < |gs| && gs[i] == g
  {
    if gs[0] == g then 0 else 1 + MetAt(gs[1..], g)
  }

  predicate Received(ms: seq<Item>) {
    exists m :: m in ms && m.received > 0
  }

  function RankOf(sel: Selector, items: seq<Item>, g: string): Rank
    requires g in Groups(items)
  {
    var ms := Arranged(sel, Members(items, g));
    Rank(0 < |Leading(sel, ms)| < |ms|, Received(ms), FirstOf(Arranged(sel, Candidates(sel, items)), g),
        MetAt(Groups(items), g))
  }

  /** One group of a queue is drained before another. */
  predicate Sooner(sel: Selector, items: seq<Item>, a: string, b: string) {
    a in Groups(items) && b in Groups(items) && Before(RankOf(sel, items, a), RankOf(sel, items, b))
  }

  // ---------------------------------------------------------------- when it is an order

  /** The group b has no candidate, was met between a and c of its own kind, and their candidates come the
      other way round. */
  predicate TangledRanks(a: Rank, b: Rank, c: Rank) {
    && a.partial == b.partial == c.partial && a.received == b.received == c.received
    && b.first.Nowhere? && a.first.At? && c.first.At?
    && a.met < b.met < c.met && c.first.pos < a.first.pos
  }

  lemma RanksOrder(a: Rank, b: Rank, c: Rank)
    requires a.met != b.met && b.met != c.met && a.met != c.met
    ensures Before(a, b) <==> !Before(b, a)
    ensures Before(a, b) && Before(b, c) && Before(c, a) <==>
      TangledRanks(a, b, c) || TangledRanks(b, c, a) || TangledRanks(c, a, b)
  {
  }

  predicate Tangled(sel: Selector, items: seq<Item>, a: string, b: string, c: string) {
    && a in Groups(items) && b in Groups(items) && c in Groups(items)
    && TangledRanks(RankOf(sel, items, a), RankOf(sel, items, b), RankOf(sel, items, c))
  }

  ghost predicate Untangled(sel: Selector, items: seq<Item>) {
    forall a, b, c :: !Tangled(sel, items, a, b, c)
  }

  /** The comparison orders the groups of a queue. */
  ghost predicate Orders(sel: Selector, items: seq<Item>) {
    && (forall a, b :: Sooner(sel, items, a, b) ==> !Sooner(sel, items, b, a))
    && (forall a, b :: a in Groups(items) && b in Groups(items) && a != b ==>
         Sooner(sel, items, a, b) || Sooner(sel, items, b, a))
    && (forall a, b, c :: Sooner(sel, items, a, b) && Sooner(sel, items, b, c) ==> Sooner(sel, items, a, c))
  }

  lemma GroupsCompare(sel: Selector, items: seq<Item>, a: string, b: string)
    requires a in Groups(items) && b in Groups(items)
    ensures a != b ==> (Sooner(sel, items, a, b) <==> !Sooner(sel, items, b, a))
    ensures !Sooner(sel, items, a, a)
  {
    if a != b {
      var c := Rank(false, false, Nowhere, 1 + RankOf(sel, items, a).met + RankOf(sel, items, b).met);
      RanksOrder(RankOf(sel, items, a), RankOf(sel, items, b), c);
    }
  }

  /** Three groups go round in a circle if and only if one of them is tangled with the other two. */
  lemma ThreeGroups(sel: Selector, items: seq<Item>, a: string, b: string, c: string)
    requires a in Groups(items) && b in Groups(items) && c in Groups(items) && a != b && b != c && a != c
    ensures Sooner(sel, items, a, b) && Sooner(sel, items, b, c) && Sooner(sel, items, c, a) <==>
      Tangled(sel, items, a, b, c) || Tangled(sel, items, b, c, a) || Tangled(sel, items, c, a, b)
  {
    hide Groups, Before, TangledRanks;
    RanksOrder(RankOf(sel, items, a), RankOf(sel, items, b), RankOf(sel, items, c));
  }

  /** The comparison is an order of a queue's groups if and only if no three of them are tangled. */
  lemma OrdersExactly(sel: Selector, items: seq<Item>)
    ensures Orders(sel, items) <==> Untangled(sel, items)
  {
    forall a, b | a in Groups(items) && b in Groups(items)
      ensures a != b ==> (Sooner(sel, items, a, b) <==> !Sooner(sel, items, b, a))
      ensures !Sooner(sel, items, a, a)
    {
      GroupsCompare(sel, items, a, b);
    }
    hide RankOf, Groups, Before;
    if Untangled(sel, items) {
      forall a, b, c | Sooner(sel, items, a, b) && Sooner(sel, items, b, c)
        ensures Sooner(sel, items, a, c)
      {
        if a != c {
          ThreeGroups(sel, items, a, b, c);
        }
      }
    } else {
      var a, b, c :| Tangled(sel, items, a, b, c);
      ThreeGroups(sel, items, a, b, c);
      assert Sooner(sel, items, a, b) && Sooner(sel, items, b, c) && Sooner(sel, items, c, a);
    }
  }

  /** It is one whenever every group has a message to be had. */
  lemma OpenGroupsAreOrdered(sel: Selector, items: seq<Item>)
    requires forall g :: g in Groups(items) ==> exists m :: m in Candidates(sel, items) && GroupOf(m) == g
    ensures Orders(sel, items)
  {
    ArrangedSame(sel, Candidates(sel, items));
    OrdersExactly(sel, items);
  }

  // ---------------------------------------------------------------- a tangled queue

  /** A queue of three groups met in the order a, b, c, the message of b in flight, that of c the older of
      the other two: a comes before b, b before c, and c before a. */
  lemma TangledQueue()
    ensures var sel := Selector("visible", true, true, "", true, 0);
      var items := [Item("1", "a", "visible", true, 2, 0), Item("2", "b", "invisible", true, 3, 0),
                    Item("3", "c", "visible", true, 1, 0)];
      && Sooner(sel, items, "a", "b") && Sooner(sel, items, "b", "c") && Sooner(sel, items, "c", "a")
      && !Orders(sel, items)
  {
    var sel := Selector("visible", true, true, "", true, 0);
    var a, b, c := Item("1", "a", "visible", true, 2, 0), Item("2", "b", "invisible", true, 3, 0),
      Item("3", "c", "visible", true, 1, 0);
    var items := [a, b, c];
    assert GroupOf(a) == "a" && GroupOf(b) == "b" && GroupOf(c) == "c";
    RanksOfThree(sel, a, b, c);
    hide RankOf, Groups, GroupOf;
    ThreeGroups(sel, items, "a", "b", "c");
    OrdersExactly(sel, items);
    assert Tangled(sel, items, "a", "b", "c");
  }

  lemma RanksOfThree(sel: Selector, a: Item, b: Item, c: Item)
    requires GroupOf(a) != GroupOf(b) && GroupOf(b) != GroupOf(c) && GroupOf(a) != GroupOf(c)
    requires Selectable(sel, a) && !Selectable(sel, b) && Selectable(sel, c) && sel.ordered && c.order < a.order
    requires a.received == b.received == c.received == 0
    ensures var items := [a, b, c];
      && Groups(items) == [GroupOf(a), GroupOf(b), GroupOf(c)]
      && RankOf(sel, items, GroupOf(a)) == Rank(false, false, At(1), 0)
      && RankOf(sel, items, GroupOf(b)) == Rank(false, false, Nowhere, 1)
      && RankOf(sel, items, GroupOf(c)) == Rank(false, false, At(0), 2)
  {
    hide GroupOf, Selectable, Members, Candidates, Groups, SortByOrder, FirstOf, MetAt, RankOf;
    var items := [a, b, c];
    GroupsOfThree(a, b, c);
    MembersOfThree(a, b, c, GroupOf(a));
    MembersOfThree(a, b, c, GroupOf(b));
    MembersOfThree(a, b, c, GroupOf(c));
    CandidatesOfThree(sel, a, b, c);
    TwoSorted(a, c);
    RankOfOne(sel, items, a);
    RankOfOne(sel, items, b);
    RankOfOne(sel, items, c);
    FirstOfTwo([c, a], GroupOf(a));
    FirstOfTwo([c, a], GroupOf(b));
    FirstOfTwo([c, a], GroupOf(c));
    MetOfThree(GroupOf(a), GroupOf(b), GroupOf(c));
  }

  lemma MetOfThree(a: string, b: string, c: string)
    requires a != b && b != c && a != c
    ensures var gs := [a, b, c]; MetAt(gs, a) == 0 && MetAt(gs, b) == 1 && MetAt(gs, c) == 2
  {
    var gs := [a, b, c];
    assert gs[1..] == [b, c] && [b, c][1..] == [c];
    assert MetAt([c], c) == 0 && MetAt([b, c], b) == 0 && MetAt([b, c], c) == 1;
  }

  lemma FirstOfTwo(cs: seq<Item>, g: string)
    requires |cs| == 2
    ensures FirstOf(cs, g) == if GroupOf(cs[0]) == g then At(0) else if GroupOf(cs[1]) == g then At(1) else Nowhere
  {
    assert cs[..1] == [cs[0]] && [cs[0]][..0] == [];
  }

  lemma TwoSorted(a: Item, b: Item)
    requires b.order < a.order
    ensures SortByOrder([a, b]) == [b, a]
  {
    OneSorted(a);
    assert [a, b][..1] == [a] && [a][..0] == [];
    assert Place([], b) == [b];
    assert Place([a], b) == Place([], b) + [a] == [b, a];
  }

  lemma OneSorted(a: Item)
    ensures SortByOrder([a]) == [a]
  {
    assert [a][..0] == [] && SortByOrder([]) == [];
    assert Place([], a) == [] + [a];
  }

  /** A group of one message, in a queue where no message is received before. */
  lemma RankOfOne(sel: Selector, items: seq<Item>, m: Item)
    requires GroupOf(m) in Groups(items) && Members(items, GroupOf(m)) == [m] && m.received == 0
    ensures var r := RankOf(sel, items, GroupOf(m));
      !r.partial && !r.received && r.met == MetAt(Groups(items), GroupOf(m))
      && r.first == FirstOf(Arranged(sel, Candidates(sel, items)), GroupOf(m))
  {
    OneSorted(m);
    LeadingIsPrefix(sel, [m]);
  }

  lemma MembersOfThree(a: Item, b: Item, c: Item, g: string)
    ensures Members([a, b, c], g) == (if GroupOf(a) == g then [a] else []) + (if GroupOf(b) == g then [b] else [])
      + (if GroupOf(c) == g then [c] else [])
  {
    hide GroupOf;
    assert [] + [a] == [a] && [a] + [b] == [a, b] && [a, b] + [c] == [a, b, c];
    MembersOfMore([], a, g);
    MembersOfMore([a], b, g);
    MembersOfMore([a, b], c, g);
  }

  lemma GroupsStep(items: seq<Item>, gs: seq<string>, m: Item)
    requires Groups(items) == gs && GroupOf(m) !in gs
    ensures Groups(items + [m]) == gs + [GroupOf(m)]
  {
    hide GroupOf, Groups;
    GroupsOfMore(items, m);
  }

  lemma GroupsOfTwo(a: Item, b: Item)
    requires GroupOf(a) != GroupOf(b)
    ensures Groups([a, b]) == [GroupOf(a), GroupOf(b)]
  {
    GroupsOfOne(a);
    hide GroupOf, Groups;
    GroupsStep([a], [GroupOf(a)], b);
    assert [a] + [b] == [a, b] && [GroupOf(a)] + [GroupOf(b)] == [GroupOf(a), GroupOf(b)];
  }

  lemma GroupsOfOne(a: Item)
    ensures Groups([a]) == [GroupOf(a)]
  {
    assert Groups([]) == [];
    hide GroupOf, Groups;
    GroupsStep([], [], a);
    assert [] + [a] == [a] && [] + [GroupOf(a)] == [GroupOf(a)];
  }

  lemma GroupsOfThree(a: Item, b: Item, c: Item)
    requires GroupOf(a) != GroupOf(b) && GroupOf(b) != GroupOf(c) && GroupOf(a) != GroupOf(c)
    ensures Groups([a, b, c]) == [GroupOf(a), GroupOf(b), GroupOf(c)]
  {
    hide GroupOf, Groups;
    var x, y, z := GroupOf(a), GroupOf(b), GroupOf(c);
    GroupsOfTwo(a, b);
    GroupsStep([a, b], [x, y], c);
    assert [a, b] + [c] == [a, b, c] && [x, y] + [z] == [x, y, z];
  }

  lemma CandidatesOfThree(sel: Selector, a: Item, b: Item, c: Item)
    requires Selectable(sel, a) && !Selectable(sel, b) && Selectable(sel, c)
    ensures Candidates(sel, [a, b, c]) == [a, c]
  {
    hide Selectable;
    assert [a, b, c][..2] == [a, b] && [a, b][..1] == [a] && [a][..0] == [];
    assert Candidates(sel, [a]) == [] + [a];
  }

  // ---------------------------------------------------------------- the one arrangement

  ghost predicate InOrder(sel: Selector, items: seq<Item>, gs: seq<string>) {
    forall i, j :: 0 <= i < j < |gs| ==> Sooner(sel, items, gs[i], gs[j])
  }

  function PlaceGroup(sel: Selector, items: seq<Item>, sorted: seq<string>, g: string): seq<string> {
    if sorted == [] || !Sooner(sel, items, g, sorted[|sorted| - 1]) then sorted + [g]
    else PlaceGroup(sel, items, sorted[..|sorted| - 1], g) + [sorted[|sorted| - 1]]
  }

  /** A stable sort of groups by the comparison. */
  function SortGroups(sel: Selector, items: seq<Item>, gs: seq<string>): seq<string> {
    if gs == [] then [] else PlaceGroup(sel, items, SortGroups(sel, items, gs[..|gs| - 1]), gs[|gs| - 1])
  }

  lemma AppendInOrder(sel: Selector, items: seq<Item>, gs: seq<string>, last: string)
    requires InOrder(sel, items, gs) && forall g :: g in gs ==> Sooner(sel, items, g, last)
    ensures InOrder(sel, items, gs + [last])
  {
    hide Sooner;
    var all := gs + [last];
    forall i, j | 0 <= i < j < |all|
      ensures Sooner(sel, items, all[i], all[j])
    {
      assert all[i] == gs[i] && gs[i] in gs;
    }
  }

  lemma InitInOrder(sel: Selector, items: seq<Item>, init: seq<string>, last: string)
    requires InOrder(sel, items, init + [last])
    ensures InOrder(sel, items, init) && forall g :: g in init ==> Sooner(sel, items, g, last)
  {
    hide Sooner;
    var all := init + [last];
    forall i, j | 0 <= i < j < |init|
      ensures Sooner(sel, items, init[i], init[j])
    {
      assert all[i] == init[i] && all[j] == init[j];
    }
    forall g | g in init
      ensures Sooner(sel, items, g, last)
    {
      var i :| 0 <= i < |init| && init[i] == g;
      assert all[i] == g && all[|init|] == last;
    }
  }

  lemma {:induction false} PlaceGroupOrders(sel: Selector, items: seq<Item>, sorted: seq<string>, g: string)
    requires Orders(sel, items) && InOrder(sel, items, sorted) && g in Groups(items) && g !in sorted
    requires forall h :: h in sorted ==> h in Groups(items)
    ensures InOrder(sel, items, PlaceGroup(sel, items, sorted, g))
    ensures multiset(PlaceGroup(sel, items, sorted, g)) == multiset(sorted) + multiset{g}
  {
    if sorted == [] {
      hide Sooner, Orders, Groups;
    } else {
      hide Sooner, Orders, Groups, InOrder;
      var init, last := sorted[..|sorted| - 1], sorted[|sorted| - 1];
      assert sorted == init + [last] && last in sorted;
      InitInOrder(sel, items, init, last);
      if Sooner(sel, items, g, last) {
        PlaceGroupOrders(sel, items, init, g);
        var placed := PlaceGroup(sel, items, init, g);
        forall h | h in placed
          ensures Sooner(sel, items, h, last)
        {
          assert h in multiset(placed);
        }
        AppendInOrder(sel, items, placed, last);
      } else {
        OneWay(sel, items, last, g);
        forall h | h in sorted
          ensures Sooner(sel, items, h, g)
        {
          if h != last {
            Through(sel, items, h, last, g);
          }
        }
        AppendInOrder(sel, items, sorted, g);
      }
    }
  }

  lemma OneWay(sel: Selector, items: seq<Item>, a: string, b: string)
    requires Orders(sel, items) && a in Groups(items) && b in Groups(items) && a != b
    ensures Sooner(sel, items, a, b) || Sooner(sel, items, b, a)
  {
    hide Sooner, Groups;
  }

  lemma Through(sel: Selector, items: seq<Item>, a: string, b: string, c: string)
    requires Orders(sel, items) && Sooner(sel, items, a, b) && Sooner(sel, items, b, c)
    ensures Sooner(sel, items, a, c)
  {
    hide Sooner, Groups;
  }

  lemma {:induction false} SortGroupsOrders(sel: Selector, items: seq<Item>, gs: seq<string>)
    requires Orders(sel, items) && (forall g :: g in gs ==> g in Groups(items))
    requires forall i, j :: 0 <= i < j < |gs| ==> gs[i] != gs[j]
    ensures InOrder(sel, items, SortGroups(sel, items, gs)) && multiset(SortGroups(sel, items, gs)) == multiset(gs)
  {
    hide Sooner, Orders, Groups, PlaceGroup;
    if gs != [] {
      hide InOrder;
      var init, last := gs[..|gs| - 1], gs[|gs| - 1];
      assert gs == init + [last];
      SortGroupsOrders(sel, items, init);
      var sorted := SortGroups(sel, items, init);
      assert forall h :: h in sorted ==> h in multiset(sorted);
      PlaceGroupOrders(sel, items, sorted, last);
    }
  }

  lemma Soonest(sel: Selector, items: seq<Item>, s: seq<string>, g: string)
    requires s != [] && InOrder(sel, items, s) && g in multiset(s)
    ensures s[0] == g || Sooner(sel, items, s[0], g)
  {
    hide Sooner;
    var i :| 0 <= i < |s| && s[i] == g;
  }

  /** Two arrangements in order of the same groups are one. */
  lemma {:induction false} OrderIsOne(sel: Selector, items: seq<Item>, s: seq<string>, t: seq<string>)
    requires Orders(sel, items) && InOrder(sel, items, s) && InOrder(sel, items, t) && multiset(s) == multiset(t)
    ensures s == t
  {
    hide Sooner, InOrder, Orders;
    assert |s| == |multiset(s)| == |multiset(t)| == |t|;
    if s != [] {
      assert t[0] in multiset(s) && s[0] in multiset(t);
      Soonest(sel, items, s, t[0]);
      Soonest(sel, items, t, s[0]);
      NotBoth(sel, items, s[0], t[0]);
      SameRest(s, t);
      RestInOrder(sel, items, s);
      RestInOrder(sel, items, t);
      OrderIsOne(sel, items, s[1..], t[1..]);
    }
  }

  lemma SameRest(s: seq<string>, t: seq<string>)
    requires s != [] && t != [] && s[0] == t[0] && multiset(s) == multiset(t)
    ensures multiset(s[1..]) == multiset(t[1..])
  {
    assert s == [s[0]] + s[1..] && t == [t[0]] + t[1..];
    assert multiset(s[1..]) == multiset(s) - multiset{s[0]};
  }

  lemma NotBoth(sel: Selector, items: seq<Item>, a: string, b: string)
    requires Orders(sel, items)
    ensures !(Sooner(sel, items, a, b) && Sooner(sel, items, b, a))
  {
    hide Sooner;
  }

  lemma RestInOrder(sel: Selector, items: seq<Item>, s: seq<string>)
    requires InOrder(sel, items, s) && s != []
    ensures InOrder(sel, items, s[1..])
  {
    hide Sooner;
    var rest := s[1..];
    forall i, j | 0 <= i < j < |rest|
      ensures Sooner(sel, items, rest[i], rest[j])
    {
      assert rest[i] == s[i + 1] && rest[j] == s[j + 1];
    }
  }

  /** In a queue with no tangle the comparison leaves one arrangement of the groups, and draining takes
      what that one gives, however the groups came to be sorted by it. */
  lemma UntangledDrain(sel: Selector, items: seq<Item>, arrange: Arrange)
    requires sel.grouping && sel.drain && Untangled(sel, items)
    requires multiset(arrange(Groups(items))) == multiset(Groups(items)) && InOrder(sel, items, arrange(Groups(items)))
    ensures Taken(sel, items, arrange) == Cut(Runs(sel, items, SortGroups(sel, items, Groups(items))), sel.limit)
    ensures InOrder(sel, items, SortGroups(sel, items, Groups(items)))
  {
    OrdersExactly(sel, items);
    SortGroupsOrders(sel, items, Groups(items));
    OrderIsOne(sel, items, arrange(Groups(items)), SortGroups(sel, items, Groups(items)));
  }
}
