/** What settling a record promises: nothing left due, no dependence on who looked earlier, and no
    false alarm about a cycle. */
module LazyTimers {
  import opened Options
  import opened Statecharts

  /** Every state the chart can enter is one it defines. */
  ghost predicate Closed(chart: Chart) {
    && chart.initial in chart.states
    && (forall s, t :: s in chart.states && t in chart.states[s].timers ==> t.target in chart.states)
  }

  ghost predicate OneTimerPerState(chart: Chart) {
    forall s :: s in chart.states ==> |chart.states[s].timers| <= 1
  }

  function DueNow(chart: Chart, rec: Record, now: int): Option<Timer> {
    var name := StateOf(rec, chart);
    if name in chart.states then FirstDue(chart.states[name].timers, rec.deadlines, now) else None
  }

  // ---------------------------------------------------------------- one settling

  /** A settling that ends without error leaves the record in a defined state with no timer due,
      and touches nothing but the state and the deadlines it fired, all of which had passed. */
  lemma {:induction false} NothingLeftDue(chart: Chart, rec: Record, now: int, hops: nat, changed: bool)
    ensures var out := Hop(chart, rec, now, hops, changed);
      && out.rec == rec.(state := out.rec.state, deadlines := out.rec.deadlines)
      && out.rec.deadlines.Keys <= rec.deadlines.Keys
      && (forall d :: d in out.rec.deadlines ==> out.rec.deadlines[d] == rec.deadlines[d])
      && (forall d :: d in rec.deadlines && d !in out.rec.deadlines ==> rec.deadlines[d] <= now)
      && (out.error.None? ==> StateOf(out.rec, chart) in chart.states && DueNow(chart, out.rec, now).None?)
    decreases hops
  {
    var due := DueNow(chart, rec, now);
    if hops > 0 && due.Some? && due.value.target in chart.states {
      NothingLeftDue(chart, Fire(rec, due.value), now, hops - 1, true);
    }
  }

  /** Settling says it changed the record exactly when it did. */
  lemma {:induction false} ChangedExactly(chart: Chart, rec: Record, now: int, hops: nat, changed: bool)
    ensures var out := Hop(chart, rec, now, hops, changed);
      out.changed <==> changed || out.rec != rec
    decreases hops
  {
    var due := DueNow(chart, rec, now);
    if hops > 0 && due.Some? && due.value.target in chart.states {
      var rec' := Fire(rec, due.value);
      ChangedExactly(chart, rec', now, hops - 1, true);
      NothingLeftDue(chart, rec', now, hops - 1, true);
      assert due.value.deadline in rec.deadlines.Keys && due.value.deadline !in rec'.deadlines.Keys;
    }
  }

  /** Looking again at the same instant finds nothing to do. */
  lemma SettlingIsIdempotent(chart: Chart, rec: Record, now: int)
    requires Settled(chart, rec, now).error.None?
    ensures var out := Settled(chart, rec, now).rec;
      Settled(chart, out, now) == Settling(out, false, None)
  {
    NothingLeftDue(chart, rec, now, |chart.states| + 1, false);
  }

  // ---------------------------------------------------------------- the alarm

  /** The timers that a settling with no limit would fire: never more than the deadlines. */
  function Fired(chart: Chart, rec: Record, now: int): seq<Timer>
    decreases |rec.deadlines|
  {
    var due := DueNow(chart, rec, now);
    if due.None? || due.value.target !in chart.states then []
    else
      FiringSpends(rec, due.value);
      [due.value] + Fired(chart, Fire(rec, due.value), now)
  }

  function Firings(chart: Chart, rec: Record, now: int): nat {
    |Fired(chart, rec, now)|
  }

  lemma FiringSpends(rec: Record, timer: Timer)
    requires timer.deadline in rec.deadlines
    ensures |Fire(rec, timer).deadlines| < |rec.deadlines|
  {
    assert Fire(rec, timer).deadlines.Keys == rec.deadlines.Keys - {timer.deadline};
    assert |rec.deadlines| == |rec.deadlines.Keys|;
    assert |Fire(rec, timer).deadlines| == |Fire(rec, timer).deadlines.Keys|;
  }

  /** The alarm is raised exactly when a settling with no limit would fire as often as the limit. */
  lemma {:induction false} AlarmAtTheLimit(chart: Chart, rec: Record, now: int, hops: nat, changed: bool)
    ensures Hop(chart, rec, now, hops, changed).error == Some(DidNotSettle) <==> Firings(chart, rec, now) >= hops
    decreases hops
  {
    var due := DueNow(chart, rec, now);
    if hops > 0 && due.Some? && due.value.target in chart.states {
      AlarmAtTheLimit(chart, Fire(rec, due.value), now, hops - 1, true);
    }
  }

  /** The deadlines that have passed. */
  function Passed(rec: Record, now: int): set<string> {
    set d | d in rec.deadlines && rec.deadlines[d] <= now
  }

  lemma {:induction false} FiringsArePassed(chart: Chart, rec: Record, now: int)
    ensures Firings(chart, rec, now) <= |Passed(rec, now)|
    decreases |rec.deadlines|
  {
    var due := DueNow(chart, rec, now);
    if due.Some? && due.value.target in chart.states {
      FiringSpends(rec, due.value);
      FiringsArePassed(chart, Fire(rec, due.value), now);
      assert Passed(Fire(rec, due.value), now) == Passed(rec, now) - {due.value.deadline};
    }
  }

  /** "Did not settle" is reported if and only if more deadlines fire one after another than the chart
      has states; never when no more have passed than that. And it never means a cycle: each firing
      spends a deadline, so as many looks as there are deadlines, and one, always settle. */
  lemma AlarmExactly(chart: Chart, rec: Record, now: int)
    ensures Settled(chart, rec, now).error == Some(DidNotSettle) <==> Firings(chart, rec, now) > |chart.states|
    ensures |Passed(rec, now)| <= |chart.states| ==> Settled(chart, rec, now).error != Some(DidNotSettle)
    ensures Hop(chart, rec, now, |rec.deadlines| + 1, false).error != Some(DidNotSettle)
  {
    AlarmAtTheLimit(chart, rec, now, |chart.states| + 1, false);
    AlarmAtTheLimit(chart, rec, now, |rec.deadlines| + 1, false);
    FiringsArePassed(chart, rec, now);
    SubsetIsNoLarger(Passed(rec, now), rec.deadlines.Keys);
    assert |rec.deadlines| == |rec.deadlines.Keys|;
  }

  /** On a chart whose names are all defined there is no other error to report. */
  lemma {:induction false} OnlyTheAlarm(chart: Chart, rec: Record, now: int, hops: nat, changed: bool)
    requires Closed(chart) && StateOf(rec, chart) in chart.states
    ensures Hop(chart, rec, now, hops, changed).error in {None, Some(DidNotSettle)}
    decreases hops
  {
    var due := DueNow(chart, rec, now);
    if hops > 0 && due.Some? {
      OnlyTheAlarm(chart, Fire(rec, due.value), now, hops - 1, true);
    }
  }

  /** The states whose timer has fired already: it is no longer armed, so none fires twice. */
  ghost predicate Spent(chart: Chart, rec: Record, fired: set<string>) {
    && fired <= chart.states.Keys
    && forall s, t :: s in fired && t in chart.states[s].timers ==> t.deadline !in rec.deadlines
  }

  lemma {:induction false} EachStateFiresOnce(chart: Chart, rec: Record, now: int, fired: set<string>)
    requires OneTimerPerState(chart) && Spent(chart, rec, fired)
    ensures |fired| + Firings(chart, rec, now) <= |chart.states|
    decreases |rec.deadlines|
  {
    var here, due := StateOf(rec, chart), DueNow(chart, rec, now);
    assert |chart.states| == |chart.states.Keys|;
    if due.Some? && due.value.target in chart.states {
      FiringSpends(rec, due.value);
      assert here !in fired;
      assert forall t :: t in chart.states[here].timers ==> t == due.value;
      EachStateFiresOnce(chart, Fire(rec, due.value), now, fired + {here});
    } else {
      SubsetIsNoLarger(fired, chart.states.Keys);
    }
  }

  lemma {:induction false} SubsetIsNoLarger<T>(a: set<T>, b: set<T>)
    requires a <= b
    ensures |a| <= |b|
  {
    if a != {} {
      var x :| x in a;
      SubsetIsNoLarger(a - {x}, b - {x});
    }
  }

  /** With one timer to a state, the hop limit of one more than the states is never reached: the
      error that reports a cycle of expired deadlines cannot occur, nor can any other. */
  lemma OneTimerAlwaysSettles(chart: Chart, rec: Record, now: int)
    requires Closed(chart) && OneTimerPerState(chart) && StateOf(rec, chart) in chart.states
    ensures Settled(chart, rec, now).error.None?
  {
    EachStateFiresOnce(chart, rec, now, {});
    AlarmExactly(chart, rec, now);
    OnlyTheAlarm(chart, rec, now, |chart.states| + 1, false);
  }

  /** With two timers it can, on a chart that would have settled: one state, two deadlines that both
      lead back to it, and the two looks the limit allows are spent firing them. */
  lemma TwoTimersRaiseAFalseAlarm()
    ensures var state := State([Timer("a", "s"), Timer("b", "s")], map[], false);
      var chart, rec := Chart("s", map["s" := state]), Record(0, 0, "s", map["a" := 1, "b" := 1], map[]);
      var out := Settled(chart, rec, 5);
      Closed(chart) && out.error == Some(DidNotSettle) && out.rec.deadlines == map[]
  {
    var state := State([Timer("a", "s"), Timer("b", "s")], map[], false);
    var chart, rec := Chart("s", map["s" := state]), Record(0, 0, "s", map["a" := 1, "b" := 1], map[]);
    assert |chart.states| == 1;
    var rec1 := Fire(rec, Timer("a", "s"));
    assert FirstDue(state.timers, rec.deadlines, 5) == Some(Timer("a", "s"));
    assert rec1.deadlines == map["b" := 1];
    assert FirstDue(state.timers[1..], rec1.deadlines, 5) == Some(Timer("b", "s"));
    assert FirstDue(state.timers, rec1.deadlines, 5) == Some(Timer("b", "s"));
    var rec2 := Fire(rec1, Timer("b", "s"));
    assert rec2.deadlines == map[];
    assert Hop(chart, rec, 5, 2, false) == Hop(chart, rec1, 5, 1, true) == Hop(chart, rec2, 5, 0, true);
  }

  // ---------------------------------------------------------------- who looked earlier

  /** The first timer whose deadline is armed, in the order the state declares them. */
  function FirstArmed(timers: seq<Timer>, deadlines: map<string, int>): (armed: Option<Timer>)
    ensures armed.None? ==> forall t :: t in timers ==> t.deadline !in deadlines
    ensures armed.Some? ==> armed.value in timers && armed.value.deadline in deadlines
  {
    if timers == [] then None
    else if timers[0].deadline in deadlines then Some(timers[0]) else FirstArmed(timers[1..], deadlines)
  }

  /** No armed timer's deadline comes before that of the one declared first. */
  ghost predicate FirstIsEarliest(timers: seq<Timer>, deadlines: map<string, int>) {
    forall t, first :: t in timers && t.deadline in deadlines && FirstArmed(timers, deadlines) == Some(first) ==>
      deadlines[first.deadline] <= deadlines[t.deadline]
  }

  /** The timer that is due at one instant is the one due at every later instant. */
  ghost predicate DueStays(timers: seq<Timer>, deadlines: map<string, int>) {
    forall early, late :: early <= late && FirstDue(timers, deadlines, early).Some? ==>
      FirstDue(timers, deadlines, late) == FirstDue(timers, deadlines, early)
  }

  lemma {:induction false} FirstArmedFires(timers: seq<Timer>, deadlines: map<string, int>, now: int)
    requires FirstArmed(timers, deadlines).Some? && deadlines[FirstArmed(timers, deadlines).value.deadline] <= now
    ensures FirstDue(timers, deadlines, now) == FirstArmed(timers, deadlines)
  {
    if timers[0].deadline !in deadlines {
      FirstArmedFires(timers[1..], deadlines, now);
    }
  }

  /** Which timer fires does not depend on when one looks, once one is due, if and only if no armed
      deadline of the state comes before that of the armed timer declared first. */
  lemma DueStaysExactly(timers: seq<Timer>, deadlines: map<string, int>)
    ensures DueStays(timers, deadlines) <==> FirstIsEarliest(timers, deadlines)
  {
    var armed := FirstArmed(timers, deadlines);
    if armed.Some? {
      var first := deadlines[armed.value.deadline];
      if FirstIsEarliest(timers, deadlines) {
        forall now | FirstDue(timers, deadlines, now).Some?
          ensures FirstDue(timers, deadlines, now) == armed && first <= now
        {
          FirstArmedFires(timers, deadlines, now);
        }
        forall early, late | early <= late && FirstDue(timers, deadlines, early).Some?
          ensures FirstDue(timers, deadlines, late) == FirstDue(timers, deadlines, early)
        {
          FirstArmedFires(timers, deadlines, late);
        }
      } else {
        var t :| t in timers && t.deadline in deadlines && deadlines[t.deadline] < first;
        var early := deadlines[t.deadline];
        assert Due(t, deadlines, early);
        FirstArmedFires(timers, deadlines, first);
        assert FirstDue(timers, deadlines, first) != FirstDue(timers, deadlines, early);
      }
    } else {
      assert forall now :: FirstDue(timers, deadlines, now).None?;
    }
  }

  /** Wherever the record is taken, timers declared earlier have earlier deadlines. */
  ghost predicate InDeclaredOrder(chart: Chart, deadlines: map<string, int>) {
    forall s :: s in chart.states ==> Ordered(chart.states[s].timers, deadlines)
  }

  ghost predicate Ordered(timers: seq<Timer>, deadlines: map<string, int>) {
    forall i, j :: 0 <= i < j < |timers| && timers[i].deadline in deadlines && timers[j].deadline in deadlines ==>
      deadlines[timers[i].deadline] <= deadlines[timers[j].deadline]
  }

  lemma {:induction false} OrderedIsEarliest(timers: seq<Timer>, deadlines: map<string, int>)
    requires Ordered(timers, deadlines)
    ensures FirstIsEarliest(timers, deadlines)
  {
    if timers != [] {
      if timers[0].deadline in deadlines {
        forall t | t in timers && t.deadline in deadlines
          ensures deadlines[timers[0].deadline] <= deadlines[t.deadline]
        {
          var j :| 0 <= j < |timers| && timers[j] == t;
        }
      } else {
        OrderedIsEarliest(timers[1..], deadlines);
        assert FirstArmed(timers, deadlines) == FirstArmed(timers[1..], deadlines);
        assert forall t :: t in timers && t.deadline in deadlines ==> t in timers[1..];
      }
    }
  }

  // ---------------------------------------------------------------- two looks or one

  /** What firing timers one after another leaves of a record. */
  function After(rec: Record, timers: seq<Timer>): Record
    decreases |timers|
  {
    if timers == [] then rec else After(Fire(rec, timers[0]), timers[1..])
  }

  /** A settling that raises no error fires what one with no limit would. */
  lemma {:induction false} SettledIsAfter(chart: Chart, rec: Record, now: int, hops: nat, changed: bool)
    requires Hop(chart, rec, now, hops, changed).error.None?
    ensures Hop(chart, rec, now, hops, changed).rec == After(rec, Fired(chart, rec, now))
    decreases hops
  {
    var due := DueNow(chart, rec, now);
    if due.Some? {
      SettledIsAfter(chart, Fire(rec, due.value), now, hops - 1, true);
    }
  }

  /** Of every record that the early look comes by, the timer that a late look would fire is due already. */
  ghost predicate Undisturbed(chart: Chart, rec: Record, early: int, late: int)
    decreases |rec.deadlines|
  {
    var due, next := DueNow(chart, rec, early), DueNow(chart, rec, late);
    due.Some? && due.value.target in chart.states ==>
      && next.Some? && Due(next.value, rec.deadlines, early)
      && (FiringSpends(rec, due.value); Undisturbed(chart, Fire(rec, due.value), early, late))
  }

  /** Where a timer is due early, a late look fires the same if and only if the one it fires is due early. */
  lemma {:induction false} SameDueExactly(timers: seq<Timer>, deadlines: map<string, int>, early: int, late: int)
    requires early <= late && FirstDue(timers, deadlines, early).Some?
    ensures FirstDue(timers, deadlines, late).Some?
    ensures FirstDue(timers, deadlines, late) == FirstDue(timers, deadlines, early) <==>
      Due(FirstDue(timers, deadlines, late).value, deadlines, early)
  {
    if !Due(timers[0], deadlines, early) && !Due(timers[0], deadlines, late) {
      SameDueExactly(timers[1..], deadlines, early, late);
    }
  }

  /** An early look and a late one fire together, in turn, what a late one alone would if and only if
      nothing disturbs the early one. */
  lemma {:induction false} LooksAgreeExactly(chart: Chart, rec: Record, early: int, late: int)
    requires early <= late
    ensures var first := Fired(chart, rec, early);
      first + Fired(chart, After(rec, first), late) == Fired(chart, rec, late) <==> Undisturbed(chart, rec, early, late)
    decreases |rec.deadlines|
  {
    var due := DueNow(chart, rec, early);
    FiredStep(chart, rec, early);
    FiredStep(chart, rec, late);
    if due.Some? && due.value.target in chart.states {
      SameDueExactly(chart.states[StateOf(rec, chart)].timers, rec.deadlines, early, late);
      FiringSpends(rec, due.value);
      LooksAgreeExactly(chart, Fire(rec, due.value), early, late);
      hide Fire, Fired;
      var first := Fired(chart, Fire(rec, due.value), early);
      AfterOne(rec, due.value, first);
      hide After, Undisturbed;
      SameAfterOne(due.value, first, Fired(chart, After(Fire(rec, due.value), first), late), Fired(chart, rec, late));
    } else {
      assert [] + Fired(chart, rec, late) == Fired(chart, rec, late);
    }
  }

  lemma FiredStep(chart: Chart, rec: Record, now: int)
    ensures var due, fired := DueNow(chart, rec, now), Fired(chart, rec, now);
      if due.None? || due.value.target !in chart.states then fired == []
      else fired == [due.value] + Fired(chart, Fire(rec, due.value), now)
  {
  }

  lemma AfterOne(rec: Record, timer: Timer, rest: seq<Timer>)
    ensures After(rec, [timer] + rest) == After(Fire(rec, timer), rest)
  {
    assert ([timer] + rest)[1..] == rest;
  }

  lemma SameAfterOne(timer: Timer, first: seq<Timer>, rest: seq<Timer>, all: seq<Timer>)
    ensures ([timer] + first) + rest == all <==> all != [] && all[0] == timer && first + rest == all[1..]
  {
    assert ([timer] + first) + rest == [timer] + (first + rest);
    assert ([timer] + (first + rest))[1..] == first + rest;
    if all != [] && all[0] == timer {
      assert all == [timer] + all[1..];
    }
  }

  /** Behaviour is a function of the clock at the observation: a look in between leaves the record a
      later look would have found without it, wherever nothing disturbs it and the later look raises no
      alarm. */
  lemma SettlingComposes(chart: Chart, rec: Record, early: int, late: int)
    requires Closed(chart) && StateOf(rec, chart) in chart.states && early <= late
    requires Undisturbed(chart, rec, early, late) && Firings(chart, rec, late) <= |chart.states|
    ensures Settled(chart, rec, early).error.None?
    ensures Settled(chart, Settled(chart, rec, early).rec, late).rec == Settled(chart, rec, late).rec
    ensures Settled(chart, Settled(chart, rec, early).rec, late).error.None?
  {
    LooksAgreeExactly(chart, rec, early, late);
    var first := Fired(chart, rec, early);
    var rest := Fired(chart, After(rec, first), late);
    assert first + rest == Fired(chart, rec, late);
    NoAlarm(chart, rec, early);
    NoAlarm(chart, rec, late);
    NoAlarm(chart, After(rec, first), late);
    AfterBoth(rec, first, rest);
  }

  lemma NoAlarm(chart: Chart, rec: Record, now: int)
    requires Closed(chart) && StateOf(rec, chart) in chart.states && Firings(chart, rec, now) <= |chart.states|
    ensures var settled := Settled(chart, rec, now);
      && settled.error.None? && settled.rec == After(rec, Fired(chart, rec, now))
      && StateOf(settled.rec, chart) in chart.states
  {
    AlarmExactly(chart, rec, now);
    OnlyTheAlarm(chart, rec, now, |chart.states| + 1, false);
    SettledIsAfter(chart, rec, now, |chart.states| + 1, false);
    NothingLeftDue(chart, rec, now, |chart.states| + 1, false);
  }

  lemma {:induction false} AfterBoth(rec: Record, first: seq<Timer>, next: seq<Timer>)
    ensures After(rec, first + next) == After(After(rec, first), next)
    decreases |first|
  {
    if first == [] {
      assert first + next == next;
    } else {
      assert (first + next)[1..] == first[1..] + next;
      AfterBoth(Fire(rec, first[0]), first[1..], next);
    }
  }

  /** Nothing is disturbed where timers are declared in the order of their deadlines. */
  lemma {:induction false} OrderIsUndisturbed(chart: Chart, rec: Record, early: int, late: int)
    requires InDeclaredOrder(chart, rec.deadlines) && early <= late
    ensures Undisturbed(chart, rec, early, late)
    decreases |rec.deadlines|
  {
    var due := DueNow(chart, rec, early);
    if due.Some? && due.value.target in chart.states {
      var timers := chart.states[StateOf(rec, chart)].timers;
      OrderedIsEarliest(timers, rec.deadlines);
      DueStaysExactly(timers, rec.deadlines);
      SameDueExactly(timers, rec.deadlines, early, late);
      FiringSpends(rec, due.value);
      FireKeepsOrder(chart, rec, due.value);
      OrderIsUndisturbed(chart, Fire(rec, due.value), early, late);
    }
  }

  /** Firing leaves no deadline it did not find. */
  lemma FireKeepsOrder(chart: Chart, rec: Record, t: Timer)
    requires InDeclaredOrder(chart, rec.deadlines)
    ensures InDeclaredOrder(chart, Fire(rec, t).deadlines)
  {
  }

  /** So it is wherever each state has one timer. */
  lemma OneTimerComposes(chart: Chart, rec: Record, early: int, late: int)
    requires Closed(chart) && OneTimerPerState(chart) && StateOf(rec, chart) in chart.states && early <= late
    ensures Settled(chart, Settled(chart, rec, early).rec, late).rec == Settled(chart, rec, late).rec
  {
    EachStateFiresOnce(chart, rec, late, {});
    OrderIsUndisturbed(chart, rec, early, late);
    SettlingComposes(chart, rec, early, late);
  }

  /** With two timers to a state the order they are declared in beats the order of their deadlines,
      and a look in between shows: it fires the earlier deadline, a single late look the other. */
  lemma TwoTimersRememberAnEarlyLook()
    ensures var waiting := State([Timer("slow", "x"), Timer("fast", "y")], map[], false);
      var chart := Chart("w", map["w" := waiting, "x" := State([], map[], false), "y" := State([], map[], false)]);
      var rec := Record(0, 0, "w", map["slow" := 10, "fast" := 5], map[]);
      && Closed(chart)
      && Settled(chart, Settled(chart, rec, 7).rec, 12).rec.state == "y"
      && Settled(chart, rec, 12).rec.state == "x"
  {
    var waiting := State([Timer("slow", "x"), Timer("fast", "y")], map[], false);
    var chart := Chart("w", map["w" := waiting, "x" := State([], map[], false), "y" := State([], map[], false)]);
    var rec := Record(0, 0, "w", map["slow" := 10, "fast" := 5], map[]);
    assert "w" in chart.states.Keys && "x" in chart.states.Keys && "y" in chart.states.Keys;
    assert |chart.states| > 1 by {
      SubsetIsNoLarger({"w", "x"}, chart.states.Keys);
    }
    assert FirstDue(waiting.timers[1..], rec.deadlines, 7) == Some(Timer("fast", "y"));
    assert FirstDue(waiting.timers, rec.deadlines, 7) == Some(Timer("fast", "y"));
    assert FirstDue(waiting.timers, rec.deadlines, 12) == Some(Timer("slow", "x"));
    var y, x := Fire(rec, Timer("fast", "y")), Fire(rec, Timer("slow", "x"));
    assert FirstDue([], y.deadlines, 7).None?;
    assert Settled(chart, rec, 7) == Hop(chart, y, 7, |chart.states|, true);
    assert Settled(chart, rec, 7).rec == y;
    assert Settled(chart, y, 12).rec == y;
    assert Settled(chart, rec, 12) == Hop(chart, x, 12, |chart.states|, true);
  }
}
