/** Lifecycles with lazy timers: a deadline sits on its record until something looks, and the look is
    what makes it fire (internal/engine/statechart.go). Guards, member expressions and durations are
    functions of the record, as the expressions that compute them are. */
module Statecharts {
  import opened Options

  /** A stored record: `id` is what identifies the message for ever, `key` the handle it is stored
      under, and an empty state stands for the chart's initial one. */
  datatype Record = Record(id: nat, key: nat, state: string, deadlines: map<string, int>, members: map<string, int>)

  datatype Timer = Timer(deadline: string, target: string)

  /** What the event carries, and every guard and expression of its transition may read. */
  type Context = map<string, string>

  /** `Set` writes one member, `Rekey` gives the keying member a newly generated value, `Arm` sets a
      deadline, and `Move` stores the record in another collection, in `state` with its deadlines
      dropped unless `state` is empty. */
  datatype Action =
    | Set(name: string, value: (Record, Context) -> int)
    | Rekey
    | Arm(name: string, after: (Record, Context) -> int)
    | Move(to: (Record, Context) -> string, state: string)

  datatype Transition = Transition(guard: (Record, Context) -> bool, target: string, actions: seq<Action>)

  datatype State = State(timers: seq<Timer>, on: map<string, seq<Transition>>, final: bool)

  datatype Chart = Chart(initial: string, states: map<string, State>)

  datatype Error = UndefinedState(name: string) | UnknownTarget(name: string) | DidNotSettle

  function StateOf(rec: Record, chart: Chart): string {
    if rec.state != "" then rec.state else chart.initial
  }

  // ---------------------------------------------------------------- settling

  predicate Due(timer: Timer, deadlines: map<string, int>, now: int) {
    timer.deadline in deadlines && deadlines[timer.deadline] <= now
  }

  /** The first timer, in the order the state declares them, whose deadline has passed. */
  function FirstDue(timers: seq<Timer>, deadlines: map<string, int>, now: int): (due: Option<Timer>)
    ensures due.None? <==> forall t :: t in timers ==> !Due(t, deadlines, now)
    ensures due.Some? ==> due.value in timers && Due(due.value, deadlines, now)
  {
    if timers == [] then None
    else if Due(timers[0], deadlines, now) then Some(timers[0])
    else FirstDue(timers[1..], deadlines, now)
  }

  function Fire(rec: Record, timer: Timer): Record {
    rec.(state := timer.target, deadlines := rec.deadlines - {timer.deadline})
  }

  datatype Settling = Settling(rec: Record, changed: bool, error: Option<Error>)

  /** Fires due timers one after another, giving up when `hops` looks have all found one. */
  function Hop(chart: Chart, rec: Record, now: int, hops: nat, changed: bool): Settling
    decreases hops
  {
    if hops == 0 then Settling(rec, changed, Some(DidNotSettle))
    else if StateOf(rec, chart) !in chart.states then
      Settling(rec, changed, Some(UndefinedState(StateOf(rec, chart))))
    else
      match FirstDue(chart.states[StateOf(rec, chart)].timers, rec.deadlines, now)
      case None => Settling(rec, changed, None)
      case Some(timer) =>
        if timer.target !in chart.states then Settling(rec, changed, Some(UnknownTarget(timer.target)))
        else Hop(chart, Fire(rec, timer), now, hops - 1, true)
  }

  function Settled(chart: Chart, rec: Record, now: int): Settling {
    Hop(chart, rec, now, |chart.states| + 1, false)
  }

  // ---------------------------------------------------------------- events

  /** A record put into a collection by a move. */
  datatype Arrival = Arrival(collection: string, rec: Record)

  /** The outcome of actions: the record, the puts they made in order, and the next unissued key. */
  datatype Acted = Acted(rec: Record, arrivals: seq<Arrival>, issued: nat)

  function Act(action: Action, rec: Record, ctx: Context, now: int, issued: nat): Acted {
    match action
    case Set(name, value) => Acted(rec.(members := rec.members[name := value(rec, ctx)]), [], issued)
    case Rekey => Acted(rec.(key := issued), [], issued + 1)
    case Arm(name, after) => Acted(rec.(deadlines := rec.deadlines[name := now + after(rec, ctx)]), [], issued)
    case Move(to, state) =>
      var there := if state != "" then rec.(state := state, deadlines := map[]) else rec;
      Acted(there, [Arrival(to(there, ctx), there)], issued)
  }

  function ActAll(actions: seq<Action>, rec: Record, ctx: Context, now: int, issued: nat): Acted {
    if actions == [] then Acted(rec, [], issued)
    else
      var before := ActAll(actions[..|actions| - 1], rec, ctx, now, issued);
      var last := Act(actions[|actions| - 1], before.rec, ctx, now, before.issued);
      Acted(last.rec, before.arrivals + last.arrivals, last.issued)
  }

  datatype Sent = Sent(rec: Record, changed: bool, arrivals: seq<Arrival>, issued: nat, error: Option<Error>)

  /** The first transition whose guard holds. */
  function Chosen(transitions: seq<Transition>, rec: Record, ctx: Context): (chosen: Option<Transition>)
    ensures chosen.Some? ==> chosen.value in transitions && chosen.value.guard(rec, ctx)
    ensures chosen.None? ==> forall t :: t in transitions ==> !t.guard(rec, ctx)
  {
    if transitions == [] then None
    else if transitions[0].guard(rec, ctx) then Some(transitions[0])
    else Chosen(transitions[1..], rec, ctx)
  }

  /** Settle first, then take the first transition whose guard holds; an event the state does not
      handle is ignored. */
  function Send(chart: Chart, rec: Record, event: string, ctx: Context, now: int, issued: nat): Sent {
    var settled := Settled(chart, rec, now);
    var here := settled.rec;
    if settled.error.Some? then Sent(here, settled.changed, [], issued, settled.error)
    else if StateOf(here, chart) !in chart.states then
      Sent(here, settled.changed, [], issued, Some(UndefinedState(StateOf(here, chart))))
    else if event !in chart.states[StateOf(here, chart)].on then Sent(here, settled.changed, [], issued, None)
    else
      match Chosen(chart.states[StateOf(here, chart)].on[event], here, ctx)
      case None => Sent(here, settled.changed, [], issued, None)
      case Some(t) =>
        if t.target !in chart.states then Sent(here, settled.changed, [], issued, Some(UnknownTarget(t.target)))
        else
          var acted := ActAll(t.actions, here, ctx, now, issued);
          Sent(acted.rec.(state := t.target), true, acted.arrivals, acted.issued, None)
  }

  /** A record while an operation works on it: changed in place, written back by its caller. */
  class LiveRecord {
    const id: nat
    var key: nat
    var state: string
    var deadlines: map<string, int>
    var members: map<string, int>

    constructor (rec: Record)
      ensures Value() == rec
    {
      id, key, state, deadlines, members := rec.id, rec.key, rec.state, rec.deadlines, rec.members;
    }

    function Value(): Record
      reads this
    {
      Record(id, key, state, deadlines, members)
    }

    /** Fires the first due timer of a state, if there is one. */
    method FireFirst(chart: Chart, timers: seq<Timer>, now: int) returns (fired: bool, error: Option<Error>)
      modifies this`state, this`deadlines
      ensures var due := FirstDue(timers, old(deadlines), now);
        if due.None? then !fired && error.None? && Value() == old(Value())
        else if due.value.target !in chart.states then
          !fired && error == Some(UnknownTarget(due.value.target)) && Value() == old(Value())
        else fired && error.None? && Value() == Fire(old(Value()), due.value)
    {
      for i := 0 to |timers|
        invariant Value() == old(Value())
        invariant FirstDue(timers[i..], deadlines, now) == FirstDue(timers, deadlines, now)
      {
        var timer := timers[i];
        if timer.deadline in deadlines && deadlines[timer.deadline] <= now {
          if timer.target !in chart.states {
            return false, Some(UnknownTarget(timer.target));
          }
          state := timer.target;
          deadlines := deadlines - {timer.deadline};
          return true, None;
        }
      }
      return false, None;
    }

    /** Advances the record through every timer whose deadline has passed. */
    method Settle(chart: Chart, now: int) returns (changed: bool, error: Option<Error>)
      modifies this`state, this`deadlines
      ensures Settled(chart, old(Value()), now) == Settling(Value(), changed, error)
    {
      changed := false;
      for hops := 0 to |chart.states| + 1
        invariant Settled(chart, old(Value()), now)
               == Hop(chart, Value(), now, |chart.states| + 1 - hops, changed)
      {
        var name := StateOf(Value(), chart);
        if name !in chart.states {
          return changed, Some(UndefinedState(name));
        }
        var fired, failed := FireFirst(chart, chart.states[name].timers, now);
        if failed.Some? {
          return changed, failed;
        }
        if !fired {
          return changed, None;
        }
        changed := true;
      }
      error := Some(DidNotSettle);
    }
  }
}
