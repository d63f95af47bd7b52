/** The idempotency table: a key's first call inside a window executes, and the others are answered
    with what it answered (internal/engine/effects.go). */
module Idempotency {
  import opened Options

  type Answer = map<string, string>

  datatype Entry = Entry(until: int, record: Answer)

  /** One call, at a reading of the clock: the table key (no entry is kept under "" or "<nil>"), what
      is remembered before the effects run, and what they answer, if they answer at all. */
  datatype Call = Call(key: string, now: int, initial: Answer, output: Option<Answer>)

  /** What became of a call: answered from the table, executed, or executed outside the table. */
  datatype Outcome = Hit(record: Answer) | Executed | Untabled

  predicate Tabled(key: string) {
    key != "" && key != "<nil>"
  }

  /** The table of one bundle's effect, whose window is ttl long. Calls are made one at a time: the
      engine holds its lock from the lookup to the completed answer. */
  class Table {
    const ttl: int
    var entries: map<string, Entry>

    constructor (ttl: int)
      ensures this.ttl == ttl && entries == map[]
    {
      this.ttl := ttl;
      entries := map[];
    }

    /** Looks a key up and, on a miss, remembers it before the effects behind it run. */
    method RunDedup(key: string, now: int, initial: Answer) returns (hit: Option<Answer>, pending: Option<int>)
      modifies this`entries
      ensures hit.Some? <==> Tabled(key) && key in old(entries) && now < old(entries)[key].until
      ensures hit.Some? ==> hit.value == old(entries)[key].record && entries == old(entries) && pending.None?
      ensures Tabled(key) && hit.None? ==>
        entries == old(entries)[key := Entry(now + ttl, initial)] && pending == Some(now + ttl)
      ensures !Tabled(key) ==> entries == old(entries) && pending.None?
    {
      hit, pending := None, None;
      if key == "" || key == "<nil>" {
        return;
      }
      if key in entries {
        var entry := entries[key];
        if now < entry.until {
          hit := Some(entry.record);
          return;
        }
      }
      entries := entries[key := Entry(now + ttl, initial)];
      pending := Some(now + ttl);
    }

    /** Records the answer against the key it executed for, under the window it opened. */
    method CompleteDedup(key: string, pending: Option<int>, output: Answer)
      modifies this`entries
      ensures entries == if pending.None? then old(entries) else old(entries)[key := Entry(pending.value, output)]
    {
      if pending.Some? {
        entries := entries[key := Entry(pending.value, output)];
      }
    }

    /** One operation with the effect in it. */
    method Invoke(call: Call) returns (outcome: Outcome)
      modifies this`entries
      ensures (entries, outcome) == Effect(ttl, old(entries), call)
    {
      ghost var before := entries;
      var hit, pending := RunDedup(call.key, call.now, call.initial);
      if hit.Some? {
        return Hit(hit.value);
      }
      if call.output.Some? {
        CompleteDedup(call.key, pending, call.output.value);
        assert pending.Some? ==> entries == before[call.key := Entry(pending.value, call.output.value)];
      }
      outcome := if pending.Some? then Executed else Untabled;
    }
  }

  function Effect(ttl: int, entries: map<string, Entry>, call: Call): (map<string, Entry>, Outcome) {
    if !Tabled(call.key) then (entries, Untabled)
    else if call.key in entries && call.now < entries[call.key].until then (entries, Hit(entries[call.key].record))
    else
      var record := if call.output.Some? then call.output.value else call.initial;
      (entries[call.key := Entry(call.now + ttl, record)], Executed)
  }

  // ---------------------------------------------------------------- over a run

  function After(ttl: int, calls: seq<Call>): map<string, Entry> {
    if calls == [] then map[] else Effect(ttl, After(ttl, calls[..|calls| - 1]), calls[|calls| - 1]).0
  }

  /** The outcome of the i-th call of a run that starts with an empty table. */
  function OutcomeOf(ttl: int, calls: seq<Call>, i: nat): Outcome
    requires i < |calls|
  {
    Effect(ttl, After(ttl, calls[..i]), calls[i]).1
  }

  function Remembered(call: Call): Answer {
    if call.output.Some? then call.output.value else call.initial
  }

  /** Call i executed and no later call before n did for its key. */
  ghost predicate Opened(ttl: int, calls: seq<Call>, key: string, i: nat, n: nat)
    requires n <= |calls|
  {
    && i < n && calls[i].key == key && OutcomeOf(ttl, calls, i) == Executed
    && forall j :: i < j < n && calls[j].key == key ==> OutcomeOf(ttl, calls, j) != Executed
  }

  /** The table holds, for each key, the window its last execution opened and what it answered. */
  lemma {:induction false} TableIsLastExecution(ttl: int, calls: seq<Call>, key: string, n: nat) returns (i: nat)
    requires n <= |calls| && Tabled(key)
    ensures var entries := After(ttl, calls[..n]);
      if key in entries then
        Opened(ttl, calls, key, i, n) && entries[key] == Entry(calls[i].now + ttl, Remembered(calls[i]))
      else forall j :: 0 <= j < n && calls[j].key == key ==> OutcomeOf(ttl, calls, j) != Executed
  {
    i := 0;
    if n > 0 {
      i := TableIsLastExecution(ttl, calls, key, n - 1);
      assert calls[..n][..n - 1] == calls[..n - 1];
      var before, entries := After(ttl, calls[..n - 1]), After(ttl, calls[..n]);
      assert entries == Effect(ttl, before, calls[n - 1]).0;
      EffectAt(ttl, before, calls[n - 1], key);
      hide After, Effect, Tabled, Remembered;
      if calls[n - 1].key == key && OutcomeOf(ttl, calls, n - 1) == Executed {
        i := n - 1;
      } else {
        if key in before {
          StaysOpened(ttl, calls, key, i, n - 1);
        }
      }
    }
  }

  /** A call changes the entry of a key only by executing for it. */
  lemma EffectAt(ttl: int, before: map<string, Entry>, call: Call, key: string)
    requires Tabled(key)
    ensures var (entries, outcome) := Effect(ttl, before, call);
      if call.key == key && outcome == Executed then
        key in entries && entries[key] == Entry(call.now + ttl, Remembered(call))
      else (key in entries <==> key in before) && (key in before ==> entries[key] == before[key])
  {
  }

  lemma StaysOpened(ttl: int, calls: seq<Call>, key: string, i: nat, n: nat)
    requires n < |calls| && Opened(ttl, calls, key, i, n)
    requires calls[n].key != key || OutcomeOf(ttl, calls, n) != Executed
    ensures Opened(ttl, calls, key, i, n + 1)
  {
  }

  lemma OneOpening(ttl: int, calls: seq<Call>, key: string, i: nat, j: nat, n: nat)
    requires n <= |calls| && Opened(ttl, calls, key, i, n) && Opened(ttl, calls, key, j, n)
    ensures i == j
  {
  }

  /** A call for a table key is a hit if and only if it falls inside the window of the last execution
      for that key, and then it is answered exactly what that execution answered (what was remembered
      for it, if it failed before answering). */
  lemma HitExactlyInsideTheWindow(ttl: int, calls: seq<Call>, i: nat, n: nat)
    requires n < |calls| && Tabled(calls[n].key) && Opened(ttl, calls, calls[n].key, i, n)
    ensures OutcomeOf(ttl, calls, n) ==
      if calls[n].now < calls[i].now + ttl then Hit(Remembered(calls[i])) else Executed
  {
    var j := TableIsLastExecution(ttl, calls, calls[n].key, n);
    if calls[n].key in After(ttl, calls[..n]) {
      OneOpening(ttl, calls, calls[n].key, i, j, n);
    }
  }

  ghost predicate ClockRuns(calls: seq<Call>) {
    forall i, j :: 0 <= i < j < |calls| ==> calls[i].now <= calls[j].now
  }

  lemma {:induction false} LastOpening(ttl: int, calls: seq<Call>, key: string, i: nat, n: nat) returns (last: nat)
    requires i < n <= |calls| && calls[i].key == key && OutcomeOf(ttl, calls, i) == Executed
    ensures i <= last && Opened(ttl, calls, key, last, n)
    decreases n - i
  {
    if j :| i < j < n && calls[j].key == key && OutcomeOf(ttl, calls, j) == Executed {
      last := LastOpening(ttl, calls, key, j, n);
    } else {
      last := i;
    }
  }

  /** On a clock that does not run backwards two executions for one key are at least the window apart,
      and every call for it in between and inside the window is answered what the first answered. */
  lemma WindowHolds(ttl: int, calls: seq<Call>, i: nat, n: nat)
    requires ClockRuns(calls) && i < n < |calls| && Tabled(calls[i].key) && calls[n].key == calls[i].key
    requires OutcomeOf(ttl, calls, i) == Executed
    ensures OutcomeOf(ttl, calls, n) == Executed ==> calls[n].now >= calls[i].now + ttl
    ensures calls[n].now < calls[i].now + ttl ==> OutcomeOf(ttl, calls, n) == Hit(Remembered(calls[i]))
    decreases n
  {
    var last := LastOpening(ttl, calls, calls[i].key, i, n);
    if last != i {
      WindowHolds(ttl, calls, i, last);
    }
    HitExactlyInsideTheWindow(ttl, calls, last, n);
  }
}
