/**
  The handler records of PyListenerTool's registry and the specification of
  one dispatch pass (`_call`): which records survive it, and which calls it
  makes. Handlers are opaque identifiers; what a handler does when called is
  summarised by an Outcome supplied by the caller of the model.
 */
module Dispatch {
  import opened Wrappers

  /** An opaque callable, such as an error callback, known by its identity. */
  type HandlerId = nat

  /**
    What the guarded invocation of a handler does. For a synchronous record
    this is the call itself; for an asynchronous record it is the attempt to
    start its thread. `Raised` is an `Exception`, which `except Exception`
    catches; `Escaped` is any other `BaseException` (`KeyboardInterrupt`,
    `SystemExit`), which that clause lets through, so it ends the pass and
    leaves `_call`.
   */
  datatype Outcome = Returned | Raised(error: string) | Escaped(error: string)

  /** A registered handler: its identity and what invoking it does. */
  datatype Handler = Handler(id: HandlerId, outcome: Outcome)

  /** One registration: `{"func", "is_async", "once", "on_error"}`. */
  datatype Record = Record(func: Handler, isAsync: bool, once: bool, onError: Option<HandlerId>)

  /** An observable call made by a dispatch pass. */
  datatype Effect =
    | Invoked(func: Handler, isAsync: bool)           // the handler is called, or its thread started
    | Reported(onError: HandlerId, error: string)     // on_error is called with the exception

  /** The registry: event name to its ordered list of records. */
  type ListenerMap = map<string, seq<Record>>

  /** The records of `event`, empty when it has no entry. */
  function ListenersFor(reg: ListenerMap, event: string): seq<Record> {
    if event in reg then reg[event] else []
  }

  /** The records a pass leaves in the live list: the non-`once` ones, in order. */
  function Survivors(rs: seq<Record>): (kept: seq<Record>)
    ensures |kept| <= |rs|
    decreases |rs|
  {
    if rs == [] then []
    else
      var last := rs[|rs| - 1];
      Survivors(rs[..|rs| - 1]) + (if last.once then [] else [last])
  }

  /**
    The calls one record's turn makes: the handler first; then `on_error`,
    with the exception, exactly when the handler raised an `Exception` and
    `on_error` is set; nothing else.
   */
  function Step(r: Record): (calls: seq<Effect>)
    ensures 1 <= |calls| <= 2 && calls[0] == Invoked(r.func, r.isAsync)
    ensures |calls| == 2 <==> r.func.outcome.Raised? && r.onError.Some?
    ensures |calls| == 2 ==> calls[1] == Reported(r.onError.value, r.func.outcome.error)
  {
    var outcome := r.func.outcome;
    if outcome.Raised? && r.onError.Some? then [Invoked(r.func, r.isAsync), Reported(r.onError.value, outcome.error)]
    else [Invoked(r.func, r.isAsync)]
  }

  /** The calls a pass over the records `rs` makes, record by record: one or two per record. */
  function DispatchTrace(rs: seq<Record>): (trace: seq<Effect>)
    ensures rs != [] ==> |trace| > 0 && trace[0] == Invoked(rs[0].func, rs[0].isAsync)
    decreases |rs|
  {
    if rs == [] then [] else DispatchTrace(rs[..|rs| - 1]) + Step(rs[|rs| - 1])
  }

  /** The handler invocations of a trace, with error-callback calls dropped. */
  function Invocations(trace: seq<Effect>): seq<Effect>
    decreases |trace|
  {
    if trace == [] then []
    else Invocations(trace[..|trace| - 1]) + (if trace[|trace| - 1].Invoked? then [trace[|trace| - 1]] else [])
  }

  /** One invocation per record, in registration order: the reference the pass is compared with. */
  function Calls(rs: seq<Record>): (cs: seq<Effect>)
    ensures |cs| == |rs|
  {
    seq(|rs|, k requires 0 <= k < |rs| => Invoked(rs[k].func, rs[k].isAsync))
  }

  /** A record whose handler's exception is not an `Exception` and so is not caught. */
  predicate Escapes(r: Record) {
    r.func.outcome.Escaped?
  }

  /** No record among the first i escapes. */
  predicate ClearBefore(rs: seq<Record>, i: nat)
    requires i <= |rs|
  {
    forall k :: 0 <= k < i ==> !Escapes(rs[k])
  }

  /**
    How many records of the snapshot a pass reaches: all of them, unless
    one escapes, in which case the pass ends with that one.
   */
  function Reach(rs: seq<Record>): (n: nat)
    ensures n <= |rs| && (rs != [] ==> n > 0)
    ensures forall k :: 0 <= k < n - 1 ==> !Escapes(rs[k])
    ensures n < |rs| ==> Escapes(rs[n - 1])
    decreases |rs|
  {
    if rs == [] then 0
    else if Escapes(rs[0]) then 1
    else
      var rest := Reach(rs[1..]);
      assert forall k :: 1 <= k < rest ==> rs[k] == rs[1..][k - 1];
      1 + rest
  }

  /** The pass ends at the first record that escapes. */
  lemma ReachAt(rs: seq<Record>, i: nat)
    requires i < |rs| && ClearBefore(rs, i) && Escapes(rs[i])
    ensures Reach(rs) == i + 1
  {
  }

  /** With no record escaping the pass reaches every record. */
  lemma ReachAll(rs: seq<Record>)
    requires ClearBefore(rs, |rs|)
    ensures Reach(rs) == |rs|
  {
  }

  /** The registry after `_call(event)`: the event's list loses the `once` records the pass reached; nothing else changes. */
  function Fired(reg: ListenerMap, event: string): (reg': ListenerMap)
    ensures reg'.Keys == reg.Keys
    ensures event in reg ==> reg'[event] == Survivors(reg[event][..Reach(reg[event])]) + reg[event][Reach(reg[event])..]
    ensures forall e :: e in reg && e != event ==> reg'[e] == reg[e]
  {
    if event in reg then reg[event := Survivors(reg[event][..Reach(reg[event])]) + reg[event][Reach(reg[event])..]] else reg
  }

  /** The calls `_call(event)` makes: those of the records it reaches, none at all when the event has no entry. */
  function CallTrace(reg: ListenerMap, event: string): seq<Effect> {
    if event in reg then DispatchTrace(reg[event][..Reach(reg[event])]) else []
  }

  /** The exception that leaves `_call(event)`, if a reached handler's exception escapes. */
  function Escaping(reg: ListenerMap, event: string): Option<string> {
    if event in reg && Reach(reg[event]) > 0 && Escapes(reg[event][Reach(reg[event]) - 1])
    then Some(reg[event][Reach(reg[event]) - 1].func.outcome.error)
    else None
  }

  /** The registry after `addListener(event, ...)` appends `r`. */
  function Register(reg: ListenerMap, event: string, r: Record): (reg': ListenerMap)
    ensures reg'.Keys == reg.Keys + {event}
    ensures reg'[event] == ListenersFor(reg, event) + [r]
    ensures forall e :: e in reg && e != event ==> reg'[e] == reg[e]
  {
    reg[event := ListenersFor(reg, event) + [r]]
  }

  // ---------------------------------------------------------------------------
  // Survivors is a filter

  /** Filtering a concatenation filters each part: relative order is kept. */
  lemma {:induction false} SurvivorsAppend(a: seq<Record>, b: seq<Record>)
    ensures Survivors(a + b) == Survivors(a) + Survivors(b)
    decreases |b|
  {
    if b == [] {
      assert a + b == a;
    } else {
      var b' := b[..|b| - 1];
      assert (a + b)[..|a + b| - 1] == a + b';
      SurvivorsAppend(a, b');
    }
  }

  /** A record survives exactly when it was in the list and is not `once`. */
  lemma {:induction false} SurvivorsMembership(rs: seq<Record>, r: Record)
    ensures r in Survivors(rs) <==> r in rs && !r.once
    decreases |rs|
  {
    if rs != [] {
      var init := rs[..|rs| - 1];
      SurvivorsMembership(init, r);
      assert rs == init + [rs[|rs| - 1]];
    }
  }

  /** A second pass deletes nothing more: once records fire on the first pass only. */
  lemma {:induction false} SurvivorsIdempotent(rs: seq<Record>)
    ensures Survivors(Survivors(rs)) == Survivors(rs)
    decreases |rs|
  {
    if rs != [] {
      var init := rs[..|rs| - 1];
      var last := rs[|rs| - 1];
      SurvivorsIdempotent(init);
      SurvivorsAppend(Survivors(init), if last.once then [] else [last]);
    }
  }

  // ---------------------------------------------------------------------------
  // One iteration of the pass

  /** The records among the first i of the snapshot that the pass keeps: `Survivors` counted by index. */
  function KeptBefore(snapshot: seq<Record>, i: nat): seq<Record>
    requires i <= |snapshot|
  {
    if i == 0 then [] else KeptBefore(snapshot, i - 1) + (if snapshot[i - 1].once then [] else [snapshot[i - 1]])
  }

  /** `del_count` after the first i records: how many of them were `once`. */
  function DeletedBefore(snapshot: seq<Record>, i: nat): nat
    requires i <= |snapshot|
  {
    if i == 0 then 0 else DeletedBefore(snapshot, i - 1) + (if snapshot[i - 1].once then 1 else 0)
  }

  /** The calls made for the first i records: `DispatchTrace` counted by index. */
  function TraceBefore(snapshot: seq<Record>, i: nat): seq<Effect>
    requires i <= |snapshot|
  {
    if i == 0 then [] else TraceBefore(snapshot, i - 1) + Step(snapshot[i - 1])
  }

  /**
    The live list while the pass is at snapshot index i: the kept records
    already visited, then the records not yet visited.
   */
  function Live(snapshot: seq<Record>, i: nat): seq<Record>
    requires i <= |snapshot|
  {
    KeptBefore(snapshot, i) + snapshot[i..]
  }

  /** Every visited record is either kept or counted in `del_count`. */
  lemma {:induction false} KeptCount(snapshot: seq<Record>, i: nat)
    requires i <= |snapshot|
    ensures |KeptBefore(snapshot, i)| + DeletedBefore(snapshot, i) == i
  {
    if i > 0 {
      KeptCount(snapshot, i - 1);
    }
  }

  /** Before the first iteration the registry holds the whole snapshot as the live list. */
  lemma PassStart(reg: ListenerMap, event: string)
    requires event in reg
    ensures reg == reg[event := Live(reg[event], 0)]
  {
    assert reg[event][0..] == reg[event];
    assert Live(reg[event], 0) == reg[event];
  }

  /**
    When the loop runs to its end, no record having escaped, the registry
    holds `Fired`, the calls made are `CallTrace`, and no exception leaves.
   */
  lemma PassEnd(start: ListenerMap, event: string, snapshot: seq<Record>)
    requires event in start && start[event] == snapshot && ClearBefore(snapshot, |snapshot|)
    ensures start[event := Live(snapshot, |snapshot|)] == Fired(start, event)
    ensures TraceBefore(snapshot, |snapshot|) == CallTrace(start, event)
    ensures Escaping(start, event) == None
  {
    PassEnds(snapshot, |snapshot|);
    ReachAll(snapshot);
    assert snapshot[..|snapshot|] == snapshot;
    assert snapshot[Reach(snapshot)..] == [];
    assert Live(snapshot, |snapshot|) == Survivors(snapshot[..Reach(snapshot)]) + snapshot[Reach(snapshot)..];
  }

  /**
    When record i escapes, record i being the first to, the pass ends right
    after its turn: the registry holds `Fired`, the calls made are
    `CallTrace`, and record i's exception leaves `_call`.
   */
  lemma PassEscape(start: ListenerMap, event: string, snapshot: seq<Record>, i: nat)
    requires event in start && start[event] == snapshot
    requires i < |snapshot| && ClearBefore(snapshot, i) && Escapes(snapshot[i])
    ensures start[event := Live(snapshot, i + 1)] == Fired(start, event)
    ensures TraceBefore(snapshot, i + 1) == CallTrace(start, event)
    ensures Escaping(start, event) == Some(snapshot[i].func.outcome.error)
  {
    ReachAt(snapshot, i);
    PassEnds(snapshot, i + 1);
  }

  /** Up to any index, the pass has kept the survivors of the prefix and made the prefix's dispatch trace. */
  lemma {:induction false} PassEnds(snapshot: seq<Record>, i: nat)
    requires i <= |snapshot|
    ensures KeptBefore(snapshot, i) == Survivors(snapshot[..i])
    ensures TraceBefore(snapshot, i) == DispatchTrace(snapshot[..i])
  {
    if i > 0 {
      PassEnds(snapshot, i - 1);
      assert snapshot[..i][..i - 1] == snapshot[..i - 1];
    }
  }

  /**
    When record i is `once` and the registry holds the live list, the index
    `i - del_count` is in bounds for that list and holds exactly record i.
   */
  lemma DeleteOnce(reg: ListenerMap, start: ListenerMap, event: string, snapshot: seq<Record>, i: nat, deleted: nat)
    requires i < |snapshot| && snapshot[i].once
    requires reg == start[event := Live(snapshot, i)] && deleted == DeletedBefore(snapshot, i)
    ensures event in reg && deleted <= i < |reg[event]| + deleted
    ensures reg[event][i - deleted] == snapshot[i]
  {
    KeptCount(snapshot, i);
  }

  /** Deleting at `i - del_count` then leaves the registry holding the next iteration's live list. */
  lemma DeletedStep(reg: ListenerMap, after: ListenerMap, start: ListenerMap, event: string, snapshot: seq<Record>, i: nat, deleted: nat)
    requires i < |snapshot| && snapshot[i].once
    requires reg == start[event := Live(snapshot, i)] && deleted == DeletedBefore(snapshot, i)
    requires deleted <= i < |reg[event]| + deleted
    requires after == reg[event := reg[event][..i - deleted] + reg[event][i - deleted + 1..]]
    ensures after == start[event := Live(snapshot, i + 1)]
  {
    var done := KeptBefore(snapshot, i);
    var live := done + snapshot[i..];
    KeptCount(snapshot, i);
    assert KeptBefore(snapshot, i + 1) == done;
    assert live[..|done|] == done;
    assert live[|done| + 1..] == snapshot[i + 1..];
    assert live[..|done|] + live[|done| + 1..] == Live(snapshot, i + 1);
  }

  /** When record i is not `once` the registry is untouched and already holds the next iteration's live list. */
  lemma KeepStep(start: ListenerMap, event: string, snapshot: seq<Record>, i: nat)
    requires i < |snapshot| && !snapshot[i].once
    ensures start[event := Live(snapshot, i)] == start[event := Live(snapshot, i + 1)]
  {
    assert snapshot[i..] == [snapshot[i]] + snapshot[i + 1..];
    assert Live(snapshot, i) == Live(snapshot, i + 1);
  }

  // ---------------------------------------------------------------------------
  // The trace of a pass

  /** Error isolation: each record's calls depend on that record alone, whatever the others did. */
  lemma {:induction false} DispatchTraceAppend(a: seq<Record>, b: seq<Record>)
    ensures DispatchTrace(a + b) == DispatchTrace(a) + DispatchTrace(b)
    decreases |b|
  {
    if b == [] {
      assert a + b == a;
    } else {
      var b' := b[..|b| - 1];
      var last := b[|b| - 1];
      assert (a + b)[..|a + b| - 1] == a + b';
      assert (a + b)[|a + b| - 1] == last;
      DispatchTraceAppend(a, b');
      assert DispatchTrace(a + b) == (DispatchTrace(a) + DispatchTrace(b')) + Step(last);
    }
  }

  lemma {:induction false} InvocationsAppend(s: seq<Effect>, t: seq<Effect>)
    ensures Invocations(s + t) == Invocations(s) + Invocations(t)
    decreases |t|
  {
    if t == [] {
      assert s + t == s;
    } else {
      var t' := t[..|t| - 1];
      assert (s + t)[..|s + t| - 1] == s + t';
      InvocationsAppend(s, t');
    }
  }

  /**
    Every record of the snapshot is invoked exactly once, in registration
    order, whatever the handlers' outcomes: a raising handler never stops
    the pass.
   */
  lemma {:induction false} DispatchInvokesEach(rs: seq<Record>)
    ensures Invocations(DispatchTrace(rs)) == Calls(rs)
    decreases |rs|
  {
    if rs != [] {
      var init := rs[..|rs| - 1];
      var last := rs[|rs| - 1];
      DispatchInvokesEach(init);
      InvocationsAppend(DispatchTrace(init), Step(last));
      StepInvokesOnce(last);
      CallsLast(rs);
    }
  }

  /** A record's turn holds exactly one invocation, of its own handler. */
  lemma StepInvokesOnce(r: Record)
    ensures Invocations(Step(r)) == [Invoked(r.func, r.isAsync)]
  {
    var st := Step(r);
    if |st| == 2 {
      assert st == [st[0]] + [st[1]];
      InvocationsAppend([st[0]], [st[1]]);
      assert Invocations([st[1]]) == [];
    }
  }

  /** The reference invocations of a list are those of all but its last record, then the last's. */
  lemma CallsLast(rs: seq<Record>)
    requires rs != []
    ensures Calls(rs) == Calls(rs[..|rs| - 1]) + [Invoked(rs[|rs| - 1].func, rs[|rs| - 1].isAsync)]
  {
  }

  // ---------------------------------------------------------------------------
  // Repeated raises

  /** A pass reaches every record unless one escapes, and invokes each record it reaches exactly once, in order. */
  lemma CallInvokesReached(reg: ListenerMap, event: string)
    requires event in reg
    ensures ClearBefore(reg[event], |reg[event]|) ==> Reach(reg[event]) == |reg[event]|
    ensures Invocations(CallTrace(reg, event)) == Calls(reg[event][..Reach(reg[event])])
  {
    DispatchInvokesEach(reg[event][..Reach(reg[event])]);
  }

  /** With no escaping handler the pass covers the whole list: every `once` record goes, every record's calls are made. */
  lemma PassWithoutEscape(reg: ListenerMap, event: string)
    requires event in reg && ClearBefore(reg[event], |reg[event]|)
    ensures Fired(reg, event) == reg[event := Survivors(reg[event])]
    ensures CallTrace(reg, event) == DispatchTrace(reg[event])
    ensures Escaping(reg, event) == None
  {
    var rs := reg[event];
    ReachAll(rs);
    assert rs[..|rs|] == rs;
    assert rs[|rs|..] == [];
    assert Survivors(rs[..Reach(rs)]) + rs[Reach(rs)..] == Survivors(rs);
  }

  /**
    Raising an event twice, no handler escaping: the second raise invokes
    exactly the non-once records of the first, and leaves the registry as
    the first left it.
   */
  lemma RaiseTwice(reg: ListenerMap, event: string)
    requires event in reg && ClearBefore(reg[event], |reg[event]|)
    ensures Invocations(CallTrace(Fired(reg, event), event)) == Calls(Survivors(reg[event]))
    ensures Fired(Fired(reg, event), event) == Fired(reg, event)
  {
    var rs := reg[event];
    var kept := Survivors(rs);
    PassWithoutEscape(reg, event);
    forall k | 0 <= k < |kept|
      ensures !Escapes(kept[k])
    {
      SurvivorsMembership(rs, kept[k]);
    }
    PassWithoutEscape(Fired(reg, event), event);
    DispatchInvokesEach(kept);
    SurvivorsIdempotent(rs);
  }

  /** Raising an event with no entry changes nothing and calls nothing. */
  lemma RaiseUnknown(reg: ListenerMap, event: string)
    requires event !in reg
    ensures Fired(reg, event) == reg && CallTrace(reg, event) == []
  {
  }

  /** The reference invocations of two records. */
  lemma CallsPair(x: Record, y: Record)
    ensures Calls([x, y]) == [Invoked(x.func, x.isAsync), Invoked(y.func, y.isAsync)]
  {
  }

  /** The reference invocations of three records. */
  lemma CallsTriple(x: Record, y: Record, z: Record)
    ensures Calls([x, y, z]) == [Invoked(x.func, x.isAsync), Invoked(y.func, y.isAsync), Invoked(z.func, z.isAsync)]
  {
  }

  /** Of a kept, a `once` and a kept record the pass leaves the outer two. */
  lemma SurvivorsOfThree(x: Record, y: Record, z: Record)
    requires !x.once && y.once && !z.once
    ensures Survivors([x, y, z]) == [x, z]
  {
    assert [x][..0] == [];
    assert Survivors([x]) == [x];
    assert [x, y][..1] == [x];
    assert Survivors([x, y]) == [x];
    assert [x, y, z][..2] == [x, y];
  }

  /** Registering [A, B(once), C] and raising twice invokes A, B, C and then A, C. */
  lemma OnceExample(rs: seq<Record>, a: Handler, b: Handler, c: Handler)
    requires rs == [Record(a, false, false, None), Record(b, false, true, None), Record(c, false, false, None)]
    ensures Invocations(DispatchTrace(rs)) == [Invoked(a, false), Invoked(b, false), Invoked(c, false)]
    ensures Survivors(rs) == [rs[0], rs[2]]
    ensures Invocations(DispatchTrace(Survivors(rs))) == [Invoked(a, false), Invoked(c, false)]
  {
    DispatchInvokesEach(rs);
    CallsTriple(rs[0], rs[1], rs[2]);
    assert rs == [rs[0], rs[1], rs[2]];
    SurvivorsOfThree(rs[0], rs[1], rs[2]);
    DispatchInvokesEach([rs[0], rs[2]]);
    CallsPair(rs[0], rs[2]);
  }

  /**
    Registering [A, B(once, escaping), C(once)] for "tick": raising it calls
    A and B and lets B's exception out; B is already deleted, C is neither
    called nor deleted, so a second raise deletes C.
   */
  lemma EscapeExample(reg: ListenerMap, a: Handler, b: Handler, c: Handler)
    requires a.outcome.Returned? && b.outcome == Escaped("KeyboardInterrupt") && c.outcome.Returned?
    requires reg == map["tick" := [Record(a, false, false, None), Record(b, false, true, None), Record(c, false, true, None)]]
    ensures Fired(reg, "tick")["tick"] == [Record(a, false, false, None), Record(c, false, true, None)]
    ensures CallTrace(reg, "tick") == [Invoked(a, false), Invoked(b, false)]
    ensures Escaping(reg, "tick") == Some("KeyboardInterrupt")
    ensures Fired(Fired(reg, "tick"), "tick")["tick"] == [Record(a, false, false, None)]
  {
    var rs := reg["tick"];
    ReachAt(rs, 1);
    assert rs[..2] == [rs[0], rs[1]] && rs[2..] == [rs[2]];
    SurvivorsOfPair(rs[0], rs[1]);
    TraceOfPair(rs[0], rs[1]);
    var after := [rs[0], rs[2]];
    assert Survivors(rs[..Reach(rs)]) + rs[Reach(rs)..] == after;
    assert Fired(reg, "tick") == map["tick" := after];
    ReachAll(after);
    assert after[..2] == after && after[2..] == [];
    SurvivorsOfPair(rs[0], rs[2]);
  }

  /** Of a kept and a `once` record the pass leaves the first. */
  lemma SurvivorsOfPair(x: Record, y: Record)
    requires !x.once && y.once
    ensures Survivors([x, y]) == [x]
  {
    assert [x][..0] == [];
    assert Survivors([x]) == [x];
    assert [x, y][..1] == [x];
  }

  /** Two records whose handlers do not raise an `Exception` make one call each. */
  lemma TraceOfPair(x: Record, y: Record)
    requires !x.func.outcome.Raised? && !y.func.outcome.Raised?
    ensures DispatchTrace([x, y]) == [Invoked(x.func, x.isAsync), Invoked(y.func, y.isAsync)]
  {
    assert [x][..0] == [];
    assert DispatchTrace([x]) == [Invoked(x.func, x.isAsync)];
    assert [x, y][..1] == [x];
  }
}
