/** The public API and the loops of src/fsm.c over mutable records: states
    whose 128-slot tables the builder calls fill in place, the output sink
    handlers write to, and the machine whose cursor `fsm_invoke` drives.
    A state pointer is a `StateId`, the index of the state in the arena of
    states the host allocated; `Invoke` is given that arena. */
module Fsm {
  import opened LibFsm
  import opened EmailMatchers
  import opened Engine

  /** What `snprintf(buf, size, "%s", name)` stores: at most `size - 1`
      characters of the name. */
  function Truncated(name: string, size: nat): (r: string)
    requires size > 0
    ensures |r| < size && r <= name
    ensures |name| < size ==> r == name
  {
    if |name| < size then name else name[..size - 1]
  }

  /** A freshly created state's table: every slot zero-initialised. */
  function EmptyTable(): (t: seq<Entry>)
    ensures |t| == MAX_TRANSITION_TABLE_SIZE && ScanEnd(t) == 0
  {
    seq(MAX_TRANSITION_TABLE_SIZE, _ => FREE)
  }

  /** `state_t`: the name and finality flag never change after creation; the
      transition table is filled in place by the builder calls. */
  class State {
    const name: string
    const isFinal: bool
    const table: array<Entry>

    constructor (name: string, isFinal: bool)
      ensures this.name == Truncated(name, MAX_STATE_NAME_SIZE) && this.isFinal == isFinal
      ensures fresh(table) && table.Length == MAX_TRANSITION_TABLE_SIZE && table[..] == EmptyTable()
    {
      this.name := Truncated(name, MAX_STATE_NAME_SIZE);
      this.isFinal := isFinal;
      table := new Entry[MAX_TRANSITION_TABLE_SIZE](_ => FREE);
    }
  }

  /** `fsm_state_init` (src/fsm.c:176-185): a null name yields no state. */
  method StateInit(name: Option<string>, isFinal: bool) returns (s: State?)
    ensures s == null <==> name.None?
    ensures s != null ==> (fresh(s) && fresh(s.table) && s.isFinal == isFinal
      && s.name == Truncated(name.value, MAX_STATE_NAME_SIZE)
      && s.table.Length == MAX_TRANSITION_TABLE_SIZE && s.table[..] == EmptyTable())
  {
    if name.None? {
      return null;
    }
    s := new State(name.value, isFinal);
  }

  /** `fsm_outbuf_t`, seen through what the handlers did to it: the calls
      made while it was the run's sink, in order. */
  class OutBuf {
    var events: seq<Event>

    constructor ()
      ensures events == []
    {
      events := [];
    }
  }

  /** The arena of allocated states, as the engine reads it. */
  ghost function View(states: seq<State>): (g: seq<StateView>)
    reads set i | 0 <= i < |states| :: states[i].table
    ensures |g| == |states|
    ensures forall i :: 0 <= i < |states| ==> g[i] == StateView(states[i].isFinal, states[i].table[..])
  {
    seq(|states|, i requires 0 <= i < |states| reads if 0 <= i < |states| then {states[i].table} else {} =>
      StateView(states[i].isFinal, states[i].table[..]))
  }

  /** The view of an arena is fixed by each state's flag and table contents. */
  lemma ViewOf(states: seq<State>, g: seq<StateView>)
    requires |states| == |g|
    requires forall i :: 0 <= i < |g| ==> states[i].isFinal == g[i].isFinal && states[i].table[..] == g[i].table
    ensures View(states) == g
  {
  }

  /** Every state pointer stored in the arena's tables points into the arena. */
  ghost predicate Arena(states: seq<State>)
    reads set i | 0 <= i < |states| :: states[i].table
  {
    WellFormed(View(states))
  }

  /** `__get_next_avail_entry` (src/fsm.c:24-36). */
  method GetNextAvailEntry(t: array<Entry>) returns (slot: Option<nat>)
    requires t.Length == MAX_TRANSITION_TABLE_SIZE
    ensures slot == FirstFree(t[..])
  {
    var idx := 0;
    while idx < MAX_TRANSITION_TABLE_SIZE
      invariant 0 <= idx <= MAX_TRANSITION_TABLE_SIZE
      invariant FirstFreeFrom(t[..], idx) == FirstFree(t[..])
    {
      if t[idx].next.None? {
        return Some(idx);
      }
      idx := idx + 1;
    }
    return None;
  }

  /** The slot after `fsm_add_entry` wrote it: key, key size, next state and
      handler are set; the predicate slots are left as they were. */
  function Filled(e: Entry, key: Key, next: Option<StateId>, handler: Option<HandlerId>): (r: Entry)
    ensures r.key == key && r.next == next && r.handler == handler
    ensures r.matchers == e.matchers
  {
    e.(key := key, next := next, handler := handler)
  }

  /** `fsm_add_entry` (src/fsm.c:213-237): fails, changing nothing, when the
      key is longer than `MAX_TRANSITION_KEY_SIZE` or the table is full;
      otherwise writes the first free slot and no other. */
  method AddEntry(t: array<Entry>, key: seq<byte>, next: Option<StateId>, handler: Option<HandlerId>)
    returns (ok: bool)
    requires t.Length == MAX_TRANSITION_TABLE_SIZE
    modifies t
    ensures ok <==> |key| <= MAX_TRANSITION_KEY_SIZE && FirstFree(old(t[..])).Some?
    ensures ok ==> var k := FirstFree(old(t[..])).value;
      t[..] == old(t[..])[k := Filled(old(t[k]), key, next, handler)]
    ensures !ok ==> t[..] == old(t[..])
    ensures OccupiedPrefix(old(t[..])) ==> OccupiedPrefix(t[..])
  {
    if |key| > MAX_TRANSITION_KEY_SIZE {
      return false;
    }
    var slot := GetNextAvailEntry(t);
    if slot.None? {
      return false;
    }
    if OccupiedPrefix(t[..]) {
      FillFirstFreeKeepsPrefix(t[..], Filled(t[slot.value], key, next, handler));
    }
    t[slot.value] := Filled(t[slot.value], key, next, handler);
    ok := true;
  }

  /** `fsm_register_entry_comparator` (src/fsm.c:140-146) on the entry in
      slot `idx`: the first empty predicate slot receives the matcher and
      nothing else changes; when all slots are full it silently does nothing. */
  method RegisterEntryComparator(t: array<Entry>, idx: nat, m: Matcher)
    requires idx < t.Length
    modifies t
    ensures t[..] == old(t[..])[idx := old(t[idx]).(matchers := Registered(old(t[idx].matchers), m))]
    ensures OccupiedPrefix(old(t[..])) ==> OccupiedPrefix(t[..])
  {
    var i := 0;
    while i < MAX_ENTRY_CALLBACKS
      invariant 0 <= i <= MAX_ENTRY_CALLBACKS
      invariant FirstEmptySlotFrom(t[idx].matchers, i) == FirstEmptySlotFrom(t[idx].matchers, 0)
      invariant t[..] == old(t[..])
    {
      if t[idx].matchers[i].Some? {
        i := i + 1;
        continue;
      }
      t[idx] := t[idx].(matchers := t[idx].matchers[i := Some(m)]);
      return;
    }
  }

  /** The wildcard builder the email validator calls: an empty-key entry from
      `from` to `to` in the first free slot, with `m` registered on it. */
  method AddWildcardEntry(from: State, to: StateId, handler: Option<HandlerId>, m: Matcher) returns (ok: bool)
    requires from.table.Length == MAX_TRANSITION_TABLE_SIZE
    modifies from.table
    ensures ok <==> FirstFree(old(from.table[..])).Some?
    ensures ok ==> var k := FirstFree(old(from.table[..])).value;
      from.table[..] == old(from.table[..])[k := old(from.table[k]).(key := [], next := Some(to), handler := handler,
                                                                     matchers := Registered(old(from.table[k].matchers), m))]
    ensures !ok ==> from.table[..] == old(from.table[..])
  {
    var slot := GetNextAvailEntry(from.table);
    ok := AddEntry(from.table, [], Some(to), handler);
    if ok {
      RegisterEntryComparator(from.table, slot.value, m);
    }
  }

  /** `__entry_comparator` over one entry (src/fsm.c:54-94): the predicate
      loop when slot 0 is set, the literal comparator otherwise, for the
      non-null input `fsm_invoke` always passes. */
  method EntryComparator(e: Entry, data: seq<byte>, n0: nat) returns (ok: bool, n: nat)
    ensures Verdict(ok, n) == EntryVerdict(e, data, n0)
  {
    n := n0;
    if e.matchers[0].Some? {
      var i := 0;
      while i < MAX_ENTRY_CALLBACKS
        invariant 0 <= i <= MAX_ENTRY_CALLBACKS
        invariant i > 0 ==> n == 0
        invariant PredicateScan(e.matchers, i, data, n) == PredicateScan(e.matchers, 0, data, n0)
      {
        if e.matchers[i].None? {
          return false, n;
        }
        var v := Match(e.matchers[i].value, data, n);
        if v.accepted {
          return true, v.bytesRead;
        }
        n := 0;
        i := i + 1;
      }
      return false, n;
    }
    var v := InputComparator(e.key, data, n);
    ok, n := v.accepted, v.bytesRead;
    if ok {
      n := |e.key|;
    }
  }

  /** `__apply_transition` (src/fsm.c:96-129): scans the table of `s` in
      insertion order; the first entry passing the size guard and its
      comparator gives the next state, and only its handler runs, once. */
  method ApplyTransition(s: State, from: StateId, data: seq<byte>, n0: nat, out: OutBuf)
    returns (next: Option<StateId>, n: nat)
    requires s.table.Length == MAX_TRANSITION_TABLE_SIZE
    modifies out
    ensures var r := SelectFrom(s.table[..], 0, data, n0);
      && (r.NoMatch? ==> next.None? && out.events == old(out.events))
      && (r.Selected? ==> next == s.table[r.index].next && n == r.bytesRead
                          && out.events == old(out.events) + Fired(from, s.table[r.index], data))
  {
    var idx := 0;
    n := n0;
    while idx < MAX_TRANSITION_TABLE_SIZE
      invariant 0 <= idx <= MAX_TRANSITION_TABLE_SIZE
      invariant SelectFrom(s.table[..], idx, data, n) == SelectFrom(s.table[..], 0, data, n0)
      invariant out.events == old(out.events)
    {
      var e := s.table[idx];
      if e.next.None? {
        break;
      }
      if |e.key| <= |data| {
        var ok, n' := EntryComparator(e, data, n);
        if ok {
          next, n := e.next, n';
          if e.handler.Some? {
            out.events := out.events + [Event(e.handler.value, from, e.next.value, data, |e.key|)];
          }
          return;
        }
        n := n';
      }
      idx := idx + 1;
    }
    next := None;
  }

  /** One turn of the loop of `fsm_invoke` (src/fsm.c:275-297): the
      transition from `current` at `cursor`, related to how `Engine.Run`
      continues from there; `ev` is what the handlers appended to the sink. */
  method Step(ghost g: seq<StateView>, states: seq<State>, current: StateId, parse: seq<byte>, cursor: nat, sink: OutBuf)
    returns (next: Option<StateId>, n: nat, ghost ev: seq<Event>)
    requires g == View(states) && WellFormed(g)
    requires current < |states| && cursor <= |parse| && cursor < MAX_INBUF_SIZE
    modifies sink
    ensures sink.events == old(sink.events) + ev
    ensures next.None? ==> Run(g, current, parse, cursor) == RunOutcome(FailedTransition, current, cursor, ev)
    ensures next.Some? ==> next.value < |g| && cursor + n <= |parse|
    ensures next.Some? && n == 0 ==> Run(g, current, parse, cursor) == RunOutcome(FsmSuccess, current, cursor, ev)
    ensures next.Some? && n > 0 && cursor + n == |parse| ==>
      Run(g, current, parse, cursor) == RunOutcome(FsmSuccess, next.value, cursor + n, ev)
    ensures next.Some? && n > 0 && cursor + n < |parse| ==>
      Run(g, current, parse, cursor) == Prepend(ev, Run(g, next.value, parse, cursor + n))
  {
    assert g[current].table == states[current].table[..];
    ghost var before := sink.events;
    next, n := ApplyTransition(states[current], current, parse[cursor..], 0, sink);
    ev := sink.events[|before|..];
    assert sink.events == before + ev;
    ghost var sel := Select(g[current].table, parse[cursor..]);
    if sel.NoMatch? {
      RunNoMatch(g, current, parse, cursor);
    } else {
      RunSelected(g, current, parse, cursor, sel.index, n);
      if n == 0 {
        RunZeroByte(g, current, parse, cursor, sel.index);
      } else if cursor + n == |parse| {
        RunMovesLast(g, current, parse, cursor, sel.index, n);
      } else {
        RunMovesOn(g, current, parse, cursor, sel.index, n);
      }
    }
  }

  /** The loop of `fsm_invoke` (src/fsm.c:275-297) from `start` with the
      cursor at 0 and the sink's output empty: its stop and its output are
      those `Engine.Run` gives. */
  method Drive(ghost g: seq<StateView>, states: seq<State>, start: StateId, parse: seq<byte>, sink: OutBuf)
    returns (err: FsmError, current: StateId, cursor: nat)
    requires g == View(states) && WellFormed(g) && start < |states|
    requires sink.events == []
    modifies sink
    ensures var r := Run(g, start, parse, 0);
      err == r.error && current == r.state && cursor == r.cursor && sink.events == r.events
  {
    ghost var total := Run(g, start, parse, 0);
    current, cursor := start, 0;
    while cursor < MAX_INBUF_SIZE
      invariant current < |states| && cursor <= |parse|
      invariant View(states) == g
      invariant total == Prepend(sink.events, Run(g, current, parse, cursor))
      decreases MAX_INBUF_SIZE - cursor
    {
      ghost var before := sink.events;
      var next, n, ev := Step(g, states, current, parse, cursor, sink);
      if next.None? {
        return FailedTransition, current, cursor;
      }
      if n > 0 {
        if cursor + n < |parse| {
          ghost var rest := Run(g, next.value, parse, cursor + n);
          PrependTwice(before, ev, rest);
        }
        cursor := cursor + n;
        current := next.value;
        if cursor == |parse| {
          break;
        }
        continue;
      }
      break;
    }
    err := FsmSuccess;
  }

  /** `fsm_t`. `inbuf`/`inbufSize` are the internal input the host may fill
      directly; `outbuf` is the internal output sink. The machine's literal
      matcher is always `__input_comparator` (Engine.InputComparator). */
  class Machine {
    var name: string
    var initial: Option<StateId>
    const inbuf: array<byte>
    var inbufSize: nat
    var cursor: nat
    const outbuf: OutBuf

    ghost predicate Valid()
      reads this
    {
      inbuf.Length == MAX_INBUF_SIZE && inbufSize <= MAX_INBUF_SIZE
    }

    /** A zero-initialised machine with the given (truncated) name. */
    constructor (name: string)
      ensures Valid() && fresh(inbuf) && fresh(outbuf)
      ensures this.name == Truncated(name, MAX_FSM_NAME_SIZE)
      ensures initial.None? && inbufSize == 0 && cursor == 0 && outbuf.events == []
    {
      this.name := Truncated(name, MAX_FSM_NAME_SIZE);
      initial := None;
      inbuf := new byte[MAX_INBUF_SIZE];
      inbufSize := 0;
      cursor := 0;
      outbuf := new OutBuf();
    }

    /** `fsm_set_initial_state` (src/fsm.c:196-201): succeeds only while no
      initial state is set; a later call returns false and changes nothing.
      A null `state` (`None`) is stored as given, so the machine still has no
      initial state and a later call succeeds again. */
    method SetInitialState(s: Option<StateId>) returns (ok: bool)
      modifies this`initial
      ensures ok <==> old(initial).None?
      ensures initial == if ok then s else old(initial)
    {
      if initial.Some? {
        return false;
      }
      initial := s;
      ok := true;
    }

    /** The bytes a run parses (src/fsm.c:261-267): the caller's input when it
        is non-null and non-empty, otherwise the internal buffer. */
    ghost function ParseBuffer(input: seq<byte>): (p: seq<byte>)
      reads this, inbuf
      requires Valid()
      ensures |input| > 0 ==> p == input
      ensures |input| == 0 ==> |p| == inbufSize <= MAX_INBUF_SIZE && p == inbuf[..inbufSize]
    {
      if |input| > 0 then input else inbuf[..inbufSize]
    }

    /** `fsm_invoke` (src/fsm.c:239-306). Without an initial state it returns
        `InvalidInputs` before touching cursor, result or output. Otherwise it
        clears the sink (the caller's, or the internal one when `out` is null),
        resets the cursor, and runs the loop that `Engine.Run` specifies;
        `result` is the value written to `*fsm_result` (`None`: not written). */
    method Invoke(states: seq<State>, input: seq<byte>, out: OutBuf?) returns (err: FsmError, result: Option<bool>)
      requires Valid() && Arena(states)
      requires initial.Some? ==> initial.value < |states|
      modifies this`cursor, outbuf, out
      ensures initial.None? ==> (err == InvalidInputs && result.None? && cursor == old(cursor)
        && unchanged(outbuf) && (out != null ==> unchanged(out)))
      ensures initial.Some? ==>
        var g := old(View(states));
        var r := Run(g, initial.value, old(ParseBuffer(input)), 0);
        && err == r.error && cursor == r.cursor
        && result == Some(RunResult(g, r))
        && (if out == null then outbuf else out).events == r.events
      ensures out != null && out != outbuf ==> unchanged(outbuf)
    {
      if initial.None? {
        return InvalidInputs, None;
      }
      ghost var g := View(states);
      var parse := if |input| > 0 then input else inbuf[..inbufSize];
      assert parse == ParseBuffer(input);
      cursor := 0;
      result := Some(false);
      var sink := if out == null then outbuf else out;
      sink.events := [];
      var current;
      err, current, cursor := Drive(g, states, initial.value, parse, sink);
      if err == FailedTransition {
        return;
      }
      assert g[current].isFinal == states[current].isFinal;
      result := Some(states[current].isFinal);
    }
  }

  /** `fsm_init` (src/fsm.c:156-165): a name longer than `MAX_FSM_NAME_SIZE`
      yields no machine. */
  method FsmInit(name: string) returns (fsm: Machine?)
    ensures fsm == null <==> |name| > MAX_FSM_NAME_SIZE
    ensures fsm != null ==> (fresh(fsm) && fresh(fsm.inbuf) && fresh(fsm.outbuf) && fsm.Valid() && fsm.initial.None?
      && fsm.name == Truncated(name, MAX_FSM_NAME_SIZE) && fsm.cursor == 0 && fsm.inbufSize == 0
      && fsm.outbuf.events == [])
  {
    if |name| > MAX_FSM_NAME_SIZE {
      return null;
    }
    fsm := new Machine(name);
  }
}
