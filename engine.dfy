/** The decisions of src/fsm.c as pure functions: the default literal
    comparator, the per-entry comparator, the table scan of
    `__apply_transition` and the cursor loop of `fsm_invoke`. The methods of
    module Fsm run the same loops over the mutable tables and are proved equal
    to these functions. `n` is the value of the caller's `n_bytes_read` on
    entry; every function returns the value it leaves there. */
module Engine {
  import opened LibFsm
  import opened EmailMatchers

  /** `__input_comparator`: the machine's default literal matcher (src/fsm.c:38-52).
      Within the data it accepts exactly when the key is a prefix of the
      data, reporting the key's length, and a rejection leaves the count; a
      zero-length key always matches and reads nothing; a key longer than the
      data is "accepted" with 0 bytes. */
  function InputComparator(key: seq<byte>, data: seq<byte>, n: nat): (v: Verdict)
    ensures |key| <= |data| ==> (v.accepted <==> data[..|key|] == key)
    ensures |key| <= |data| && v.accepted ==> v.bytesRead == |key|
    ensures |key| <= |data| && !v.accepted ==> v.bytesRead == n
    ensures key == [] ==> v == Verdict(true, 0)
    ensures |key| > |data| ==> v == Verdict(true, 0)
  {
    if |key| <= |data| then
      if key != data[..|key|] then Verdict(false, n) else Verdict(true, |key|)
    else
      Verdict(true, 0)
  }

  /** The predicate loop of `__entry_comparator` from slot `i` (src/fsm.c:72-80):
      a null slot ends it with a rejection, the first accepting predicate
      wins, and `n_bytes_read` is reset to 0 after each rejection. */
  function PredicateScan(ms: MatcherSlots, i: nat, data: seq<byte>, n: nat): (v: Verdict)
    decreases MAX_ENTRY_CALLBACKS - i
    ensures v.accepted ==> v.bytesRead == 1 <= |data|
  {
    if i >= MAX_ENTRY_CALLBACKS then Verdict(false, n)
    else match ms[i]
      case None => Verdict(false, n)
      case Some(m) =>
        var v := Match(m, data, n);
        if v.accepted then v else PredicateScan(ms, i + 1, data, 0)
  }

  /** Slot `i` holds a predicate and so do all slots before it: the loop
      reaches it. */
  ghost predicate Reached(ms: MatcherSlots, i: int)
  {
    0 <= i < MAX_ENTRY_CALLBACKS && forall j :: 0 <= j <= i ==> ms[j].Some?
  }

  ghost predicate PredicateAccepts(ms: MatcherSlots, i: int, data: seq<byte>)
    requires 0 <= i < MAX_ENTRY_CALLBACKS && ms[i].Some?
  {
    Match(ms[i].value, data, 0).accepted
  }

  /** Once slot `i` is reached, predicates are tried in slot order up to the
      first empty slot; the first one that accepts decides the verdict and
      the byte count; if none accepts, the entry rejects with 0 bytes read. */
  lemma {:induction false} FirstAcceptingPredicateWins(ms: MatcherSlots, i: nat, data: seq<byte>, n: nat)
    requires i < MAX_ENTRY_CALLBACKS && ms[i].Some?
    requires forall j :: 0 <= j < i ==> ms[j].Some?
    ensures var v := PredicateScan(ms, i, data, n);
      v.accepted ==> (exists k :: (i <= k && Reached(ms, k) && PredicateAccepts(ms, k, data)
                                   && v == Match(ms[k].value, data, 0)
                                   && forall j :: i <= j < k ==> !PredicateAccepts(ms, j, data)))
    ensures var v := PredicateScan(ms, i, data, n);
      !v.accepted ==> (v.bytesRead == 0
                       && forall k :: i <= k && Reached(ms, k) ==> !PredicateAccepts(ms, k, data))
    decreases MAX_ENTRY_CALLBACKS - i
  {
    var m := ms[i].value;
    MatchContract(m, data, n);
    assert Reached(ms, i);
    var v := Match(m, data, n);
    if v.accepted {
    } else if i + 1 < MAX_ENTRY_CALLBACKS && ms[i + 1].Some? {
      FirstAcceptingPredicateWins(ms, i + 1, data, 0);
      var w := PredicateScan(ms, i + 1, data, 0);
      if w.accepted {
        var k :| i + 1 <= k && Reached(ms, k) && PredicateAccepts(ms, k, data)
          && w == Match(ms[k].value, data, 0)
          && forall j :: i + 1 <= j < k ==> !PredicateAccepts(ms, j, data);
        assert forall j :: i <= j < k ==> !PredicateAccepts(ms, j, data);
      }
    } else {
      forall k | i <= k && Reached(ms, k) ensures k == i {
      }
    }
  }

  /** `__entry_comparator` for a non-null input (src/fsm.c:61-93): an entry
      whose first predicate slot is set is decided by its predicates alone
      and its key is ignored; otherwise the literal comparator decides and an
      accepted entry reports its key size. */
  function EntryVerdict(e: Entry, data: seq<byte>, n: nat): (v: Verdict)
    ensures v.accepted && |e.key| <= |data| ==> v.bytesRead <= |data|
  {
    if e.matchers[0].Some? then PredicateScan(e.matchers, 0, data, n)
    else
      var v := InputComparator(e.key, data, n);
      if v.accepted then Verdict(true, |e.key|) else v
  }

  /** A rejected entry leaves `n_bytes_read` at 0 when it started at 0, so
      every entry of a scan is compared with a zero count. */
  lemma {:induction false} RejectionKeepsZero(e: Entry, data: seq<byte>)
    ensures !EntryVerdict(e, data, 0).accepted ==> EntryVerdict(e, data, 0).bytesRead == 0
  {
    if e.matchers[0].Some? {
      FirstAcceptingPredicateWins(e.matchers, 0, data, 0);
    }
  }

  /** Without the size guard of the scan, a literal entry whose key is longer
      than the unparsed input would be accepted and report more bytes than
      remain (the comparator's `TRUE` with 0 bytes, overwritten by the key
      size at src/fsm.c:90). */
  lemma OverlongLiteralWouldOverrun(e: Entry, data: seq<byte>, n: nat)
    requires e.matchers[0].None? && |e.key| > |data|
    ensures EntryVerdict(e, data, n) == Verdict(true, |e.key|)
    ensures EntryVerdict(e, data, n).bytesRead > |data|
  {
  }

  /** An entry matches when it passes the size guard and its comparator
      (src/fsm.c:108-109). */
  ghost predicate Accepts(e: Entry, data: seq<byte>): (b: bool)
    ensures b ==> EntryVerdict(e, data, 0).bytesRead <= |data|
  {
    |e.key| <= |data| && EntryVerdict(e, data, 0).accepted
  }

  /** A literal entry (no predicate registered) matches exactly the data that
      starts with its key, and reads the key's length; data shorter than the
      key never matches. */
  lemma LiteralEntryExact(e: Entry, data: seq<byte>)
    requires e.matchers[0].None?
    ensures Accepts(e, data) <==> |e.key| <= |data| && data[..|e.key|] == e.key
    ensures Accepts(e, data) ==> EntryVerdict(e, data, 0).bytesRead == |e.key|
  {
  }

  /** A predicate entry matches when its key length fits the data and its
      predicates accept; the key's bytes play no part, but its length does. */
  lemma PredicateEntryAccepts(e: Entry, data: seq<byte>)
    requires e.matchers[0].Some?
    ensures Accepts(e, data) <==> |e.key| <= |data| && PredicateScan(e.matchers, 0, data, 0).accepted
    ensures Accepts(e, data) ==> EntryVerdict(e, data, 0).bytesRead == 1
  {
  }

  /** `__get_next_avail_entry` from slot `i` (src/fsm.c:24-36): the first slot
      whose next state is null, or `None` when every slot is occupied. */
  function FirstFreeFrom(t: seq<Entry>, i: nat): (r: Option<nat>)
    decreases |t| - i
    ensures r.Some? ==> (i <= r.value < |t| && t[r.value].next.None?
                         && forall j :: i <= j < r.value ==> t[j].next.Some?)
    ensures r.None? ==> forall j :: i <= j < |t| ==> t[j].next.Some?
  {
    if i >= |t| then None
    else if t[i].next.None? then Some(i)
    else FirstFreeFrom(t, i + 1)
  }

  /** The first free slot of the table, as `__get_next_avail_entry` finds it. */
  function FirstFree(t: seq<Entry>): (r: Option<nat>)
    ensures r.Some? ==> (r.value < |t| && t[r.value].next.None? && forall j :: 0 <= j < r.value ==> t[j].next.Some?)
    ensures r.None? ==> forall j :: 0 <= j < |t| ==> t[j].next.Some?
  {
    FirstFreeFrom(t, 0)
  }

  /** Where every table scan stops: the first free slot, or the table's end. */
  function ScanEnd(t: seq<Entry>): (k: nat)
    ensures k <= |t| && (forall j :: 0 <= j < k ==> t[j].next.Some?)
    ensures k < |t| ==> t[k].next.None?
  {
    match FirstFree(t)
    case Some(k) => k
    case None => |t|
  }

  /** Occupied slots (non-null next state) form a prefix of the table. */
  ghost predicate OccupiedPrefix(t: seq<Entry>)
  {
    forall i, j :: 0 <= i < j < |t| && t[j].next.Some? ==> t[i].next.Some?
  }

  lemma ScanEndCountsOccupied(t: seq<Entry>)
    requires OccupiedPrefix(t)
    ensures forall j :: 0 <= j < |t| ==> (t[j].next.Some? <==> j < ScanEnd(t))
  {
  }

  /** Writing the first free slot keeps the occupied slots a prefix; when the
      new entry has a next state it becomes the last slot scanned, and the
      slots before it are untouched. */
  lemma {:induction false} FillFirstFreeKeepsPrefix(t: seq<Entry>, e: Entry)
    requires OccupiedPrefix(t) && FirstFree(t).Some?
    ensures var t' := t[FirstFree(t).value := e];
      OccupiedPrefix(t')
      && t'[..FirstFree(t).value] == t[..FirstFree(t).value]
      && (e.next.Some? ==> ScanEnd(t') == FirstFree(t).value + 1)
      && (e.next.None? ==> ScanEnd(t') == FirstFree(t).value)
  {
    var k := FirstFree(t).value;
    var t' := t[k := e];
    ScanEndCountsOccupied(t);
    assert forall j :: k < j < |t| ==> t[j].next.None?;
    assert OccupiedPrefix(t');
    ScanEndCountsOccupied(t');
    var s := ScanEnd(t');
    if e.next.Some? {
      assert t'[k].next.Some?;
      assert s > k;
      assert k + 1 < |t'| ==> t'[k + 1].next.None?;
    } else {
      assert t'[k].next.None?;
    }
  }

  /** Which entry the table scan picks, and the bytes it reports. */
  datatype Selection = NoMatch | Selected(index: nat, bytesRead: nat)

  /** The scan of `__apply_transition` from slot `i` (src/fsm.c:107-128), with
      the scan's upper bound `MAX_TRANSITION_TABLE_SIZE` given by the table's
      length. */
  function SelectFrom(t: seq<Entry>, i: nat, data: seq<byte>, n: nat): (r: Selection)
    decreases |t| - i
    ensures r.Selected? ==> i <= r.index < |t| && t[r.index].next.Some? && r.bytesRead <= |data|
  {
    if i >= |t| || t[i].next.None? then NoMatch
    else if |t[i].key| <= |data| then
      var v := EntryVerdict(t[i], data, n);
      if v.accepted then Selected(i, v.bytesRead) else SelectFrom(t, i + 1, data, v.bytesRead)
    else
      SelectFrom(t, i + 1, data, n)
  }

  /** The scan as `fsm_invoke` starts it, with `n_bytes_read` reset to 0. */
  function Select(t: seq<Entry>, data: seq<byte>): (r: Selection)
    ensures r.Selected? ==> r.index < |t| && t[r.index].next.Some? && r.bytesRead <= |data|
  {
    SelectFrom(t, 0, data, 0)
  }

  /** First match wins: the scan picks the earliest slot before the first free
      one that matches, with that entry's byte count; it reports no match
      exactly when no such slot matches. */
  lemma {:induction false} SelectFromFirstMatch(t: seq<Entry>, i: nat, data: seq<byte>)
    requires i <= ScanEnd(t)
    ensures var r := SelectFrom(t, i, data, 0);
      r.Selected? ==> (i <= r.index < ScanEnd(t) && Accepts(t[r.index], data)
                       && r.bytesRead == EntryVerdict(t[r.index], data, 0).bytesRead
                       && forall j :: i <= j < r.index ==> !Accepts(t[j], data))
    ensures SelectFrom(t, i, data, 0).NoMatch? <==>
      forall j :: i <= j < ScanEnd(t) ==> !Accepts(t[j], data)
    decreases ScanEnd(t) - i
  {
    if i < ScanEnd(t) {
      assert t[i].next.Some?;
      RejectionKeepsZero(t[i], data);
      SelectFromFirstMatch(t, i + 1, data);
    } else if i < |t| {
      assert t[i].next.None?;
    }
  }

  lemma SelectFirstMatch(t: seq<Entry>, data: seq<byte>)
    ensures var r := Select(t, data);
      r.Selected? ==> (r.index < ScanEnd(t) && Accepts(t[r.index], data)
                       && r.bytesRead == EntryVerdict(t[r.index], data, 0).bytesRead
                       && forall j :: 0 <= j < r.index ==> !Accepts(t[j], data))
    ensures Select(t, data).NoMatch? <==> forall j :: 0 <= j < ScanEnd(t) ==> !Accepts(t[j], data)
  {
    SelectFromFirstMatch(t, 0, data);
  }

  /** Insertion order is evaluation order: an entry added to the first free
      slot is tried only after every earlier entry has rejected. */
  lemma {:induction false} AddedEntryIsTriedLast(t: seq<Entry>, e: Entry, data: seq<byte>)
    requires OccupiedPrefix(t) && FirstFree(t).Some? && e.next.Some?
    ensures var k := FirstFree(t).value;
      Select(t[k := e], data) ==
        if Select(t, data).Selected? then Select(t, data)
        else if Accepts(e, data) then Selected(k, EntryVerdict(e, data, 0).bytesRead)
        else NoMatch
  {
    var k := FirstFree(t).value;
    var t' := t[k := e];
    FillFirstFreeKeepsPrefix(t, e);
    assert ScanEnd(t) == k;
    SelectFirstMatch(t, data);
    SelectFirstMatch(t', data);
    assert forall j :: 0 <= j < k ==> t'[j] == t[j];
    var r, r' := Select(t, data), Select(t', data);
    if r.Selected? {
      assert Accepts(t'[r.index], data);
      assert forall j :: 0 <= j < r.index ==> !Accepts(t'[j], data);
    } else if Accepts(e, data) {
      assert Accepts(t'[k], data);
      assert forall j :: 0 <= j < k ==> !Accepts(t'[j], data);
    } else {
      assert forall j :: 0 <= j < k + 1 ==> !Accepts(t'[j], data);
    }
  }

  /** `fsm_register_entry_comparator`'s choice of slot (src/fsm.c:141-145). */
  function FirstEmptySlotFrom(ms: MatcherSlots, i: nat): (r: Option<nat>)
    decreases MAX_ENTRY_CALLBACKS - i
    ensures r.Some? ==> (i <= r.value < MAX_ENTRY_CALLBACKS && ms[r.value].None?
                         && forall j :: i <= j < r.value ==> ms[j].Some?)
    ensures r.None? ==> forall j :: i <= j < MAX_ENTRY_CALLBACKS ==> ms[j].Some?
  {
    if i >= MAX_ENTRY_CALLBACKS then None
    else if ms[i].None? then Some(i)
    else FirstEmptySlotFrom(ms, i + 1)
  }

  /** The slots after registering `m`: the first empty slot receives it; when
      all slots are full nothing changes. */
  function Registered(ms: MatcherSlots, m: Matcher): (r: MatcherSlots)
    ensures forall j :: 0 <= j < MAX_ENTRY_CALLBACKS && ms[j].Some? ==> r[j] == ms[j]
    ensures FirstEmptySlotFrom(ms, 0).None? ==> r == ms
    ensures FirstEmptySlotFrom(ms, 0).Some? ==>
      var k := FirstEmptySlotFrom(ms, 0).value;
      r[k] == Some(m) && forall j :: 0 <= j < MAX_ENTRY_CALLBACKS && j != k ==> r[j] == ms[j]
  {
    match FirstEmptySlotFrom(ms, 0)
    case Some(i) => ms[i := Some(m)]
    case None => ms
  }

  /** Registered predicates form a prefix of the slots. */
  ghost predicate SlotPrefix(ms: MatcherSlots)
  {
    forall i, j :: 0 <= i < j < MAX_ENTRY_CALLBACKS && ms[j].Some? ==> ms[i].Some?
  }

  /** Registering a predicate on an entry whose predicates form a prefix keeps
      them a prefix and makes the new predicate the last one tried: the entry
      now accepts what its earlier predicates accept, and otherwise what `m`
      accepts. On an entry with no predicate yet this switches the entry to
      predicate mode: the key's bytes no longer matter to the comparator,
      while its length still gates the scan (`PredicateEntryAccepts`) and is
      what the handler is given. */
  lemma {:induction false} RegisteredPredicateTriedLast(e: Entry, m: Matcher, data: seq<byte>)
    requires SlotPrefix(e.matchers) && FirstEmptySlotFrom(e.matchers, 0).Some?
    ensures SlotPrefix(Registered(e.matchers, m))
    ensures EntryVerdict(e.(matchers := Registered(e.matchers, m)), data, 0) ==
      if e.matchers[0].Some? && EntryVerdict(e, data, 0).accepted then EntryVerdict(e, data, 0)
      else Match(m, data, 0)
  {
    var ms := e.matchers;
    var k := FirstEmptySlotFrom(ms, 0).value;
    var ms' := Registered(ms, m);
    assert ms' == ms[k := Some(m)];
    assert forall j :: k < j < MAX_ENTRY_CALLBACKS ==> ms[j].None?;
    assert SlotPrefix(ms');
    MatchContract(m, data, 0);
    if k == 0 {
      assert ms'[0] == Some(m);
      assert ms'[1].None? || 1 >= MAX_ENTRY_CALLBACKS;
    } else {
      PredicateScanPrefix(ms, ms', k, 0, data, 0);
    }
  }

  /** Two slot lists that agree before slot `k`, where `ms` is empty at `k` and
      `ms'` holds `m`, scan alike until the slot: `ms'` then tries `m`. */
  lemma {:induction false} PredicateScanPrefix(ms: MatcherSlots, ms': MatcherSlots, k: nat, i: nat, data: seq<byte>, n: nat)
    requires i <= k < MAX_ENTRY_CALLBACKS && ms[k].None? && ms'[k].Some?
    requires forall j :: 0 <= j < k ==> ms[j].Some? && ms'[j] == ms[j]
    requires k + 1 < MAX_ENTRY_CALLBACKS ==> ms'[k + 1].None?
    requires i > 0 ==> n == 0
    ensures PredicateScan(ms', i, data, n) ==
      if PredicateScan(ms, i, data, n).accepted then PredicateScan(ms, i, data, n)
      else Match(ms'[k].value, data, 0)
    decreases k - i
  {
    if i == k {
      MatchContract(ms'[k].value, data, n);
    } else {
      var v := Match(ms[i].value, data, n);
      if !v.accepted {
        PredicateScanPrefix(ms, ms', k, i + 1, data, 0);
      }
    }
  }

  /** One state as the engine reads it: its finality flag and the contents of
      its transition table. Indices into a `seq<StateView>` are `StateId`s. */
  datatype StateView = StateView(isFinal: bool, table: seq<Entry>)

  /** Every state has a full-size table and every next-state pointer refers to
      a state of the arena. */
  ghost predicate WellFormed(g: seq<StateView>)
  {
    forall s :: 0 <= s < |g| ==>
      |g[s].table| == MAX_TRANSITION_TABLE_SIZE
      && forall i :: 0 <= i < |g[s].table| && g[s].table[i].next.Some? ==> g[s].table[i].next.value < |g|
  }

  /** The handler call a matched entry makes (src/fsm.c:113-121), if it has one. */
  function Fired(from: StateId, e: Entry, data: seq<byte>): (evs: seq<Event>)
    requires e.next.Some?
    ensures |evs| <= 1 && (evs == [] <==> e.handler.None?)
    ensures forall ev :: ev in evs ==>
      ev.handler == e.handler.value && ev.from == from && ev.to == e.next.value && ev.input == data && ev.keySize == |e.key|
  {
    if e.handler.Some? then [Event(e.handler.value, from, e.next.value, data, |e.key|)] else []
  }

  /** Where a run stopped and what it produced: the error code, the current
      state and cursor at the stop, and the handler calls in order. */
  datatype RunOutcome = RunOutcome(error: FsmError, state: StateId, cursor: nat, events: seq<Event>)

  /** A run outcome with `evs` emitted before it. */
  function Prepend(evs: seq<Event>, r: RunOutcome): (r': RunOutcome)
    ensures r'.error == r.error && r'.state == r.state && r'.cursor == r.cursor && r'.events == evs + r.events
  {
    r.(events := evs + r.events)
  }

  lemma PrependTwice(a: seq<Event>, b: seq<Event>, r: RunOutcome)
    ensures Prepend(a, Prepend(b, r)) == Prepend(a + b, r)
  {
    assert a + (b + r.events) == (a + b) + r.events;
  }

  /** The loop of `fsm_invoke` (src/fsm.c:275-297) from state `cur` with the
      cursor at `cursor`: no match fails the run where it stands; a zero-byte
      match ends the run without moving; otherwise the cursor advances and the
      state moves, ending the run when the cursor reaches the input size; the
      loop stops once the cursor reaches `MAX_INBUF_SIZE`. The cursor only
      moves forward and never passes the input size; the run ends in a state
      of the arena, and never with `InvalidInputs`; a run that starts with
      input left and fails, fails with input left. */
  function Run(g: seq<StateView>, cur: StateId, input: seq<byte>, cursor: nat): (r: RunOutcome)
    requires WellFormed(g) && cur < |g| && cursor <= |input|
    ensures r.state < |g| && cursor <= r.cursor <= |input| && r.error != InvalidInputs
    ensures cursor < |input| && r.error == FailedTransition ==> r.cursor < |input|
    decreases MAX_INBUF_SIZE - cursor
  {
    if cursor >= MAX_INBUF_SIZE then RunOutcome(FsmSuccess, cur, cursor, [])
    else
      var data := input[cursor..];
      match Select(g[cur].table, data)
      case NoMatch => RunOutcome(FailedTransition, cur, cursor, [])
      case Selected(i, n) =>
        var e := g[cur].table[i];
        var ev := Fired(cur, e, data);
        if n == 0 then RunOutcome(FsmSuccess, cur, cursor, ev)
        else if cursor + n == |input| then RunOutcome(FsmSuccess, e.next.value, cursor + n, ev)
        else
          var r := Run(g, e.next.value, input, cursor + n);
          r.(events := ev + r.events)
  }

  // One turn of the loop of `fsm_invoke`, case by case: how the run from
  // `cur` at `cursor` continues after the scan of `cur`'s table.

  /** No entry matches: the run fails where it stands. */
  lemma RunNoMatch(g: seq<StateView>, cur: StateId, input: seq<byte>, cursor: nat)
    requires WellFormed(g) && cur < |g| && cursor <= |input| && cursor < MAX_INBUF_SIZE
    requires Select(g[cur].table, input[cursor..]).NoMatch?
    ensures Run(g, cur, input, cursor) == RunOutcome(FailedTransition, cur, cursor, [])
  {
  }

  /** The picked entry is an occupied slot pointing into the arena, and it
      reads no more than the input holds. */
  lemma RunSelected(g: seq<StateView>, cur: StateId, input: seq<byte>, cursor: nat, i: nat, n: nat)
    requires WellFormed(g) && cur < |g| && cursor <= |input|
    requires Select(g[cur].table, input[cursor..]) == Selected(i, n)
    ensures i < |g[cur].table| && g[cur].table[i].next.Some? && g[cur].table[i].next.value < |g|
    ensures cursor + n <= |input|
  {
  }

  /** A zero-byte match: the handler fires and the run ends without moving. */
  lemma RunZeroByte(g: seq<StateView>, cur: StateId, input: seq<byte>, cursor: nat, i: nat)
    requires WellFormed(g) && cur < |g| && cursor <= |input| && cursor < MAX_INBUF_SIZE
    requires Select(g[cur].table, input[cursor..]) == Selected(i, 0)
    requires i < |g[cur].table| && g[cur].table[i].next.Some?
    ensures Run(g, cur, input, cursor) == RunOutcome(FsmSuccess, cur, cursor, Fired(cur, g[cur].table[i], input[cursor..]))
  {
  }

  /** A match consuming the rest of the input: the handler fires and the run
      ends in the entry's next state. */
  lemma RunMovesLast(g: seq<StateView>, cur: StateId, input: seq<byte>, cursor: nat, i: nat, n: nat)
    requires WellFormed(g) && cur < |g| && cursor <= |input| && cursor < MAX_INBUF_SIZE
    requires Select(g[cur].table, input[cursor..]) == Selected(i, n) && n > 0 && cursor + n == |input|
    requires i < |g[cur].table| && g[cur].table[i].next.Some?
    ensures Run(g, cur, input, cursor) ==
      RunOutcome(FsmSuccess, g[cur].table[i].next.value, cursor + n, Fired(cur, g[cur].table[i], input[cursor..]))
  {
  }

  /** A match that consumes `n > 0` bytes and leaves input: the handler fires
      and the run goes on from the entry's next state. */
  lemma RunMovesOn(g: seq<StateView>, cur: StateId, input: seq<byte>, cursor: nat, i: nat, n: nat)
    requires WellFormed(g) && cur < |g| && cursor <= |input| && cursor < MAX_INBUF_SIZE
    requires Select(g[cur].table, input[cursor..]) == Selected(i, n) && n > 0 && cursor + n < |input|
    requires i < |g[cur].table| && g[cur].table[i].next.Some? && g[cur].table[i].next.value < |g|
    ensures Run(g, cur, input, cursor) ==
      Prepend(Fired(cur, g[cur].table[i], input[cursor..]), Run(g, g[cur].table[i].next.value, input, cursor + n))
  {
  }

  /** A turn that consumes `n > 0` bytes, by where the run stops: in the
      entry's next state when the input is used up, and otherwise where the
      run from the next state stops. */
  lemma RunAdvance(g: seq<StateView>, cur: StateId, input: seq<byte>, cursor: nat, i: nat, n: nat)
    requires WellFormed(g) && cur < |g| && cursor < |input| && cursor < MAX_INBUF_SIZE
    requires Select(g[cur].table, input[cursor..]) == Selected(i, n) && n > 0
    ensures i < |g[cur].table| && g[cur].table[i].next.Some? && g[cur].table[i].next.value < |g|
    ensures cursor + n <= |input|
    ensures cursor + n == |input| ==>
      Run(g, cur, input, cursor).error == FsmSuccess && Run(g, cur, input, cursor).state == g[cur].table[i].next.value
    ensures cursor + n < |input| ==>
      Run(g, cur, input, cursor).error == Run(g, g[cur].table[i].next.value, input, cursor + n).error
      && Run(g, cur, input, cursor).state == Run(g, g[cur].table[i].next.value, input, cursor + n).state
  {
    RunSelected(g, cur, input, cursor, i, n);
    if cursor + n == |input| {
      RunMovesLast(g, cur, input, cursor, i, n);
    } else {
      RunMovesOn(g, cur, input, cursor, i, n);
    }
  }

  /** The value `fsm_invoke` leaves in `*fsm_result`: the stopping state's
      finality on success, and FALSE after a failed transition. */
  function RunResult(g: seq<StateView>, r: RunOutcome): (b: bool)
    requires r.state < |g|
    ensures r.error != FsmSuccess ==> !b
    ensures r.error == FsmSuccess ==> (b <==> g[r.state].isFinal)
  {
    r.error == FsmSuccess && g[r.state].isFinal
  }

  /** A stop at a zero-byte match: the cursor is under the cap and the scan
      picks an entry that reads nothing. */
  ghost predicate ZeroByteStop(g: seq<StateView>, s: StateId, input: seq<byte>, cursor: nat)
    requires s < |g| && cursor <= |input|
  {
    cursor < MAX_INBUF_SIZE && Select(g[s].table, input[cursor..]).Selected?
      && Select(g[s].table, input[cursor..]).bytesRead == 0
  }

  /** The three stop rules: a successful run stopped because the input was
      exhausted, because of a zero-byte match, or because the cursor reached
      the cap; a failed run stopped under the cap at a state none of whose
      entries matches the remaining input. */
  lemma {:induction false} RunStopRules(g: seq<StateView>, cur: StateId, input: seq<byte>, cursor: nat)
    requires WellFormed(g) && cur < |g| && cursor <= |input|
    ensures var r := Run(g, cur, input, cursor);
      && (r.error == FsmSuccess ==>
            r.cursor == |input| || r.cursor >= MAX_INBUF_SIZE || ZeroByteStop(g, r.state, input, r.cursor))
      && (r.error == FailedTransition ==>
            r.cursor < MAX_INBUF_SIZE && Select(g[r.state].table, input[r.cursor..]).NoMatch?)
  {
    SuccessStop(g, cur, input, cursor);
    FailureStop(g, cur, input, cursor);
  }

  /** The success stop rule: a successful run that stopped under the cap
      with input left stopped at a zero-byte match. */
  lemma {:induction false} SuccessStop(g: seq<StateView>, cur: StateId, input: seq<byte>, cursor: nat)
    requires WellFormed(g) && cur < |g| && cursor <= |input|
    ensures var r := Run(g, cur, input, cursor);
      r.error == FsmSuccess && r.cursor < |input| && r.cursor < MAX_INBUF_SIZE ==>
        ZeroByteStop(g, r.state, input, r.cursor)
    decreases MAX_INBUF_SIZE - cursor
  {
    if cursor < MAX_INBUF_SIZE {
      var sel := Select(g[cur].table, input[cursor..]);
      if sel.NoMatch? {
        RunNoMatch(g, cur, input, cursor);
      } else {
        var i, n := sel.index, sel.bytesRead;
        RunSelected(g, cur, input, cursor, i, n);
        if n == 0 {
          RunZeroByte(g, cur, input, cursor, i);
          assert ZeroByteStop(g, cur, input, cursor);
        } else if cursor + n < |input| {
          var next := g[cur].table[i].next.value;
          RunMovesOn(g, cur, input, cursor, i, n);
          SuccessStop(g, next, input, cursor + n);
        } else {
          RunMovesLast(g, cur, input, cursor, i, n);
        }
      }
    }
  }

  /** The failure stop rule: a failed run stopped under the cap at a state
      whose scan finds no match. */
  lemma {:induction false} FailureStop(g: seq<StateView>, cur: StateId, input: seq<byte>, cursor: nat)
    requires WellFormed(g) && cur < |g| && cursor <= |input|
    ensures var r := Run(g, cur, input, cursor);
      r.error == FailedTransition ==>
        r.cursor < MAX_INBUF_SIZE && Select(g[r.state].table, input[r.cursor..]).NoMatch?
    decreases MAX_INBUF_SIZE - cursor
  {
    if cursor < MAX_INBUF_SIZE {
      match Select(g[cur].table, input[cursor..])
      case NoMatch =>
      case Selected(i, n) =>
        RunSelected(g, cur, input, cursor, i, n);
        if n != 0 && cursor + n != |input| {
          RunMovesOn(g, cur, input, cursor, i, n);
          FailureStop(g, g[cur].table[i].next.value, input, cursor + n);
        }
    }
  }

  /** A table that always offers a match on non-empty input. */
  ghost predicate TotalOnNonEmpty(t: seq<Entry>)
  {
    forall data: seq<byte> :: |data| > 0 ==> Select(t, data).Selected?
  }

  /** Totality and termination: when every state matches every non-empty
      input, a run over a non-empty remainder always succeeds. */
  lemma TotalMachineSucceeds(g: seq<StateView>, cur: StateId, input: seq<byte>, cursor: nat)
    requires WellFormed(g) && cur < |g| && cursor < |input|
    requires forall s :: 0 <= s < |g| ==> TotalOnNonEmpty(g[s].table)
    ensures Run(g, cur, input, cursor).error == FsmSuccess
  {
    RunStopRules(g, cur, input, cursor);
    var r := Run(g, cur, input, cursor);
    if r.cursor < |input| {
      assert TotalOnNonEmpty(g[r.state].table);
      assert Select(g[r.state].table, input[r.cursor..]).Selected?;
    }
  }
}
