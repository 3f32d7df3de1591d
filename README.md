# lib.fsm in Dafny

A model of lib.fsm, a small C library for table-driven finite state
machines, and of the email validator example built on it.

In lib.fsm a machine (`fsm_t`) has an initial state. Each state (`state_t`)
owns a fixed transition table of 128 entries. An entry has a literal key of
up to 64 bytes, a next-state pointer, an optional output handler and up to
`MAX_ENTRY_CALLBACKS` predicate slots. `fsm_invoke` walks the input from
the initial state. At each step it scans the current state's table in
insertion order:

- The first entry whose key fits the remaining input and whose comparator
  accepts wins.
- A predicate entry is decided by its predicates, tried in slot order.
- A literal entry is decided by the default byte-prefix comparator.

The winning entry's handler fires, the cursor advances by the bytes the
comparator reported, and the machine moves to the entry's next state. The
run stops when:

- no entry matches (`FSM_E_FAILED_TRANSITION`);
- the input is used up;
- a match reads zero bytes;
- the cursor reaches `MAX_INBUF_SIZE`.

A successful run reports the stopping state's finality.

The project has five modules:

- `LibFsm` (libfsm.dfy): the capacity constants and records of
  src/libfsm.h, with the fields src/fsm.c uses.
- `EmailMatchers` (email_matchers.dfy): the four byte-class predicates of
  the email example, and `Match`, which stands for a call through an
  `input_matcher` pointer.
- `Engine` (engine.dfy): the decisions of src/fsm.c as pure functions:
  - the literal comparator, the entry comparator and the table scan;
  - the free-slot searches;
  - `Run`, the cursor loop of `fsm_invoke` over an arena of states.

  It also holds the lemmas about them: first match wins, insertion order is
  evaluation order, the stop rules, and totality.
- `Fsm` (fsm.dfy): the imperative side of src/fsm.c:
  - states as objects whose `array` tables are filled in place;
  - the output sink as an object that handlers append events to;
  - the machine as an object with a cursor;
  - every loop of the C code, as a `while` loop proved equal to its
    `Engine` function.
- `EmailValidator` (email_validator.dfy):
  - the machine `main` builds, through the `Fsm` builder methods;
  - proofs that the arena it produces is `EmailGraph()`;
  - the language that machine accepts: at least five alphanumerics, '@',
    then exactly "gmail.com" or "protonmail.com";
  - the run on "email@gmail.com" (accepted) and on "email@yahoo.com"
    (rejected).

State pointers are `StateId`s: indices into the arena of states the host
created. That arena is a parameter of `Invoke`, because the C machine
reaches its states only through pointers. Output handlers are `HandlerId`s. A handler call is recorded
as an `Event(handler, from, to, input, keySize)` appended to the sink.

## Model

| member | source | states |
|---|---|---|
| EmailMatchers.ByteClass | examples/email_validator/main.c:18-28 | empty input is rejected with `n_bytes_read` 0; otherwise it accepts exactly a first byte in the range and then reads 1 byte; a rejection leaves `n_bytes_read` unchanged |
| EmailMatchers.MatchAlphaLower | examples/email_validator/main.c:10-29 | on non-empty input, accepts exactly when the first byte is in 97..122 |
| EmailMatchers.MatchAlphaUpper | examples/email_validator/main.c:31-49 | on non-empty input, accepts exactly when the first byte is in 65..90 |
| EmailMatchers.MatchDigit | examples/email_validator/main.c:51-69 | on non-empty input, accepts exactly when the first byte is in 48..57 |
| EmailMatchers.MatchChar | examples/email_validator/main.c:71-85 | accepts exactly the non-empty inputs |
| EmailMatchers.Match | src/fsm.c:75 | a call through an `input_matcher` pointer rejects empty input with 0 bytes read, and an acceptance reads exactly 1 byte, which the input has |
| EmailMatchers.MatchContract | examples/email_validator/main.c:10-85 | each of the four matchers rejects empty input with 0 bytes read; an acceptance reads exactly 1 byte, which the input has; a rejection leaves 0 or the incoming count; the verdict does not depend on the incoming count |
| EmailMatchers.ClassMatchersAreAsciiClasses | examples/email_validator/main.c:23-68 | the three class matchers accept exactly the letters a..z, the letters A..Z and the digits 0..9 |
| EmailMatchers.ClassesDisjointAndExcludeAt | examples/email_validator/main.c:23-68 | the three class ranges are pairwise disjoint; none accepts '@'; their union is `Alnum` |
| Engine.InputComparator | src/fsm.c:38-52 | when the key fits the data, it accepts exactly when the key is a prefix of the data, and then reports the key's length; a rejection leaves the count; an empty key always matches and reads 0 bytes; a key longer than the data is accepted with 0 bytes |
| Engine.PredicateScan | src/fsm.c:72-80 | an accepted predicate loop reads exactly 1 byte, which the input has |
| Engine.FirstAcceptingPredicateWins | src/fsm.c:67-81 | from a reached slot, predicates are tried in slot order up to the first empty slot; on acceptance, the first accepting predicate decides the verdict and count, and every earlier one rejected; if none accepts, the count is 0 and no reached predicate accepts |
| Engine.EntryVerdict | src/fsm.c:61-93 | an accepted entry whose key fits the data reports no more bytes than the data holds |
| Engine.RejectionKeepsZero | src/fsm.c:72-78 | a rejecting entry compared with a zero count leaves the count at 0, so every entry in a scan starts from 0 |
| Engine.OverlongLiteralWouldOverrun | src/fsm.c:45-91 | without the scan's size guard, a literal entry with a key longer than the data would be accepted and would report more bytes than remain |
| Engine.Accepts | src/fsm.c:108-109 | an entry that passes the size guard and its comparator reports no more bytes than the data holds |
| Engine.PredicateEntryAccepts | src/fsm.c:67-81 | an entry with a predicate in slot 0 matches exactly when its key's length fits the data and its predicate loop accepts, and it then reads 1 byte |
| Engine.LiteralEntryExact | src/fsm.c:83-93 | an entry with no predicate matches exactly the data that starts with its key (size guard included), and reads the key's length |
| Engine.FirstFree | src/fsm.c:24-36 | the first slot with a null next state, with every earlier slot occupied; `None` exactly when every slot is occupied |
| Engine.FirstFreeFrom | src/fsm.c:24-36 | the result is the first slot at or after `i` with a null next state, with all slots before it occupied; `None` exactly when every slot from `i` on is occupied |
| Engine.ScanEnd | src/fsm.c:8-12 | the table scan stops at the first free slot or at the table's end; every slot before the stop is occupied |
| Engine.ScanEndCountsOccupied | src/fsm.c:8-12 | when the occupied slots form a prefix, a slot is occupied exactly when it lies before the scan's stop |
| Engine.FillFirstFreeKeepsPrefix | src/fsm.c:224-234 | writing the first free slot keeps the occupied slots a prefix and leaves the earlier slots untouched; an entry with a next state becomes the last slot scanned |
| Engine.Select | src/fsm.c:104-128 | a picked slot lies in the table, is occupied, and reports no more bytes than the data holds |
| Engine.SelectFrom | src/fsm.c:107-128 | a picked slot lies in the table, is occupied, and reports no more bytes than the data holds |
| Engine.SelectFromFirstMatch | src/fsm.c:107-128 | from slot `i`, the scan picks the earliest slot before the first free one that passes the size guard and its comparator, with that entry's count, and no earlier slot matches; it reports no match exactly when no such slot matches |
| Engine.SelectFirstMatch | src/fsm.c:104-128 | the same first-match-wins rule for the whole scan as `__apply_transition` starts it, with a zero count |
| Engine.AddedEntryIsTriedLast | src/fsm.c:213-237 | after an entry is added to the first free slot, the scan keeps its old pick when it had one; otherwise it picks the new entry exactly when that entry matches |
| Engine.FirstEmptySlotFrom | src/fsm.c:141-145 | the first empty predicate slot at or after `i`, with all slots before it full; `None` exactly when all are full |
| Engine.Registered | src/fsm.c:140-146 | occupied predicate slots keep their matcher; when every slot is full nothing changes; otherwise the first empty slot receives `m` and every other slot is unchanged |
| Engine.RegisteredPredicateTriedLast | src/fsm.c:140-146 | when predicates form a prefix of the slots, registering `m` keeps them a prefix; the entry then accepts what its earlier predicates accept, and otherwise what `m` accepts; once the first predicate is registered, the key's bytes no longer matter to the comparator, while its length still gates the scan and is passed to the handler |
| Engine.PredicateScanPrefix | src/fsm.c:72-80 | two slot lists that agree before slot `k`, one empty and the other holding a predicate at `k`, scan alike up to `k`; at `k` the second tries its predicate |
| Engine.Fired | src/fsm.c:113-121 | at most one handler call, made exactly when the entry has a handler, from the current state to the entry's next state, with the remaining input and the key's length |
| Engine.Run | src/fsm.c:275-297 | the cursor moves forward and never passes the input size; the run ends in a state of the arena, never with `InvalidInputs`; a run that fails with input left still has input left where it stopped |
| Engine.RunNoMatch | src/fsm.c:278-285 | with no match, the run fails at the current state and cursor, with no output |
| Engine.RunSelected | src/fsm.c:107-123 | the picked entry is an occupied slot that points into the arena, and it reads no more than the input holds |
| Engine.RunZeroByte | src/fsm.c:287-296 | a zero-byte match fires the entry's handler and ends the run successfully without moving state or cursor |
| Engine.RunMovesLast | src/fsm.c:287-291 | a match that uses up the input fires the handler and ends the run successfully in the entry's next state with the cursor at the end |
| Engine.RunMovesOn | src/fsm.c:287-293 | a match of `n > 0` bytes that leaves input fires the handler; the rest of the run is the run from the next state at `cursor + n` |
| Engine.RunAdvance | src/fsm.c:276-294 | a turn reading `n > 0` bytes stops in the next state when the input is used up; otherwise it stops where, and with the error that, the run from the next state gives |
| Engine.RunStopRules | src/fsm.c:275-297 | a successful run stopped because the input was used up, the cursor reached the cap, or a zero-byte match; a failed run stopped under the cap at a state whose scan matches nothing |
| Engine.SuccessStop | src/fsm.c:287-296 | a successful run that stopped under the cap with input left stopped at a zero-byte match |
| Engine.FailureStop | src/fsm.c:278-285 | a failed run stopped under the cap at a state whose scan finds no match |
| Engine.RunResult | src/fsm.c:259-299 | a failed run writes false; a successful run writes the stopping state's finality |
| Engine.TotalMachineSucceeds | src/fsm.c:275-305 | when every state matches every non-empty input, a run over a non-empty remainder always succeeds |
| Fsm.Truncated | src/fsm.c:160 | the stored name is shorter than the buffer and a prefix of the given name; it is the whole name when that fits |
| Fsm.EmptyTable | src/fsm.c:180 | a fresh table has 128 slots and its scan stops at slot 0 |
| Fsm.State.constructor | src/libfsm.h:33-42 | the name is truncated to the 32-byte buffer; the finality flag is the one given; the table is a fresh array of 128 free slots |
| Fsm.StateInit | src/fsm.c:176-185 | no state exactly when the name is null; otherwise a fresh state with the given finality, the truncated name and an empty table |
| Fsm.GetNextAvailEntry | src/fsm.c:24-36 | the loop returns the first free slot, or `None` when all 128 are occupied |
| Fsm.Filled | src/fsm.c:230-234 | the written slot holds the given key, next state and handler, and keeps its predicate slots |
| Fsm.AddEntry | src/fsm.c:213-237 | succeeds exactly when the key has at most 64 bytes and a slot is free; on success it writes key, next state and handler into the first free slot and changes no other slot; on failure the table is unchanged; occupied slots that formed a prefix still do |
| Fsm.RegisterEntryComparator | src/fsm.c:140-146 | the first empty predicate slot of the entry receives the matcher; nothing else changes; a full entry is left as it was; occupied slots that formed a prefix still do |
| Fsm.AddWildcardEntry | examples/email_validator/main.c:100-105 | succeeds exactly when a slot is free; the first free slot becomes an empty-key entry to `to` with `m` registered; on failure nothing changes |
| Fsm.EntryComparator | src/fsm.c:54-94 | the loop's verdict and count are those of `EntryVerdict` |
| Fsm.ApplyTransition | src/fsm.c:96-129 | with no match it returns null and leaves the sink unchanged; otherwise it returns the picked entry's next state and count, and appends exactly that entry's handler call |
| Fsm.Step | src/fsm.c:276-296 | one loop turn on the mutable tables continues exactly as `Run` does from that state and cursor, and appends exactly the events `Run` records for the turn |
| Fsm.Drive | src/fsm.c:275-297 | the loop's error, stopping state, cursor and output are those of `Run` from the start state at cursor 0 |
| Fsm.Machine.constructor | src/libfsm.h:47-62 | a fresh machine: name truncated to the 32-byte buffer, an input buffer of 128 bytes and size 0, cursor 0, no initial state, an empty sink |
| Fsm.Machine.SetInitialState | src/fsm.c:196-201 | succeeds exactly when no initial state is set, and then stores the given state, which may be null; while one is set, a call returns false and leaves it unchanged; after a null state is stored, a later call succeeds again |
| Fsm.Machine.ParseBuffer | src/fsm.c:261-267 | a non-empty input is parsed as given; an empty one selects the first `inbuf_size` bytes of the internal buffer, at most 128 |
| Fsm.OutBuf.constructor | src/fsm.c:272-273 | a cleared sink holds no handler calls |
| Fsm.Machine.Invoke | src/fsm.c:239-306 | without an initial state: `InvalidInputs`, with the result, cursor and both sinks untouched; otherwise error, cursor and output sink (the caller's, or the internal one when null) are those of `Run` over the caller's input, or over the internal buffer when the input is empty; the result is the stopping state's finality on success and false on failure |
| Fsm.FsmInit | src/fsm.c:156-165 | no machine exactly when the name is longer than 32; otherwise a fresh, zero-initialised machine with the truncated name |
| EmailValidator.ClassEntry | examples/email_validator/main.c:190-211 | the entry `main` adds to q0..q5: empty key, next state `to`, no handler, and digit, lower and upper in the three predicate slots |
| EmailValidator.ClassEntryVerdict | examples/email_validator/main.c:190-211 | on a zero count the class entry accepts exactly input starting with an alphanumeric, reading 1 byte; otherwise it rejects with 0 bytes |
| EmailValidator.Wildcard | examples/email_validator/main.c:100-105 | the wildcard `main` adds to every state: empty key, next state `to`, no handler, and `match_char` alone in slot 0 |
| EmailValidator.WildcardVerdict | examples/email_validator/main.c:100-105 | on a zero count the wildcard accepts exactly the non-empty inputs, reading 1 byte; empty input is rejected with 0 bytes |
| EmailValidator.Literal | examples/email_validator/main.c:117-126 | a literal entry: the given key, next state `to`, no handler, and no predicate |
| EmailValidator.LiteralVerdict | examples/email_validator/main.c:117-126 | a literal entry matches exactly the input that starts with its key, and then reads the key's length |
| EmailValidator.TableOf | examples/email_validator/main.c:99-344 | a 128-slot table holding the given entries in their first slots, in order, and free slots after |
| EmailValidator.DeadTable | examples/email_validator/main.c:99-113 | the table of D and F: 128 slots with the wildcard to D in slot 0 |
| EmailValidator.ClassTable | examples/email_validator/main.c:189-218 | the table of q0..q4: 128 slots holding the class entry to `to`, then the wildcard to D |
| EmailValidator.LocalTable | examples/email_validator/main.c:146-187 | the table of q5: 128 slots holding the class entry to q5, the '@' literal to q6, then the wildcard to D |
| EmailValidator.DomainTable | examples/email_validator/main.c:115-144 | the table of q6: 128 slots holding "gmail.com" and "protonmail.com" to F, then the wildcard to D |
| EmailValidator.EmailGraph | examples/email_validator/main.c:99-344 | the arena `main` builds: nine states, with F final, D not final, and D and F sharing one table |
| EmailValidator.RegisteredOnFree | examples/email_validator/main.c:155-168 | registering on a fresh slot fills slot 0; registering digit, lower and upper in turn fills the three slots in that order |
| EmailValidator.EmailGraphWellFormed | examples/email_validator/main.c:99-344 | the built arena is well formed, and F is its only final state |
| EmailValidator.SelectDead | examples/email_validator/main.c:99-113 | the scan of D and F picks the wildcard on any non-empty input and nothing on empty input |
| EmailValidator.SelectClass | examples/email_validator/main.c:189-344 | the scan of q0..q4 picks the class entry on an alphanumeric first byte, the wildcard on any other byte, and nothing on empty input |
| EmailValidator.SelectLocal | examples/email_validator/main.c:146-187 | the scan of q5 picks the class entry on an alphanumeric, the '@' literal on '@', and otherwise the wildcard |
| EmailValidator.SelectDomain | examples/email_validator/main.c:115-144 | the scan of q6 picks "gmail.com" when the input starts with it, else "protonmail.com" when it starts with that, else the wildcard on non-empty input |
| EmailValidator.EmailGraphIsEmailLike | examples/email_validator/main.c:99-344 | the built arena has the per-state scans the run proofs use |
| EmailValidator.DeadAbsorbs | examples/email_validator/main.c:99-105 | from D, a run over remaining input succeeds and stops in D |
| EmailValidator.FinalThenDead | examples/email_validator/main.c:107-113 | from F with input left, the run stops in D |
| EmailValidator.DomainGmail | examples/email_validator/main.c:117-126 | q6 on input starting with "gmail.com" accepts exactly when the rest is a known domain, that is, when nothing follows |
| EmailValidator.DomainProton | examples/email_validator/main.c:128-137 | q6 on input starting with "protonmail.com" accepts exactly when nothing follows |
| EmailValidator.DomainOther | examples/email_validator/main.c:139-144 | q6 on any other input rejects |
| EmailValidator.DomainState | examples/email_validator/main.c:115-144 | q6 accepts exactly when the rest of the input is "gmail.com" or "protonmail.com" |
| EmailValidator.LocalState | examples/email_validator/main.c:146-187 | q5 accepts exactly when the rest is alphanumerics, '@', then a known domain |
| EmailValidator.LocalAlnum | examples/email_validator/main.c:147-168 | the same, when the next byte is alphanumeric (q5 loops) |
| EmailValidator.LocalAt | examples/email_validator/main.c:171-180 | the same, when the next byte is '@' (q5 moves to q6) |
| EmailValidator.LocalOther | examples/email_validator/main.c:182-187 | the same, when the next byte is anything else (q5 moves to D) |
| EmailValidator.ClassState | examples/email_validator/main.c:189-344 | the state needing `j` more alphanumerics accepts exactly when the rest is at least `j` alphanumerics, '@', then a known domain |
| EmailValidator.ClassAlnum | examples/email_validator/main.c:190-211 | the same, when the next byte is alphanumeric (one fewer is needed) |
| EmailValidator.ClassOther | examples/email_validator/main.c:213-218 | the same, when the next byte is not alphanumeric (the run goes to D) |
| EmailValidator.EmailLikeTotal | examples/email_validator/main.c:99-344 | every state of the machine matches every non-empty input |
| EmailValidator.EmailLanguage | examples/email_validator/main.c:87-364 | on inputs of at most 128 bytes, the machine accepts exactly `EmailShape` (at least five alphanumerics, '@', then "gmail.com" or "protonmail.com", and nothing after); it never fails on non-empty input; it fails its first transition on empty input |
| EmailValidator.AddClassEntry | examples/email_validator/main.c:190-211 | succeeds exactly when a slot is free; the first free slot becomes an empty-key entry to `to` with digit, lower and upper registered on it in that order; nothing else changes |
| EmailValidator.NewWildcardState | examples/email_validator/main.c:99-113 | a fresh state whose table holds the single wildcard to D |
| EmailValidator.AddLiteralEntry | src/fsm.c:213-237 | adding a literal to a table laid out as a list of entries appends it to the list |
| EmailValidator.AddWildcardAfter | examples/email_validator/main.c:139-144 | adding the wildcard to a table laid out as a list of entries appends it to the list |
| EmailValidator.NewLiteralPairState | examples/email_validator/main.c:115-144 | a fresh state whose table holds two literals to `to`, then the wildcard to D |
| EmailValidator.NewDomainState | examples/email_validator/main.c:115-144 | a fresh q6 whose table holds the two domain literals to F, then the wildcard to D |
| EmailValidator.NewLocalState | examples/email_validator/main.c:146-187 | a fresh q5 whose table holds the class loop, the '@' literal to q6, then the wildcard |
| EmailValidator.NewClassState | examples/email_validator/main.c:189-218 | a fresh state whose table holds the class entry to `to`, then the wildcard |
| EmailValidator.NewClassStates | examples/email_validator/main.c:189-344 | fresh q4..q0, each holding the class entry to the next state in the chain, then the wildcard |
| EmailValidator.BuildEmailValidator | examples/email_validator/main.c:90-344 | the builder calls produce exactly the arena `EmailGraph()`, with q0 initial and an empty input buffer |
| EmailValidator.ValidateEmail | examples/email_validator/main.c:349-355 | invoking the built machine always writes a result; empty input fails the first transition with result false; other input succeeds; on inputs of at most 128 bytes the result is true exactly for `EmailShape` |
| EmailValidator.SampleIsEmail | examples/email_validator/main.c:351 | "email@gmail.com" has the accepted shape |
| EmailValidator.YahooIsNotEmail | examples/email_validator/main.c:139-144 | "email@yahoo.com" does not have the accepted shape, because its domain is neither known domain |
| EmailValidator.ClassRunsThrough | examples/email_validator/main.c:189-344 | from a state `q` of q4..q0, the `q - Q5` alphanumerics it still needs lead the run to q5, with the same stopping state and error as the run from q5 after them, while the cursor stays under the cap |
| EmailValidator.ClassStep | examples/email_validator/main.c:189-218 | in a state `q` of q4..q0, one alphanumeric moves the run to `q - 1`, with the same stopping state and error |
| EmailValidator.LocalRunsThrough | examples/email_validator/main.c:146-168 | in q5, the alphanumerics `w[c..e]` keep the run in q5 from cursor `c` to cursor `e`, with the same stopping state and error, while the cursor stays under the cap |
| EmailValidator.LocalStep | examples/email_validator/main.c:146-168 | in q5, one alphanumeric keeps the run in q5 and advances the cursor by one, with the same stopping state and error |
| EmailValidator.AlnumPrefixToAt | examples/email_validator/main.c:146-218 | from q0, an alphanumeric prefix of at least five bytes, ending under the cap, leaves the run in q5 at the end of the prefix, with the same stopping state and error |
| EmailValidator.LongToAt | examples/email_validator/main.c:146-218 | on the 150-byte input, the run from q0 reaches q5 at the '@' (cursor 120), with the same stopping state and error |
| EmailValidator.LongFromAt | examples/email_validator/main.c:146-168 | in q5 at cursor 120, the '@' moves the run to q6, and the run then succeeds and stops in F |
| EmailValidator.LongLayout | examples/email_validator/main.c:115-126 | the 150-byte input is 120 alphanumerics, '@' at position 120, then "gmail.com" followed by 20 more bytes |
| EmailValidator.LongDomainPastCap | src/fsm.c:275-297 | in q6 at cursor 121, "gmail.com" takes the cursor to 130, past the 128-byte cap, so the run succeeds and stops in F |
| EmailValidator.LongRunsToFinal | src/fsm.c:275-299 | in any arena with the built machine's scans, the run on the 150-byte input succeeds, stops in F, and is accepted |
| EmailValidator.LongIsNotEmail | examples/email_validator/main.c:115-144 | the 150-byte input does not have the accepted shape, because 29 bytes follow its only '@' |
| EmailValidator.CapAcceptsNonAddress | src/fsm.c:275-299 | the built machine accepts the 150-byte input, which `EmailShape` rejects: the cursor cap ends the run in F before the trailing bytes are read |
| EmailValidator.YahooDomainToDead | examples/email_validator/main.c:139-144 | in q6, "yahoo.com" matches neither domain and the run falls into D |
| EmailValidator.YahooFromAt | examples/email_validator/main.c:171-180 | in q5, the '@' of "email@yahoo.com" moves the run to q6, and from there to D |
| EmailValidator.YahooFallsIntoDead | examples/email_validator/main.c:189-344 | in any arena with the built machine's scans, the run on "email@yahoo.com" from q0 stops in D |
| EmailValidator.YahooRunEndsInDead | examples/email_validator/main.c:349-355 | the built machine's run on "email@yahoo.com" stops in the dead state D |
| EmailValidator.EmailValidatorMain | examples/email_validator/main.c:87-364 | the run of `main` succeeds and reports a valid address |
| EmailValidator.RejectYahoo | examples/email_validator/main.c:349-360 | "email@yahoo.com" runs to completion and the result is false |

## Left out

- The `!inbuf` branch of `__entry_comparator` (src/fsm.c:65) is not modelled. `fsm_invoke` always passes a non-null parse buffer, so the branch is unreachable from it.
- `__register_input_comparator` (src/fsm.c:20-22) is not modelled as an operation. `fsm_init` installs `__input_comparator`, and nothing in the core installs another literal matcher, so the model always uses `InputComparator`.
- Predicates and handlers are not function pointers. Predicates form a closed set: the four matchers of the email example. A handler is an id, and a call of it is an `Event` appended to a trace. The handlers' `snprintf` formatting into `outbuf`, `MAX_OUTBUF_SIZE` and `curr_pos` are not modelled. The `memset` and `curr_pos` reset of the sink becomes clearing the trace.
- `malloc` is not modelled; fresh objects are zero-initialised, as the engine assumes. The C code does not zero them. Neither is the `printf` diagnostic at src/fsm.c:225.
- The NUL write at src/fsm.c:231 is not modelled, and the key is a byte sequence of at most 64 bytes. That write stores one byte past the 64-byte key buffer when `sizeof_key` is 64.
- The `#if 0` output terminator (src/fsm.c:301-303) is not modelled.
- Null `fsm_result` and null `outbuf` pointers are handled as follows. `Invoke` always has a result to write; it returns it as `Some`, or `None` when nothing is written. A null `out` selects the internal sink, as in the C code.
- An explicit empty input stands for both a null `inbuf` and a zero `size`. Both select the internal buffer (src/fsm.c:261-267).
- The machine invariant `Valid()` demands `inbufSize <= MAX_INBUF_SIZE`, which the C code never checks. A host that sets a larger `inbuf_size` and then invokes with empty input makes `fsm_invoke` read past the end of `fsm->inbuf` (src/fsm.c:265-266, 281). That out-of-bounds read is not modelled.
- Fsm.Machine.Invoke: the machine's cursor field is assigned once, after the loop, rather than on every turn. Nothing reads it during the loop: handlers receive only the remaining input.
- `fsm_add_wildcard_entry` is called by the email example but has no body in the source. `AddWildcardEntry` models it as `fsm_add_entry` with an empty key, followed by `fsm_register_entry_comparator` on that slot.
- The email example's `main` has two type mismatches, and these are not modelled:
  - it uses `fsm_add_entry`'s boolean result as an entry pointer (examples/email_validator/main.c:147);
  - it tests `fsm_invoke`'s error with an `if` whose meaning depends on the enum values (examples/email_validator/main.c:349).
  The builder methods register predicates on the slot `fsm_add_entry` filled, which is what the example means. `EmailValidatorMain` returns the error and result rather than printing.
- EmailValidator.BuildEmailValidator: q0's entries are added before `fsm_set_initial_state` is called. The source calls it first (examples/email_validator/main.c:313-314). The two effects touch different objects.
- The state S0 that the email example creates (examples/email_validator/main.c:93) is created but is not part of the arena, since no entry points to it.
- EmailValidator.EmailLanguage: it characterises acceptance only for inputs of at most 128 bytes. Longer inputs can stop at the cursor cap, and the machine can then accept a non-address. `CapAcceptsNonAddress` shows one: 120 alphanumerics, '@', "gmail.com" and 20 more bytes.
- `src/libfsm.h` does not match src/fsm.c. The header lacks the entry fields `next_state`, `out_handler` and `input_matchers`, the machine fields `inbuf`, `outbuf` and `input_matcher`, and the constant `MAX_ENTRY_CALLBACKS`. It also declares the table as a pointer `transition_tan`. The model follows src/fsm.c: each state owns its table inline. `MAX_ENTRY_CALLBACKS` is taken as 3, the number the email example registers on one entry.
- Names are strings of characters. `Fsm.Truncated` cuts them as `snprintf` does, to the buffer size minus one. But `|name|` counts characters while `strlen` (src/fsm.c:157) counts bytes, so names with multi-byte characters are measured differently.
- The examples bit_counter and bit_flipper are not part of this model. Both are small drivers around the same API. bit_flipper's handler only formats text. bit_counter's handler also reserves a `bit_counter_t` header at the front of the output buffer and counts the ones and zeros in it (examples/bit_counter/main.c:13-35). Its `main` also fills `fsm->inbuf` and `inbuf_size` directly before an invoke with no input (examples/bit_counter/main.c:89-95).
- Console output and the process exit status are not modelled.
