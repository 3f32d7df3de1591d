/** The records and capacity constants of the engine (src/libfsm.h), with the
    fields that src/fsm.c actually uses (next state, output handler and the
    predicate slots of an entry; the output sink and the machine's input
    buffer). */
module LibFsm {

  const MAX_STATE_NAME_SIZE: nat := 32
  const MAX_FSM_NAME_SIZE: nat := 32
  const MAX_INBUF_SIZE: nat := 128
  const MAX_TRANSITION_TABLE_SIZE: nat := 128
  const MAX_TRANSITION_KEY_SIZE: nat := 64
  /** Number of predicate slots per entry; the header does not define it, and
      the email validator registers three predicates on one entry. */
  const MAX_ENTRY_CALLBACKS: nat := 3

  /** A C `char` of the input or of a key, read as an unsigned byte. */
  type byte = b: int | 0 <= b < 256

  datatype Option<+T> = None | Some(value: T)

  /** A state pointer: the index of the state in the arena of allocated states. */
  type StateId = nat

  /** An output handler pointer: which handler the host installed. */
  type HandlerId = nat

  /** The bytes of a transition key; `transition_key_size` is its length. */
  type Key = k: seq<byte> | |k| <= MAX_TRANSITION_KEY_SIZE

  /** The `input_matchers` slots of an entry; `None` is a null slot. */
  type MatcherSlots = s: seq<Option<Matcher>> | |s| == MAX_ENTRY_CALLBACKS
    witness [None, None, None]

  /** The predicate functions a host may register. The model knows the four
      byte-class matchers of the email validator; `Match` gives their meaning. */
  datatype Matcher = AlphaLower | AlphaUpper | Digit | AnyChar

  /** What a comparator returns: its boolean verdict, and the value it leaves
      in the caller's `n_bytes_read`. */
  datatype Verdict = Verdict(accepted: bool, bytesRead: nat)

  /** One slot of a transition table (`tt_entry_t`). A slot whose `next` is
      `None` is free; a table scan stops at the first free slot. */
  datatype Entry = Entry(key: Key, next: Option<StateId>, handler: Option<HandlerId>, matchers: MatcherSlots)

  /** A zero-initialised slot, as a freshly created state's table holds. */
  const FREE: Entry := Entry([], None, None, [None, None, None])

  /** One call of an output handler: `out_handler(from, to, inbuf, size, outbuf)`,
      where `input` is the unparsed input the handler is given and `keySize`
      the entry's `transition_key_size`. */
  datatype Event = Event(handler: HandlerId, from: StateId, to: StateId, input: seq<byte>, keySize: nat)

  /** `fsm_error_t`: the three outcomes `fsm_invoke` returns. */
  datatype FsmError = FsmSuccess | FailedTransition | InvalidInputs
}
