/** The machine that examples/email_validator/main.c wires up, built through
    the API of `Fsm`, and the language it accepts. States are numbered in the
    order `main` creates them: D, F, q6, q5, q4, ..., q0. (`main` also
    creates a state S0 that nothing links to; it is not in the arena.)
    qj (j = 0..4) needs one more alphanumeric byte before q5; q5 loops on
    alphanumerics and moves to q6 on '@'; q6 accepts the domains
    "gmail.com" and "protonmail.com" into the final state F; every other
    byte leads to the dead state D. */
module EmailValidator {
  import opened LibFsm
  import opened EmailMatchers
  import opened Engine
  import opened Fsm

  const D: StateId := 0
  const F: StateId := 1
  const Q6: StateId := 2
  const Q5: StateId := 3
  /** q0..q4, the states that still need `j` more alphanumerics before q5
      (q4 needs 1, q0 needs 5), are the states `Q5 + j`. */
  const Q0: StateId := 8

  /** The bytes of an ASCII string literal. */
  function Ascii(s: string): (b: seq<byte>)
    requires forall i :: 0 <= i < |s| ==> s[i] as int < 256
    ensures |b| == |s| && forall i :: 0 <= i < |s| ==> b[i] == s[i] as int
  {
    seq(|s|, i requires 0 <= i < |s| => s[i] as int)
  }

  const AT: byte := '@' as int
  const GMAIL: Key := Ascii("gmail.com")
  const PROTON: Key := Ascii("protonmail.com")

  /** The entries `main` creates. */
  const ALNUM: MatcherSlots := [Some(Digit), Some(AlphaLower), Some(AlphaUpper)]

  /** An empty-key entry with the three class predicates. */
  function ClassEntry(to: StateId): (e: Entry)
    ensures e.next == Some(to) && e.handler.None? && e.key == [] && e.matchers == ALNUM
  {
    Entry([], Some(to), None, ALNUM)
  }

  /** An empty-key entry with `match_char` registered. */
  function Wildcard(to: StateId): (e: Entry)
    ensures e.next == Some(to) && e.handler.None? && e.key == [] && e.matchers == [Some(AnyChar), None, None]
  {
    Entry([], Some(to), None, [Some(AnyChar), None, None])
  }

  /** An entry compared by the literal comparator. */
  function Literal(key: Key, to: StateId): (e: Entry)
    ensures e.next == Some(to) && e.handler.None? && e.key == key && e.matchers[0].None?
  {
    Entry(key, Some(to), None, [None, None, None])
  }

  /** On a zero count the class entry accepts exactly input starting with an
      alphanumeric, and then reads 1 byte. */
  lemma ClassEntryVerdict(to: StateId, data: seq<byte>)
    ensures EntryVerdict(ClassEntry(to), data, 0) ==
      if |data| > 0 && Alnum(data[0]) then Verdict(true, 1) else Verdict(false, 0)
  {
  }

  /** On a zero count the wildcard accepts exactly the non-empty inputs, and
      then reads 1 byte. */
  lemma WildcardVerdict(to: StateId, data: seq<byte>)
    ensures EntryVerdict(Wildcard(to), data, 0) == if |data| > 0 then Verdict(true, 1) else Verdict(false, 0)
  {
  }

  /** A literal entry matches exactly the input that starts with its key, and
      then reads the key's length. */
  lemma LiteralVerdict(key: Key, to: StateId, data: seq<byte>)
    ensures Accepts(Literal(key, to), data) <==> |key| <= |data| && data[..|key|] == key
    ensures Accepts(Literal(key, to), data) ==> EntryVerdict(Literal(key, to), data, 0).bytesRead == |key|
  {
    LiteralEntryExact(Literal(key, to), data);
  }

  /** A table holding `es` in its first slots, in order, and free slots after. */
  function TableOf(es: seq<Entry>): (t: seq<Entry>)
    requires |es| <= MAX_TRANSITION_TABLE_SIZE
    ensures |t| == MAX_TRANSITION_TABLE_SIZE
    ensures forall i :: 0 <= i < |es| ==> t[i] == es[i]
    ensures forall i :: |es| <= i < |t| ==> t[i] == FREE
  {
    if es == [] then EmptyTable() else TableOf(es[..|es| - 1])[|es| - 1 := es[|es| - 1]]
  }

  /** Registering on a zero-initialised slot: the wildcard's single
      predicate, and the three class predicates in order. */
  lemma RegisteredOnFree(m: Matcher)
    ensures Registered(FREE.matchers, m) == [Some(m), None, None]
    ensures Registered(Registered(Registered(FREE.matchers, Digit), AlphaLower), AlphaUpper) == ALNUM
  {
    var ms1 := Registered(FREE.matchers, Digit);
    assert ms1 == [Some(Digit), None, None];
    var ms2 := Registered(ms1, AlphaLower);
    assert FirstEmptySlotFrom(ms1, 0) == Some(1);
    assert ms2 == [Some(Digit), Some(AlphaLower), None];
    assert FirstEmptySlotFrom(ms2, 0) == Some(2);
  }

  /** Filling the first free slot of `TableOf(es)` appends to `es`. */
  lemma TableOfAppend(es: seq<Entry>, e: Entry)
    requires |es| < MAX_TRANSITION_TABLE_SIZE && forall i :: 0 <= i < |es| ==> es[i].next.Some?
    ensures FirstFree(TableOf(es)) == Some(|es|) && TableOf(es)[|es|] == FREE
    ensures TableOf(es)[|es| := e] == TableOf(es + [e])
  {
    TableOfFirstFree(es);
    var es' := es + [e];
    assert es' != [] && es'[..|es'| - 1] == es && es'[|es'| - 1] == e;
  }

  lemma TableOfFirstFree(es: seq<Entry>)
    requires |es| < MAX_TRANSITION_TABLE_SIZE && forall i :: 0 <= i < |es| ==> es[i].next.Some?
    ensures FirstFree(TableOf(es)) == Some(|es|)
  {
    var t := TableOf(es);
    assert t[|es|] == FREE;
    FirstFreeFromReaches(t, 0, |es|);
  }

  /** The scan from `i` walks over occupied slots up to the free slot `k`. */
  lemma {:induction false} FirstFreeFromReaches(t: seq<Entry>, i: nat, k: nat)
    requires i <= k < |t| && t[k].next.None? && forall j :: i <= j < k ==> t[j].next.Some?
    ensures FirstFreeFrom(t, i) == Some(k)
    decreases k - i
  {
    if i < k {
      assert t[i].next.Some?;
      FirstFreeFromReaches(t, i + 1, k);
    }
  }

  /** The table of D and F: the wildcard to D, then free slots. */
  function DeadTable(): (t: seq<Entry>)
    ensures |t| == MAX_TRANSITION_TABLE_SIZE && t[0] == Wildcard(D)
  {
    TableOfFirstFree([Wildcard(D)]);
    TableOf([Wildcard(D)])
  }

  /** The table of q0..q4: the class entry to `to`, the wildcard to D, then free slots. */
  function ClassTable(to: StateId): (t: seq<Entry>)
    ensures |t| == MAX_TRANSITION_TABLE_SIZE && t[0] == ClassEntry(to) && t[1] == Wildcard(D)
  {
    TableOfFirstFree([ClassEntry(to), Wildcard(D)]);
    TableOf([ClassEntry(to), Wildcard(D)])
  }

  /** The table of q5: the class entry looping on q5, '@' to q6, the wildcard, then free slots. */
  function LocalTable(): (t: seq<Entry>)
    ensures |t| == MAX_TRANSITION_TABLE_SIZE && t[0] == ClassEntry(Q5) && t[1] == Literal([AT], Q6)
    ensures t[2] == Wildcard(D)
  {
    TableOfFirstFree([ClassEntry(Q5), Literal([AT], Q6), Wildcard(D)]);
    TableOf([ClassEntry(Q5), Literal([AT], Q6), Wildcard(D)])
  }

  /** The table of q6: "gmail.com" and "protonmail.com" to F, the wildcard, then free slots. */
  function DomainTable(): (t: seq<Entry>)
    ensures |t| == MAX_TRANSITION_TABLE_SIZE && t[0] == Literal(GMAIL, F) && t[1] == Literal(PROTON, F)
    ensures t[2] == Wildcard(D)
  {
    TableOfFirstFree([Literal(GMAIL, F), Literal(PROTON, F), Wildcard(D)]);
    TableOf([Literal(GMAIL, F), Literal(PROTON, F), Wildcard(D)])
  }

  /** The arena after `main` has built the machine. */
  function EmailGraph(): (g: seq<StateView>)
    ensures |g| == 9 && g[F].isFinal && !g[D].isFinal && g[D].table == g[F].table
  {
    [ StateView(false, DeadTable()),      // D
      StateView(true, DeadTable()),       // F
      StateView(false, DomainTable()),    // q6
      StateView(false, LocalTable()),     // q5
      StateView(false, ClassTable(Q5)),   // q4
      StateView(false, ClassTable(Q5 + 1)),
      StateView(false, ClassTable(Q5 + 2)),
      StateView(false, ClassTable(Q5 + 3)),
      StateView(false, ClassTable(Q5 + 4)) ]  // q0
  }

  lemma EmailGraphWellFormed()
    ensures WellFormed(EmailGraph())
    ensures forall s :: 0 <= s < |EmailGraph()| ==> (EmailGraph()[s].isFinal <==> s == F)
  {
  }

  // ---------------------------------------------------------------------
  // What each state's table scan picks.

  lemma SelectDead(data: seq<byte>)
    ensures Select(DeadTable(), data) == if |data| > 0 then Selected(0, 1) else NoMatch
  {
    var t := DeadTable();
    assert t[0] == Wildcard(D) && t[1] == FREE;
  }

  lemma SelectClass(to: StateId, data: seq<byte>)
    ensures Select(ClassTable(to), data) ==
      if |data| == 0 then NoMatch else if Alnum(data[0]) then Selected(0, 1) else Selected(1, 1)
  {
    var t := ClassTable(to);
    assert t[0] == ClassEntry(to) && t[1] == Wildcard(D) && t[2] == FREE;
    if |data| > 0 && !Alnum(data[0]) {
      assert !EntryVerdict(t[0], data, 0).accepted;
      assert EntryVerdict(t[0], data, 0).bytesRead == 0;
      assert SelectFrom(t, 1, data, 0) == Selected(1, 1);
    }
  }

  lemma SelectLocal(data: seq<byte>)
    ensures Select(LocalTable(), data) ==
      if |data| == 0 then NoMatch
      else if Alnum(data[0]) then Selected(0, 1)
      else if data[0] == AT then Selected(1, 1)
      else Selected(2, 1)
  {
    var t := LocalTable();
    assert t[0] == ClassEntry(Q5) && t[1] == Literal([AT], Q6) && t[2] == Wildcard(D) && t[3] == FREE;
    if |data| > 0 {
      assert data[..1] == [data[0]];
    }
  }

  lemma SelectDomain(data: seq<byte>)
    ensures Select(DomainTable(), data) ==
      if |GMAIL| <= |data| && data[..|GMAIL|] == GMAIL then Selected(0, |GMAIL|)
      else if |PROTON| <= |data| && data[..|PROTON|] == PROTON then Selected(1, |PROTON|)
      else if |data| > 0 then Selected(2, 1)
      else NoMatch
  {
    var t := DomainTable();
    assert t[0] == Literal(GMAIL, F) && t[1] == Literal(PROTON, F) && t[2] == Wildcard(D) && t[3] == FREE;
  }

  // ---------------------------------------------------------------------
  // What the run proofs need of the arena.

  /** A table whose scan is the wildcard to D. */
  ghost predicate DeadScan(t: seq<Entry>)
  {
    |t| > 0 && t[0].next == Some(D)
    && forall data {:trigger Select(t, data)} ::
         Select(t, data) == if |data| > 0 then Selected(0, 1) else NoMatch
  }

  /** A table whose scan is a class entry to `to`, then the wildcard to D. */
  ghost predicate ClassScan(t: seq<Entry>, to: StateId)
  {
    |t| > 1 && t[0].next == Some(to) && t[1].next == Some(D)
    && forall data {:trigger Select(t, data)} ::
         Select(t, data) == if |data| == 0 then NoMatch else if Alnum(data[0]) then Selected(0, 1) else Selected(1, 1)
  }

  /** The scan of q5: the class entry to q5, '@' to q6, the wildcard to D. */
  ghost predicate LocalScan(t: seq<Entry>)
  {
    |t| > 2 && t[0].next == Some(Q5) && t[1].next == Some(Q6) && t[2].next == Some(D)
    && forall data {:trigger Select(t, data)} ::
         Select(t, data) == (if |data| == 0 then NoMatch
                             else if Alnum(data[0]) then Selected(0, 1)
                             else if data[0] == AT then Selected(1, 1)
                             else Selected(2, 1))
  }

  /** The scan of q6: the two domain literals to F, then the wildcard to D. */
  ghost predicate DomainScan(t: seq<Entry>)
  {
    |t| > 2 && t[0].next == Some(F) && t[1].next == Some(F) && t[2].next == Some(D)
    && forall data {:trigger Select(t, data)} ::
         Select(t, data) == (if |GMAIL| <= |data| && data[..|GMAIL|] == GMAIL then Selected(0, |GMAIL|)
                             else if |PROTON| <= |data| && data[..|PROTON|] == PROTON then Selected(1, |PROTON|)
                             else if |data| > 0 then Selected(2, 1)
                             else NoMatch)
  }

  /** An arena that behaves as the email machine: nine well-formed states,
      F the only final one, and each state's scan as `main` wires it. */
  ghost predicate EmailLike(g: seq<StateView>)
  {
    |g| == 9 && WellFormed(g)
    && (forall s :: 0 <= s < |g| ==> (g[s].isFinal <==> s == F))
    && DeadScan(g[D].table) && DeadScan(g[F].table)
    && DomainScan(g[Q6].table) && LocalScan(g[Q5].table)
    && ClassScan(g[Q5 + 1].table, Q5) && ClassScan(g[Q5 + 2].table, Q5 + 1)
    && ClassScan(g[Q5 + 3].table, Q5 + 2) && ClassScan(g[Q5 + 4].table, Q5 + 3)
    && ClassScan(g[Q5 + 5].table, Q5 + 4)
  }

  lemma DeadTableScan()
    ensures DeadScan(DeadTable())
  {
    forall data { SelectDead(data); }
    assert DeadTable()[0] == Wildcard(D);
  }

  lemma DomainTableScan()
    ensures DomainScan(DomainTable())
  {
    forall data { SelectDomain(data); }
    var t := DomainTable();
    assert t[0] == Literal(GMAIL, F) && t[1] == Literal(PROTON, F) && t[2] == Wildcard(D);
  }

  lemma LocalTableScan()
    ensures LocalScan(LocalTable())
  {
    forall data { SelectLocal(data); }
    var t := LocalTable();
    assert t[0] == ClassEntry(Q5) && t[1] == Literal([AT], Q6) && t[2] == Wildcard(D);
  }

  lemma ClassTableScan(to: StateId)
    ensures ClassScan(ClassTable(to), to)
  {
    forall data { SelectClass(to, data); }
    var t := ClassTable(to);
    assert t[0] == ClassEntry(to) && t[1] == Wildcard(D);
  }

  /** The arena `main` builds behaves as the email machine. */
  lemma EmailGraphIsEmailLike()
    ensures EmailLike(EmailGraph())
  {
    EmailGraphWellFormed();
    DeadTableScan();
    DomainTableScan();
    LocalTableScan();
    ClassTableScan(Q5);
    ClassTableScan(Q5 + 1);
    ClassTableScan(Q5 + 2);
    ClassTableScan(Q5 + 3);
    ClassTableScan(Q5 + 4);
  }

  // ---------------------------------------------------------------------
  // Runs of the email machine.

  /** The run from `s` at `c` succeeds and stops in a final state. */
  ghost predicate Accepted(g: seq<StateView>, s: StateId, w: seq<byte>, c: nat)
    requires WellFormed(g) && s < |g| && c <= |w|
  {
    RunResult(g, Run(g, s, w, c))
  }

  /** The bytes `w[c..k]` are all alphanumeric. */
  ghost predicate AlnumBetween(w: seq<byte>, c: nat, k: nat)
    requires c <= k <= |w|
  {
    forall i :: c <= i < k ==> Alnum(w[i])
  }

  /** One of the two domains the validator knows. */
  predicate Domain(s: seq<byte>)
  {
    s == GMAIL || s == PROTON
  }

  /** From `c` on, `w` is at least `j` alphanumerics, '@', and a known domain. */
  ghost predicate LocalThenDomain(w: seq<byte>, c: nat, j: nat)
  {
    exists k :: c + j <= k < |w| && AlnumBetween(w, c, k) && w[k] == AT && Domain(w[k + 1..])
  }

  /** The language the validator is meant to accept: at least five
      alphanumerics, '@', then "gmail.com" or "protonmail.com", and nothing
      after. */
  ghost predicate EmailShape(w: seq<byte>)
  {
    LocalThenDomain(w, 0, 5)
  }

  lemma ShiftLocal(w: seq<byte>, c: nat, j: nat)
    requires c < |w| && Alnum(w[c])
    ensures LocalThenDomain(w, c + 1, j) <==> LocalThenDomain(w, c, j + 1)
  {
    if LocalThenDomain(w, c + 1, j) {
      var k :| c + 1 + j <= k < |w| && AlnumBetween(w, c + 1, k) && w[k] == AT && Domain(w[k + 1..]);
      assert AlnumBetween(w, c, k);
    }
    if LocalThenDomain(w, c, j + 1) {
      var k :| c + j + 1 <= k < |w| && AlnumBetween(w, c, k) && w[k] == AT && Domain(w[k + 1..]);
      assert AlnumBetween(w, c + 1, k);
    }
  }

  lemma NotAtNeedsOneMore(w: seq<byte>, c: nat)
    requires c < |w| && w[c] != AT
    ensures LocalThenDomain(w, c, 0) <==> LocalThenDomain(w, c, 1)
  {
    if LocalThenDomain(w, c, 0) {
      var k :| c <= k < |w| && AlnumBetween(w, c, k) && w[k] == AT && Domain(w[k + 1..]);
      assert k != c;
    }
  }

  lemma NonAlnumBlocks(w: seq<byte>, c: nat, j: nat)
    requires c < |w| && !Alnum(w[c]) && j >= 1
    ensures !LocalThenDomain(w, c, j)
  {
    forall k | c + j <= k < |w|
      ensures !AlnumBetween(w, c, k)
    {
      assert !Alnum(w[c]);
    }
  }

  lemma AtStartsDomain(w: seq<byte>, c: nat)
    requires c < |w| && w[c] == AT
    ensures LocalThenDomain(w, c, 0) <==> Domain(w[c + 1..])
  {
    if Domain(w[c + 1..]) {
      assert AlnumBetween(w, c, c);
    }
    forall k | c < k < |w|
      ensures !AlnumBetween(w, c, k)
    {
      assert !Alnum(w[c]);
    }
  }

  lemma NothingLeft(w: seq<byte>, c: nat, j: nat)
    requires c == |w|
    ensures !LocalThenDomain(w, c, j)
  {
  }

  /** D moves to itself on every byte and never fails: once entered, the run
      stops in D. */
  lemma {:induction false} DeadAbsorbs(g: seq<StateView>, w: seq<byte>, c: nat)
    requires EmailLike(g) && c < |w|
    ensures Run(g, D, w, c).state == D && Run(g, D, w, c).error == FsmSuccess
    decreases MAX_INBUF_SIZE - c
  {
    if c < MAX_INBUF_SIZE {
      assert Select(g[D].table, w[c..]) == Selected(0, 1);
      RunAdvance(g, D, w, c, 0, 1);
      if c + 1 < |w| {
        DeadAbsorbs(g, w, c + 1);
      }
    }
  }

  /** F accepts only at the end of the input: any further byte leads to D. */
  lemma FinalThenDead(g: seq<StateView>, w: seq<byte>, c: nat)
    requires EmailLike(g) && c < |w| && c < MAX_INBUF_SIZE
    ensures Run(g, F, w, c).state == D && Run(g, F, w, c).error == FsmSuccess
  {
    assert Select(g[F].table, w[c..]) == Selected(0, 1);
    RunAdvance(g, F, w, c, 0, 1);
    if c + 1 < |w| {
      DeadAbsorbs(g, w, c + 1);
    }
  }

  /** q6 on input starting with "gmail.com": accepted exactly when nothing follows. */
  lemma DomainGmail(g: seq<StateView>, w: seq<byte>, c: nat)
    requires EmailLike(g) && c < |w| <= MAX_INBUF_SIZE
    requires |GMAIL| <= |w[c..]| && w[c..][..|GMAIL|] == GMAIL
    ensures Accepted(g, Q6, w, c) <==> Domain(w[c..])
  {
    var data := w[c..];
    assert Select(g[Q6].table, data) == Selected(0, |GMAIL|);
    RunAdvance(g, Q6, w, c, 0, |GMAIL|);
    if c + |GMAIL| < |w| {
      FinalThenDead(g, w, c + |GMAIL|);
      assert |data| != |GMAIL| && data[0] == GMAIL[0] != PROTON[0];
      assert !Domain(data);
    } else {
      assert data == GMAIL;
    }
  }

  /** q6 on input starting with "protonmail.com": accepted exactly when nothing follows. */
  lemma DomainProton(g: seq<StateView>, w: seq<byte>, c: nat)
    requires EmailLike(g) && c < |w| <= MAX_INBUF_SIZE
    requires !(|GMAIL| <= |w[c..]| && w[c..][..|GMAIL|] == GMAIL)
    requires |PROTON| <= |w[c..]| && w[c..][..|PROTON|] == PROTON
    ensures Accepted(g, Q6, w, c) <==> Domain(w[c..])
  {
    var data := w[c..];
    assert Select(g[Q6].table, data) == Selected(1, |PROTON|);
    RunAdvance(g, Q6, w, c, 1, |PROTON|);
    if c + |PROTON| < |w| {
      FinalThenDead(g, w, c + |PROTON|);
    } else {
      assert data == PROTON;
    }
    assert data != GMAIL;
  }

  /** q6 on any other input: the wildcard leads to D. */
  lemma DomainOther(g: seq<StateView>, w: seq<byte>, c: nat)
    requires EmailLike(g) && c < |w| <= MAX_INBUF_SIZE
    requires !(|GMAIL| <= |w[c..]| && w[c..][..|GMAIL|] == GMAIL)
    requires !(|PROTON| <= |w[c..]| && w[c..][..|PROTON|] == PROTON)
    ensures Accepted(g, Q6, w, c) <==> Domain(w[c..])
  {
    var data := w[c..];
    assert Select(g[Q6].table, data) == Selected(2, 1);
    RunAdvance(g, Q6, w, c, 2, 1);
    if c + 1 < |w| {
      DeadAbsorbs(g, w, c + 1);
    }
    assert data != GMAIL && data != PROTON;
  }

  /** q6 accepts exactly the rest of the input being a known domain. */
  lemma DomainState(g: seq<StateView>, w: seq<byte>, c: nat)
    requires EmailLike(g) && c < |w| <= MAX_INBUF_SIZE
    ensures Accepted(g, Q6, w, c) <==> Domain(w[c..])
  {
    var data := w[c..];
    if |GMAIL| <= |data| && data[..|GMAIL|] == GMAIL {
      DomainGmail(g, w, c);
    } else if |PROTON| <= |data| && data[..|PROTON|] == PROTON {
      DomainProton(g, w, c);
    } else {
      DomainOther(g, w, c);
    }
  }

  /** q5 accepts exactly what `LocalThenDomain(w, c, 0)` describes. */
  lemma {:induction false} LocalState(g: seq<StateView>, w: seq<byte>, c: nat)
    requires EmailLike(g) && c < |w| <= MAX_INBUF_SIZE
    ensures Accepted(g, Q5, w, c) <==> LocalThenDomain(w, c, 0)
    decreases |w| - c, 1
  {
    if Alnum(w[c]) {
      LocalAlnum(g, w, c);
    } else if w[c] == AT {
      LocalAt(g, w, c);
    } else {
      LocalOther(g, w, c);
    }
  }

  /** q5 loops on an alphanumeric byte. */
  lemma {:induction false} LocalAlnum(g: seq<StateView>, w: seq<byte>, c: nat)
    requires EmailLike(g) && c < |w| <= MAX_INBUF_SIZE && Alnum(w[c])
    ensures Accepted(g, Q5, w, c) <==> LocalThenDomain(w, c, 0)
    decreases |w| - c, 0
  {
    assert Select(g[Q5].table, w[c..]) == Selected(0, 1);
    RunAdvance(g, Q5, w, c, 0, 1);
    NotAtNeedsOneMore(w, c);
    ShiftLocal(w, c, 0);
    if c + 1 < |w| {
      assert Accepted(g, Q5, w, c) == Accepted(g, Q5, w, c + 1);
      LocalState(g, w, c + 1);
    } else {
      NothingLeft(w, c + 1, 0);
    }
  }

  /** q5 moves to q6 on '@'. */
  lemma LocalAt(g: seq<StateView>, w: seq<byte>, c: nat)
    requires EmailLike(g) && c < |w| <= MAX_INBUF_SIZE && !Alnum(w[c]) && w[c] == AT
    ensures Accepted(g, Q5, w, c) <==> LocalThenDomain(w, c, 0)
  {
    assert Select(g[Q5].table, w[c..]) == Selected(1, 1);
    RunAdvance(g, Q5, w, c, 1, 1);
    AtStartsDomain(w, c);
    if c + 1 < |w| {
      assert Accepted(g, Q5, w, c) == Accepted(g, Q6, w, c + 1);
      DomainState(g, w, c + 1);
    } else {
      assert w[c + 1..] == [];
    }
  }

  /** q5 moves to D on any other byte. */
  lemma LocalOther(g: seq<StateView>, w: seq<byte>, c: nat)
    requires EmailLike(g) && c < |w| <= MAX_INBUF_SIZE && !Alnum(w[c]) && w[c] != AT
    ensures Accepted(g, Q5, w, c) <==> LocalThenDomain(w, c, 0)
  {
    assert Select(g[Q5].table, w[c..]) == Selected(2, 1);
    RunAdvance(g, Q5, w, c, 2, 1);
    NotAtNeedsOneMore(w, c);
    NonAlnumBlocks(w, c, 1);
    if c + 1 < |w| {
      DeadAbsorbs(g, w, c + 1);
    }
  }

  /** The state needing `j` more alphanumerics accepts exactly what
      `LocalThenDomain(w, c, j)` describes. */
  lemma {:induction false} ClassState(g: seq<StateView>, j: nat, w: seq<byte>, c: nat)
    requires EmailLike(g) && 1 <= j <= 5 && c < |w| <= MAX_INBUF_SIZE
    ensures Accepted(g, Q5 + j, w, c) <==> LocalThenDomain(w, c, j)
    decreases j, 1
  {
    if Alnum(w[c]) {
      ClassAlnum(g, j, w, c);
    } else {
      ClassOther(g, j, w, c);
    }
  }

  /** An alphanumeric byte moves to the state needing one fewer. */
  lemma {:induction false} ClassAlnum(g: seq<StateView>, j: nat, w: seq<byte>, c: nat)
    requires EmailLike(g) && 1 <= j <= 5 && c < |w| <= MAX_INBUF_SIZE && Alnum(w[c])
    ensures Accepted(g, Q5 + j, w, c) <==> LocalThenDomain(w, c, j)
    decreases j, 0
  {
    assert ClassScan(g[Q5 + j].table, Q5 + j - 1);
    assert Select(g[Q5 + j].table, w[c..]) == Selected(0, 1);
    RunAdvance(g, Q5 + j, w, c, 0, 1);
    ShiftLocal(w, c, j - 1);
    if c + 1 < |w| {
      assert Accepted(g, Q5 + j, w, c) == Accepted(g, Q5 + j - 1, w, c + 1);
      if j == 1 {
        LocalState(g, w, c + 1);
      } else {
        ClassState(g, j - 1, w, c + 1);
      }
    } else {
      NothingLeft(w, c + 1, j - 1);
    }
  }

  /** Any other byte leads to D. */
  lemma ClassOther(g: seq<StateView>, j: nat, w: seq<byte>, c: nat)
    requires EmailLike(g) && 1 <= j <= 5 && c < |w| <= MAX_INBUF_SIZE && !Alnum(w[c])
    ensures Accepted(g, Q5 + j, w, c) <==> LocalThenDomain(w, c, j)
  {
    assert ClassScan(g[Q5 + j].table, Q5 + j - 1);
    assert Select(g[Q5 + j].table, w[c..]) == Selected(1, 1);
    RunAdvance(g, Q5 + j, w, c, 1, 1);
    NonAlnumBlocks(w, c, j);
    if c + 1 < |w| {
      DeadAbsorbs(g, w, c + 1);
    }
  }

  /** Every state matches every non-empty input: each table ends with a
      wildcard. */
  lemma EmailLikeTotal(g: seq<StateView>)
    requires EmailLike(g)
    ensures forall s :: 0 <= s < |g| ==> TotalOnNonEmpty(g[s].table)
  {
    forall s | 0 <= s < |g|
      ensures TotalOnNonEmpty(g[s].table)
    {
      if s > Q5 {
        assert ClassScan(g[s].table, s - 1);
      }
    }
  }

  /** The language of the validator: on inputs that fit the input buffer it
      accepts exactly `EmailShape`; it never fails on non-empty input, and
      fails its first transition on empty input. */
  lemma EmailLanguage(w: seq<byte>)
    ensures WellFormed(EmailGraph())
    ensures |w| <= MAX_INBUF_SIZE ==> (Accepted(EmailGraph(), Q0, w, 0) <==> EmailShape(w))
    ensures |w| > 0 ==> Run(EmailGraph(), Q0, w, 0).error == FsmSuccess
    ensures |w| == 0 ==> Run(EmailGraph(), Q0, w, 0).error == FailedTransition
  {
    var g := EmailGraph();
    EmailGraphIsEmailLike();
    if |w| == 0 {
      assert ClassScan(g[Q0].table, Q5 + 4);
      assert Select(g[Q0].table, w[0..]) == NoMatch;
      RunNoMatch(g, Q0, w, 0);
    } else {
      EmailLikeTotal(g);
      TotalMachineSucceeds(g, Q0, w, 0);
      if |w| <= MAX_INBUF_SIZE {
        ClassState(g, 5, w, 0);
      }
    }
  }

  // ---------------------------------------------------------------------
  // Building the machine as `main` does, and running it.

  /** The pattern `main` repeats for q0..q5: an empty-key entry to `to` in the
      first free slot, with `match_digit`, `match_alpha_lower` and
      `match_alpha_upper` registered on it in that order. */
  method AddClassEntry(s: State, to: StateId) returns (ok: bool)
    requires s.table.Length == MAX_TRANSITION_TABLE_SIZE
    modifies s.table
    ensures ok <==> FirstFree(old(s.table[..])).Some?
    ensures ok ==> var k := FirstFree(old(s.table[..])).value;
      s.table[..] == old(s.table[..])[k := old(s.table[k]).(key := [], next := Some(to), handler := None,
        matchers := Registered(Registered(Registered(old(s.table[k].matchers), Digit), AlphaLower), AlphaUpper))]
    ensures !ok ==> s.table[..] == old(s.table[..])
  {
    var slot := GetNextAvailEntry(s.table);
    ok := AddEntry(s.table, [], Some(to), None);
    if ok {
      RegisterEntryComparator(s.table, slot.value, Digit);
      RegisterEntryComparator(s.table, slot.value, AlphaLower);
      RegisterEntryComparator(s.table, slot.value, AlphaUpper);
    }
  }

  /** `fsm_add_entry` of a literal on a table laid out as `TableOf(es)`:
      the literal lands just after `es`. */
  method AddLiteralEntry(t: array<Entry>, ghost es: seq<Entry>, ghost es': seq<Entry>, key: Key, to: StateId)
    requires t.Length == MAX_TRANSITION_TABLE_SIZE
    requires |es| < MAX_TRANSITION_TABLE_SIZE && forall i :: 0 <= i < |es| ==> es[i].next.Some?
    requires t[..] == TableOf(es) && es' == es + [Literal(key, to)]
    modifies t
    ensures t[..] == TableOf(es')
  {
    TableOfAppend(es, Literal(key, to));
    var ok := AddEntry(t, key, Some(to), None);
  }

  /** `add_wildcard_entry` on a table laid out as `TableOf(es)`: the
      wildcard lands just after `es`. */
  method AddWildcardAfter(s: State, ghost es: seq<Entry>, ghost es': seq<Entry>, to: StateId)
    requires s.table.Length == MAX_TRANSITION_TABLE_SIZE
    requires |es| < MAX_TRANSITION_TABLE_SIZE && forall i :: 0 <= i < |es| ==> es[i].next.Some?
    requires s.table[..] == TableOf(es) && es' == es + [Wildcard(to)]
    modifies s.table
    ensures s.table[..] == TableOf(es')
  {
    TableOfAppend(es, Wildcard(to));
    RegisteredOnFree(AnyChar);
    var ok := AddWildcardEntry(s, to, None, AnyChar);
  }

  /** D and F: a single wildcard entry to D. */
  method NewWildcardState(name: string, isFinal: bool) returns (s: State)
    ensures fresh(s) && fresh(s.table) && s.isFinal == isFinal
    ensures s.table.Length == MAX_TRANSITION_TABLE_SIZE && s.table[..] == DeadTable()
  {
    var st := StateInit(Some(name), isFinal);
    s := st;
    TableOfAppend([], Wildcard(D));
    RegisteredOnFree(AnyChar);
    var ok := AddWildcardEntry(s, D, None, AnyChar);
    assert s.table[..] == TableOf([])[0 := Wildcard(D)];
  }

  /** A state with two literal entries to `to`, then the wildcard to D. */
  method NewLiteralPairState(name: string, k1: Key, k2: Key, to: StateId) returns (s: State)
    ensures fresh(s) && fresh(s.table) && !s.isFinal
    ensures s.table.Length == MAX_TRANSITION_TABLE_SIZE && s.table[..] == TableOf([Literal(k1, to), Literal(k2, to), Wildcard(D)])
  {
    var st := StateInit(Some(name), false);
    s := st;
    assert s.table[..] == TableOf([]);
    AddLiteralEntry(s.table, [], [Literal(k1, to)], k1, to);
    AddLiteralEntry(s.table, [Literal(k1, to)], [Literal(k1, to), Literal(k2, to)], k2, to);
    AddWildcardAfter(s, [Literal(k1, to), Literal(k2, to)], [Literal(k1, to), Literal(k2, to), Wildcard(D)], D);
  }

  /** q6: the two domain literals to F, then the wildcard to D. */
  method NewDomainState() returns (s: State)
    ensures fresh(s) && fresh(s.table) && !s.isFinal
    ensures s.table.Length == MAX_TRANSITION_TABLE_SIZE && s.table[..] == DomainTable()
  {
    s := NewLiteralPairState("q6", GMAIL, PROTON, F);
  }

  /** q5: the class entry looping on q5, the '@' literal to q6, the wildcard. */
  method NewLocalState() returns (s: State)
    ensures fresh(s) && fresh(s.table) && !s.isFinal
    ensures s.table.Length == MAX_TRANSITION_TABLE_SIZE && s.table[..] == LocalTable()
  {
    var st := StateInit(Some("q5"), false);
    s := st;
    TableOfAppend([], ClassEntry(Q5));
    RegisteredOnFree(AnyChar);
    var ok := AddClassEntry(s, Q5);
    assert s.table[..] == TableOf([ClassEntry(Q5)]);
    TableOfAppend([ClassEntry(Q5)], Literal([AT], Q6));
    ok := AddEntry(s.table, [AT], Some(Q6), None);
    assert s.table[..] == TableOf([ClassEntry(Q5), Literal([AT], Q6)]);
    TableOfAppend([ClassEntry(Q5), Literal([AT], Q6)], Wildcard(D));
    RegisteredOnFree(AnyChar);
    ok := AddWildcardEntry(s, D, None, AnyChar);
    assert s.table[..] == TableOf([ClassEntry(Q5), Literal([AT], Q6)])[2 := Wildcard(D)];
  }

  /** q1..q4: the class entry to `to`, then the wildcard. */
  method NewClassState(name: string, to: StateId) returns (s: State)
    ensures fresh(s) && fresh(s.table) && !s.isFinal
    ensures s.table.Length == MAX_TRANSITION_TABLE_SIZE && s.table[..] == ClassTable(to)
  {
    var st := StateInit(Some(name), false);
    s := st;
    TableOfAppend([], ClassEntry(to));
    RegisteredOnFree(AnyChar);
    var ok := AddClassEntry(s, to);
    assert s.table[..] == TableOf([ClassEntry(to)]);
    TableOfAppend([ClassEntry(to)], Wildcard(D));
    RegisteredOnFree(AnyChar);
    ok := AddWildcardEntry(s, D, None, AnyChar);
    assert s.table[..] == TableOf([ClassEntry(to)])[1 := Wildcard(D)];
  }

  /** q4..q0, the chain of class states leading to q5. */
  method NewClassStates() returns (q4: State, q3: State, q2: State, q1: State, q0: State)
    ensures fresh(q4) && fresh(q4.table) && !q4.isFinal && q4.table[..] == ClassTable(Q5)
    ensures fresh(q3) && fresh(q3.table) && !q3.isFinal && q3.table[..] == ClassTable(Q5 + 1)
    ensures fresh(q2) && fresh(q2.table) && !q2.isFinal && q2.table[..] == ClassTable(Q5 + 2)
    ensures fresh(q1) && fresh(q1.table) && !q1.isFinal && q1.table[..] == ClassTable(Q5 + 3)
    ensures fresh(q0) && fresh(q0.table) && !q0.isFinal && q0.table[..] == ClassTable(Q5 + 4)
  {
    q4 := NewClassState("q4", Q5);
    q3 := NewClassState("q3", Q5 + 1);
    q2 := NewClassState("q2", Q5 + 2);
    q1 := NewClassState("q1", Q5 + 3);
    q0 := NewClassState("q0", Q5 + 4);
  }

  /** Nine states holding the flags and tables of `EmailGraph()`, in order,
      form that arena. */
  lemma EmailArena(d: State, f: State, q6: State, q5: State, q4: State,
                   q3: State, q2: State, q1: State, q0: State)
    requires !d.isFinal && d.table[..] == DeadTable() && f.isFinal && f.table[..] == DeadTable()
    requires !q6.isFinal && q6.table[..] == DomainTable() && !q5.isFinal && q5.table[..] == LocalTable()
    requires !q4.isFinal && q4.table[..] == ClassTable(Q5) && !q3.isFinal && q3.table[..] == ClassTable(Q5 + 1)
    requires !q2.isFinal && q2.table[..] == ClassTable(Q5 + 2) && !q1.isFinal && q1.table[..] == ClassTable(Q5 + 3)
    requires !q0.isFinal && q0.table[..] == ClassTable(Q5 + 4)
    ensures View([d, f, q6, q5, q4, q3, q2, q1, q0]) == EmailGraph()
  {
    ViewOf([d, f, q6, q5, q4, q3, q2, q1, q0], EmailGraph());
  }

  /** The builder calls of `main` (examples/email_validator/main.c:90-344):
      the arena they produce is `EmailGraph()`, with q0 initial. */
  method BuildEmailValidator() returns (fsm: Machine, states: seq<State>)
    ensures fresh(fsm) && fresh(fsm.outbuf) && fsm.Valid() && fsm.inbufSize == 0
    ensures fsm.initial == Some(Q0)
    ensures View(states) == EmailGraph()
  {
    var m := FsmInit("Email Validator");
    fsm := m;
    var s0 := StateInit(Some("S0"), true);
    var d := NewWildcardState("D", false);
    var f := NewWildcardState("F", true);
    var q6 := NewDomainState();
    var q5 := NewLocalState();
    var q4, q3, q2, q1, q0 := NewClassStates();
    var ok := fsm.SetInitialState(Some(Q0));
    states := [d, f, q6, q5, q4, q3, q2, q1, q0];
    EmailArena(d, f, q6, q5, q4, q3, q2, q1, q0);
  }

  /** Build the validator and invoke it on `input` with the internal output
      buffer: empty input fails the first transition; any other input
      succeeds, and on inputs that fit the input buffer the result is true
      exactly for `EmailShape`. */
  method ValidateEmail(input: seq<byte>) returns (err: FsmError, result: Option<bool>)
    ensures result.Some?
    ensures |input| == 0 ==> err == FailedTransition && result == Some(false)
    ensures |input| > 0 ==> err == FsmSuccess
    ensures |input| <= MAX_INBUF_SIZE ==> (result == Some(true) <==> EmailShape(input))
  {
    var fsm, states := BuildEmailValidator();
    EmailGraphWellFormed();
    EmailLanguage(input);
    err, result := fsm.Invoke(states, input, null);
  }

  const SAMPLE: seq<byte> := Ascii("email@gmail.com")
  const YAHOO: seq<byte> := Ascii("email@yahoo.com")

  lemma SampleIsEmail()
    ensures EmailShape(SAMPLE)
  {
    assert AlnumBetween(SAMPLE, 0, 5);
    assert SAMPLE[6..] == GMAIL;
  }

  lemma YahooIsNotEmail()
    ensures !EmailShape(YAHOO)
  {
    forall k | 5 <= k < |YAHOO|
      ensures !(AlnumBetween(YAHOO, 0, k) && YAHOO[k] == AT && Domain(YAHOO[k + 1..]))
    {
      if k > 5 {
        assert !Alnum(YAHOO[5]);
      } else {
        assert YAHOO[6] != GMAIL[0];
        assert |YAHOO[6..]| != |PROTON|;
      }
    }
  }

  /** From a state `q` of q4..q0, which needs `q - Q5` more alphanumerics,
      the alphanumerics `w[c..e]` (as many as it needs) lead the run to q5. */
  lemma {:induction false} ClassRunsThrough(g: seq<StateView>, q: StateId, w: seq<byte>, c: nat, e: nat)
    requires EmailLike(g) && Q5 <= q <= Q0 && e == c + (q - Q5)
    requires e < |w| && e < MAX_INBUF_SIZE && AlnumBetween(w, c, e)
    ensures Run(g, q, w, c).state == Run(g, Q5, w, e).state
    ensures Run(g, q, w, c).error == Run(g, Q5, w, e).error
    decreases e - c
  {
    if c < e {
      assert Alnum(w[c]);
      ClassStep(g, q, w, c);
      assert AlnumBetween(w, c + 1, e);
      ClassRunsThrough(g, q - 1, w, c + 1, e);
    }
  }

  /** One alphanumeric moves a state `q` of q4..q0 to `q - 1`. */
  lemma ClassStep(g: seq<StateView>, q: StateId, w: seq<byte>, c: nat)
    requires EmailLike(g) && Q5 < q <= Q0 && c + 1 < |w| && c < MAX_INBUF_SIZE && Alnum(w[c])
    ensures Run(g, q, w, c).state == Run(g, q - 1, w, c + 1).state
    ensures Run(g, q, w, c).error == Run(g, q - 1, w, c + 1).error
  {
    assert ClassScan(g[q].table, q - 1);
    assert Select(g[q].table, w[c..]) == Selected(0, 1);
    RunAdvance(g, q, w, c, 0, 1);
  }

  /** In q5, the alphanumerics `w[c..e]` keep the run in q5, while the
      cursor stays under the cap. */
  lemma {:induction false} LocalRunsThrough(g: seq<StateView>, w: seq<byte>, c: nat, e: nat)
    requires EmailLike(g) && c <= e < |w| && e < MAX_INBUF_SIZE && AlnumBetween(w, c, e)
    ensures Run(g, Q5, w, c).state == Run(g, Q5, w, e).state
    ensures Run(g, Q5, w, c).error == Run(g, Q5, w, e).error
    decreases e - c
  {
    if c < e {
      assert Alnum(w[c]);
      LocalStep(g, w, c);
      assert AlnumBetween(w, c + 1, e);
      LocalRunsThrough(g, w, c + 1, e);
    }
  }

  /** One alphanumeric keeps the run in q5. */
  lemma LocalStep(g: seq<StateView>, w: seq<byte>, c: nat)
    requires EmailLike(g) && c + 1 < |w| && c < MAX_INBUF_SIZE && Alnum(w[c])
    ensures Run(g, Q5, w, c).state == Run(g, Q5, w, c + 1).state
    ensures Run(g, Q5, w, c).error == Run(g, Q5, w, c + 1).error
  {
    assert LocalScan(g[Q5].table);
    assert Select(g[Q5].table, w[c..]) == Selected(0, 1);
    RunAdvance(g, Q5, w, c, 0, 1);
  }

  /** 120 alphanumerics, '@', "gmail.com", then 20 more alphanumerics: 150
      bytes, longer than the input buffer. */
  const LONG: seq<byte> := seq(120, i => 97) + [AT] + GMAIL + seq(20, i => 97)

  lemma LongLayout()
    ensures |LONG| == 150 && LONG[120] == AT && LONG[121..][..|GMAIL|] == GMAIL
    ensures forall i :: 0 <= i < 120 ==> LONG[i] == 97
    ensures |LONG[121..]| == 29
  {
    var a: seq<byte> := seq(120, i => 97);
    var b: seq<byte> := seq(20, i => 97);
    assert LONG == a + [AT] + GMAIL + b;
    assert LONG[121..] == GMAIL + b;
    assert (GMAIL + b)[..|GMAIL|] == GMAIL;
  }

  /** In q6 at cursor 121, "gmail.com" takes the cursor to 130, past the cap:
      the loop's guard fails there and the run stops in F. */
  lemma LongDomainPastCap(g: seq<StateView>)
    requires EmailLike(g)
    ensures |LONG| == 150
    ensures Run(g, Q6, LONG, 121).error == FsmSuccess && Run(g, Q6, LONG, 121).state == F
  {
    LongLayout();
    var data := LONG[121..];
    assert Select(g[Q6].table, data) == Selected(0, |GMAIL|);
    RunAdvance(g, Q6, LONG, 121, 0, |GMAIL|);
    assert Run(g, F, LONG, 130) == RunOutcome(FsmSuccess, F, 130, []);
  }

  /** The run on `LONG` from q0 succeeds and stops in F. */
  lemma LongRunsToFinal(g: seq<StateView>)
    requires EmailLike(g)
    ensures |LONG| == 150
    ensures Run(g, Q0, LONG, 0).error == FsmSuccess && Run(g, Q0, LONG, 0).state == F
    ensures Accepted(g, Q0, LONG, 0)
  {
    LongToAt(g);
    LongFromAt(g);
    assert g[F].isFinal;
  }

  /** The 120 leading alphanumerics take the run from q0 to q5 at the '@'. */
  lemma LongToAt(g: seq<StateView>)
    requires EmailLike(g)
    ensures |LONG| == 150
    ensures Run(g, Q0, LONG, 0).state == Run(g, Q5, LONG, 120).state
    ensures Run(g, Q0, LONG, 0).error == Run(g, Q5, LONG, 120).error
  {
    LongLayout();
    assert AlnumBetween(LONG, 0, 120);
    AlnumPrefixToAt(g, LONG, 120);
  }

  /** From q0, an alphanumeric prefix `w[..e]` of at least five bytes leaves
      the run in q5 at cursor `e`, while the cursor stays under the cap. */
  lemma AlnumPrefixToAt(g: seq<StateView>, w: seq<byte>, e: nat)
    requires EmailLike(g) && 5 <= e < |w| && e < MAX_INBUF_SIZE && AlnumBetween(w, 0, e)
    ensures Run(g, Q0, w, 0).state == Run(g, Q5, w, e).state
    ensures Run(g, Q0, w, 0).error == Run(g, Q5, w, e).error
  {
    assert AlnumBetween(w, 0, 5);
    ClassRunsThrough(g, Q0, w, 0, 5);
    assert AlnumBetween(w, 5, e);
    LocalRunsThrough(g, w, 5, e);
  }

  /** In q5 at cursor 120, the '@' moves the run to q6, which stops in F. */
  lemma LongFromAt(g: seq<StateView>)
    requires EmailLike(g)
    ensures |LONG| == 150
    ensures Run(g, Q5, LONG, 120).error == FsmSuccess && Run(g, Q5, LONG, 120).state == F
  {
    LongLayout();
    assert !Alnum(LONG[120]);
    assert Select(g[Q5].table, LONG[120..]) == Selected(1, 1);
    RunAdvance(g, Q5, LONG, 120, 1, 1);
    LongDomainPastCap(g);
  }

  /** `LONG` is not an address: its one '@' is followed by 29 bytes. */
  lemma LongIsNotEmail()
    ensures !EmailShape(LONG)
  {
    LongLayout();
    forall k | 5 <= k < |LONG|
      ensures !(AlnumBetween(LONG, 0, k) && LONG[k] == AT && Domain(LONG[k + 1..]))
    {
      if k > 120 {
        assert !Alnum(LONG[120]);
      } else if k < 120 {
        assert LONG[k] != AT;
      } else {
        assert |LONG[k + 1..]| != |GMAIL| && |LONG[k + 1..]| != |PROTON|;
      }
    }
  }

  /** On an input longer than the buffer, the built machine can report an
      address that `EmailShape` rejects: the cursor cap ends the run in F
      before the trailing bytes are read. */
  lemma CapAcceptsNonAddress()
    ensures WellFormed(EmailGraph()) && |LONG| == 150 && !EmailShape(LONG)
    ensures Accepted(EmailGraph(), Q0, LONG, 0)
  {
    EmailGraphIsEmailLike();
    LongRunsToFinal(EmailGraph());
    LongIsNotEmail();
  }

  /** In q6, "yahoo.com" is neither known domain: the wildcard sends the run
      to D. */
  lemma YahooDomainToDead(g: seq<StateView>)
    requires EmailLike(g)
    ensures |YAHOO| == 15 && Run(g, Q6, YAHOO, 6).state == D
  {
    assert |YAHOO| == 15;
    var data := YAHOO[6..];
    assert data[0] != GMAIL[0] && |data| < |PROTON|;
    assert Select(g[Q6].table, data) == Selected(2, 1);
    RunAdvance(g, Q6, YAHOO, 6, 2, 1);
    DeadAbsorbs(g, YAHOO, 7);
  }

  /** In q5, the '@' of "email@yahoo.com" moves the run to q6, and from there to D. */
  lemma YahooFromAt(g: seq<StateView>)
    requires EmailLike(g)
    ensures |YAHOO| == 15 && Run(g, Q5, YAHOO, 5).state == D
  {
    assert |YAHOO| == 15;
    assert YAHOO[5] == AT && !Alnum(YAHOO[5]);
    assert Select(g[Q5].table, YAHOO[5..]) == Selected(1, 1);
    RunAdvance(g, Q5, YAHOO, 5, 1, 1);
    YahooDomainToDead(g);
  }

  /** "email@yahoo.com" reads through the local part and the '@' into q6,
      where the unknown domain sends it to D, and it stops there. */
  lemma YahooFallsIntoDead(g: seq<StateView>)
    requires EmailLike(g)
    ensures Run(g, Q0, YAHOO, 0).state == D
  {
    assert |YAHOO| == 15;
    assert AlnumBetween(YAHOO, 0, 5);
    ClassRunsThrough(g, Q0, YAHOO, 0, 5);
    YahooFromAt(g);
  }

  /** The machine `main` builds runs "email@yahoo.com" into D. */
  lemma YahooRunEndsInDead()
    ensures WellFormed(EmailGraph())
    ensures Run(EmailGraph(), Q0, YAHOO, 0).state == D
  {
    EmailGraphIsEmailLike();
    YahooFallsIntoDead(EmailGraph());
  }

  /** `main` (examples/email_validator/main.c:87-364): "email@gmail.com" is
      accepted. */
  method EmailValidatorMain() returns (err: FsmError, result: Option<bool>)
    ensures err == FsmSuccess && result == Some(true)
  {
    SampleIsEmail();
    err, result := ValidateEmail(SAMPLE);
  }

  /** "email@yahoo.com" runs to completion and is rejected. */
  method RejectYahoo() returns (err: FsmError, result: Option<bool>)
    ensures err == FsmSuccess && result == Some(false)
  {
    YahooIsNotEmail();
    assert |YAHOO| == 15;
    err, result := ValidateEmail(YAHOO);
    assert result != Some(true);
    assert !result.value;
  }
}
