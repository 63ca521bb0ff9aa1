/**
  The futex stand-in of `src/genmc_spinsemaphore_test.c`: waiters that loop
  until they find a token, wakers that hand out tokens, and the packed word
  that both share.  Every step is one section under the mutex.
 */
module FutexModel {

  // ----- The packed word -----

  const TOKENS_MASK: bv64 := 0xffff_ffff
  const SPINNER_MASK: bv64 := 0x1_0000_0000
  const FUTEX_WAKE_MASK: bv64 := 0xfe_0000_0000
  const FUTEX_WOKE_BIT: bv64 := 0x100_0000_0000
  const FUTEX_WOKE_MASK: bv64 := 0xff00_0000_0000
  const ONE_WAITER: bv64 := 0x1_0000_0000_0000

  /** The fields overlap nowhere, and with the number of waiters above them they fill the word. */
  lemma FieldsPartitionWord()
    ensures TOKENS_MASK | SPINNER_MASK | FUTEX_WAKE_MASK | FUTEX_WOKE_MASK == ONE_WAITER - 1
    ensures TOKENS_MASK & SPINNER_MASK == 0 && (TOKENS_MASK | SPINNER_MASK) & FUTEX_WAKE_MASK == 0
    ensures (TOKENS_MASK | SPINNER_MASK | FUTEX_WAKE_MASK) & FUTEX_WOKE_MASK == 0
  {
  }

  function Tokens(word: bv64): bv64 {
    word & TOKENS_MASK
  }

  function Woke(word: bv64): bv64 {
    (word & FUTEX_WOKE_MASK) >> 40
  }

  function Waiters(word: bv64): bv64 {
    word >> 48
  }

  /**
    Adding one woken thread never changes the fields below; it counts in its
    own field and leaves the number of waiters alone exactly while that field
    is not full.
   */
  lemma AddWokeBit(word: bv64)
    ensures (word + FUTEX_WOKE_BIT) & (FUTEX_WOKE_BIT - 1) == word & (FUTEX_WOKE_BIT - 1)
    ensures Woke(word + FUTEX_WOKE_BIT) == Woke(word) + 1 <==> Woke(word) < 255
    ensures Waiters(word + FUTEX_WOKE_BIT) == Waiters(word) <==> Woke(word) < 255
  {
  }

  // ----- The protocol -----

  type Thread = nat

  /**
    `waiting` are the threads that are in the token loop; `woken` is the sum
    of all values that `futex_wake` returned and `grabbed` counts the tokens
    that were taken.
   */
  datatype State = State(word: bv64, ntokens: int, nwaiters: int, waiting: set<Thread>, woken: int, grabbed: int)

  datatype Event =
    | Wait(thread: Thread, expected: bv64)
    | Poll(thread: Thread)
    | Wake(n: nat)
    | OtherWord(word: bv64)

  /**
    A thread is in at most one call, and expects a value of 32 bits; the code
    that is not modelled may change the word at any time.
   */
  predicate Enabled(s: State, e: Event) {
    match e
    case Wait(t, expected) => t !in s.waiting && expected <= TOKENS_MASK
    case Poll(t) => t in s.waiting
    case Wake(n) => n < 0x1_0000_0000
    case OtherWord(_) => true
  }

  function WokenUp(s: State, n: nat): int {
    var actualWaiters := s.nwaiters - s.ntokens;
    if n <= actualWaiters then n else actualWaiters
  }

  function Next(s: State, e: Event): State
    requires Enabled(s, e)
  {
    match e
    case Wait(t, expected) =>
      if Tokens(s.word) == expected
      then s.(nwaiters := s.nwaiters + 1, waiting := s.waiting + {t})
      else s
    case Poll(t) =>
      if s.ntokens > 0
      then s.(word := s.word + FUTEX_WOKE_BIT, ntokens := s.ntokens - 1, nwaiters := s.nwaiters - 1,
              waiting := s.waiting - {t}, grabbed := s.grabbed + 1)
      else s
    case Wake(n) =>
      s.(ntokens := s.ntokens + WokenUp(s, n), woken := s.woken + WokenUp(s, n))
    case OtherWord(word) => s.(word := word)
  }

  ghost predicate Inv(s: State) {
    && s.nwaiters == |s.waiting|
    && 0 <= s.ntokens <= s.nwaiters
    && s.woken == s.grabbed + s.ntokens
    && s.grabbed >= 0
  }

  lemma NextKeepsInv(s: State, e: Event)
    requires Inv(s) && Enabled(s, e)
    ensures Inv(Next(s, e))
  {
  }

  function Init(word: bv64): State {
    State(word, 0, 0, {}, 0, 0)
  }

  ghost predicate Legal(s: State, events: seq<Event>)
    decreases events
  {
    events == [] || (Enabled(s, events[0]) && Legal(Next(s, events[0]), events[1..]))
  }

  ghost function Run(s: State, events: seq<Event>): State
    requires Legal(s, events)
    decreases events
  {
    if events == [] then s else Run(Next(s, events[0]), events[1..])
  }

  /**
    In every run the assertion of `futex_wake` holds, the waiters are the
    threads in the token loop, and the values that `futex_wake` returned add
    up to the tokens grabbed and the tokens left.
   */
  lemma {:induction false} RunKeepsInv(s: State, events: seq<Event>)
    requires Inv(s) && Legal(s, events)
    ensures Inv(Run(s, events))
    decreases events
  {
    if events != [] {
      NextKeepsInv(s, events[0]);
      RunKeepsInv(Next(s, events[0]), events[1..]);
    }
  }

  lemma EveryRun(word: bv64, events: seq<Event>)
    requires Legal(Init(word), events)
    ensures var s := Run(Init(word), events);
            && s.ntokens <= s.nwaiters == |s.waiting|
            && s.woken == s.grabbed + s.ntokens
  {
    RunKeepsInv(Init(word), events);
  }

  // ----- What the steps do with the word -----

  /** The number of tokens is the low half of the word, whatever else is set. */
  lemma TokensOf(high: bv64, tokens: bv64)
    requires high & TOKENS_MASK == 0 && tokens <= TOKENS_MASK
    ensures Tokens(high | tokens) == tokens
  {
  }

  /** A thread starts to wait exactly if the number of tokens is what it expects. */
  lemma WaitAccepts(s: State, t: Thread, tokens: bv64, expected: bv64)
    requires Inv(s) && Enabled(s, Wait(t, expected)) && Tokens(s.word) == tokens
    ensures Next(s, Wait(t, expected)).waiting == if tokens == expected then s.waiting + {t} else s.waiting
  {
  }

  /** A thread that looks leaves exactly if there is a token, and the word says so. */
  lemma PollLeaves(s: State, t: Thread)
    requires Inv(s) && Enabled(s, Poll(t))
    ensures var s' := Next(s, Poll(t));
            && s'.waiting == (if s.ntokens > 0 then s.waiting - {t} else s.waiting)
            && s'.word == if s.ntokens > 0 then s.word + FUTEX_WOKE_BIT else s.word
  {
  }

  /** The code that is not modelled can leave any word, but touches neither tokens nor waiters. */
  lemma AnyWord(s: State, word: bv64)
    requires Inv(s)
    ensures Enabled(s, OtherWord(word)) && Next(s, OtherWord(word)).word == word && Inv(Next(s, OtherWord(word)))
    ensures Next(s, OtherWord(word)).waiting == s.waiting && Next(s, OtherWord(word)).ntokens == s.ntokens
  {
  }

  // ----- Tokens are not lost -----

  /** A step of `futex_wait` in its loop. */
  ghost predicate OnlyPolls(events: seq<Event>) {
    forall e | e in events :: e.Poll?
  }

  /**
    While nobody starts to wait or wakes anybody, exactly one thread leaves
    for every token, whoever looks first, and the others keep waiting.
   */
  lemma {:induction false} PollsTakeTokens(s: State, events: seq<Event>)
    requires Inv(s) && Legal(s, events) && OnlyPolls(events)
    ensures var s' := Run(s, events);
            && s'.waiting <= s.waiting && s'.ntokens <= s.ntokens
            && |s.waiting| - |s'.waiting| == s.ntokens - s'.ntokens
            && (forall t | Poll(t) in events :: t in s'.waiting ==> s'.ntokens == 0)
    decreases events
  {
    if events != [] {
      assert events[0] in events;
      var s1, rest := Next(s, events[0]), events[1..];
      assert forall e | e in rest :: e in events;
      NextKeepsInv(s, events[0]);
      PollsTakeTokens(s1, rest);
      RunKeepsInv(s1, rest);
      assert forall t | Poll(t) in events :: Poll(t) == events[0] || Poll(t) in rest;
    }
  }

  /** If every waiting thread looks for a token once, as many leave as there were tokens. */
  lemma AllPollsDrain(s: State, events: seq<Event>)
    requires Inv(s) && Legal(s, events) && OnlyPolls(events)
    requires forall t | t in s.waiting :: Poll(t) in events
    ensures Run(s, events).ntokens == 0
    ensures |Run(s, events).waiting| == |s.waiting| - s.ntokens
  {
    PollsTakeTokens(s, events);
    RunKeepsInv(s, events);
    var s' := Run(s, events);
    if s'.waiting == {} {
      assert s'.nwaiters == 0;
    } else {
      var t :| t in s'.waiting;
      assert Poll(t) in events;
    }
  }

  /** A wake-up reaches as many threads as asked for, or all that are not woken yet. */
  lemma WakeReaches(s: State, n: nat)
    requires Inv(s) && Enabled(s, Wake(n))
    ensures var s' := Next(s, Wake(n));
            && 0 <= WokenUp(s, n) <= n
            && (WokenUp(s, n) < n ==> s'.ntokens == |s'.waiting|)
  {
  }
}
