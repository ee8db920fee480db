/** The retry loop itself: sends and sleeps on a shared session, proved to
    produce the ledger that the outcomes of its sends determine. */
module RetryLoop {
  import opened Wrappers
  import opened Failures
  import opened Backoff
  import opened Retrying

  /** What one send returns: a value and possibly an error. */
  datatype Reply<+T> = Reply(value: T, err: Option<Failure>)

  datatype Event = Sent(number: nat) | Slept(nanoseconds: int)

  function PassingCount(w: seq<Outcome>): (n: nat)
    ensures n <= |w|
  {
    if w == [] then 0 else PassingCount(w[..|w| - 1]) + if w[|w| - 1].Passing? then 1 else 0
  }

  /** The sleep after the k-th outcome: the rate-limit wait after a 429, else the
      backoff whose attempt number is the number of transient failures so far. */
  function Pause(base: int, w: seq<Outcome>, k: nat, draws: nat -> real, drawn: nat): int
    requires k < |w|
  {
    match w[k]
    case RateLimited(a) => RateWait(a)
    case Passing =>
      var n := PassingCount(w[..k + 1]);
      BackoffWait(n, base, draws(drawn + if n > 0 then n - 1 else 0))
    case _ => 0
  }

  /** Sends and sleeps alternate; a run begins and ends with a send. */
  function Ledger(base: int, w: seq<Outcome>, draws: nat -> real, drawn: nat, sent: nat): (events: seq<Event>)
    requires w != []
    ensures |events| == 2 * |w| - 1
  {
    seq(2 * |w| - 1, e requires 0 <= e < 2 * |w| - 1 =>
      if e % 2 == 0 then Sent(sent + e / 2) else Slept(Pause(base, w, e / 2, draws, drawn)))
  }

  lemma LedgerGrows(base: int, w: seq<Outcome>, o: Outcome, draws: nat -> real, drawn: nat, sent: nat)
    requires w != []
    ensures Ledger(base, w + [o], draws, drawn, sent) ==
            Ledger(base, w, draws, drawn, sent) + [Slept(Pause(base, w, |w| - 1, draws, drawn)), Sent(sent + |w|)]
  {
    var longer := Ledger(base, w + [o], draws, drawn, sent);
    var grown := Ledger(base, w, draws, drawn, sent) + [Slept(Pause(base, w, |w| - 1, draws, drawn)), Sent(sent + |w|)];
    forall e | 0 <= e < |longer| ensures longer[e] == grown[e] {
      if e % 2 == 1 {
        assert (w + [o])[..e / 2 + 1] == w[..e / 2 + 1];
      }
    }
  }

  lemma PassingCountGrows(w: seq<Outcome>, o: Outcome)
    ensures PassingCount(w + [o]) == PassingCount(w) + if o.Passing? then 1 else 0
  {
  }

  /** The transient failures among a series of outcomes. */
  lemma {:induction false} PassingCountIs(w: seq<Outcome>)
    ensures PassingCount(w) == multiset(w)[Passing]
  {
    if w == [] {
    } else {
      PassingCountIs(w[..|w| - 1]);
      assert w == w[..|w| - 1] + [w[|w| - 1]];
    }
  }

  /** The outside world of a run: what the sends will return and the random
      draws will be, and the ledger of sends and sleeps. */
  class Session<T> {
    const replies: nat -> Reply<T>
    const draws: nat -> real
    var sent: nat
    var drawn: nat
    var log: seq<Event>

    constructor (replies: nat -> Reply<T>, draws: nat -> real)
      ensures this.replies == replies && this.draws == draws
      ensures sent == 0 && drawn == 0 && log == []
    {
      this.replies, this.draws := replies, draws;
      sent, drawn, log := 0, 0, [];
    }

    method Send() returns (r: Reply<T>)
      modifies this`sent, this`log
      ensures r == replies(old(sent)) && sent == old(sent) + 1
      ensures log == old(log) + [Sent(old(sent))]
    {
      r := replies(sent);
      log := log + [Sent(sent)];
      sent := sent + 1;
    }

    method Sleep(nanoseconds: int)
      modifies this`log
      ensures log == old(log) + [Slept(nanoseconds)]
    {
      log := log + [Slept(nanoseconds)];
    }

    method Draw() returns (x: real)
      modifies this`drawn
      ensures x == draws(old(drawn)) && drawn == old(drawn) + 1
    {
      x := draws(drawn);
      drawn := drawn + 1;
    }

    /** The outcomes of all sends this session will ever be asked for. */
    function Outcomes(): Oracle {
      (k: nat) => Classify(replies(k).err)
    }
  }

  method ComputeBackoffWait<T>(attempt: int, base: int, s: Session<T>) returns (wait: int)
    modifies s`drawn
    ensures wait == BackoffWait(attempt, base, s.draws(old(s.drawn))) && s.drawn == old(s.drawn) + 1
  {
    hide Nominal, Jittered;
    var nominal := UncappedWait(attempt, base);
    var draw := s.Draw();
    wait := Jittered(nominal, draw);
  }

  /** Where a run starts on its session. */
  datatype Start = Start(sent: nat, drawn: nat, log: seq<Event>)

  /** What a run has done so far: it consumed `w`, its ledger is that of `w`, and `r` is its last reply. */
  ghost predicate SoFar<T>(p: Policy, s: Session<T>, start: Start, w: seq<Outcome>, r: Reply<T>)
    reads s`sent, s`log
  {
    && w != []
    && s.sent == start.sent + |w|
    && s.log == start.log + Ledger(p.baseWait, w, s.draws, start.drawn, start.sent)
    && r == s.replies(start.sent + |w| - 1)
    && w[|w| - 1] == Classify(r.err)
  }

  lemma FirstSend<T>(p: Policy, s: Session<T>, start: Start, r: Reply<T>)
    requires s.sent == start.sent + 1 && s.log == start.log + [Sent(start.sent)] && r == s.replies(start.sent)
    ensures SoFar(p, s, start, [Classify(r.err)], r)
  {
  }

  /** One sleep and one more send. */
  method SleepAndSend<T>(p: Policy, s: Session<T>, wait: int,
                         ghost start: Start, ghost w: seq<Outcome>, ghost last: Reply<T>)
    returns (r: Reply<T>, ghost w': seq<Outcome>)
    requires SoFar(p, s, start, w, last)
    requires wait == Pause(p.baseWait, w, |w| - 1, s.draws, start.drawn)
    modifies s`sent, s`log
    ensures w' == w + [s.Outcomes()(start.sent + |w|)] && w'[|w|] == Classify(r.err)
    ensures SoFar(p, s, start, w', r)
  {
    hide Ledger, Pause, Classify;
    s.Sleep(wait);
    r := s.Send();
    w' := w + [Classify(r.err)];
    LedgerGrows(p.baseWait, w, Classify(r.err), s.draws, start.drawn, start.sent);
  }

  /** The tests on an error value, as its classification. */
  lemma ClassifyIs(err: Option<Failure>)
    ensures err == None ==> Classify(err) == Success
    ensures err.Some? ==>
              var f := err.value;
              var api := FirstApi(f.chain);
              if api.Some? && api.value.code == 429
              then Classify(err) == RateLimited(api.value.retryAfter) && !Transient(f)
              else Classify(err) == if Transient(f) then Passing else Fatal
  {
  }

  lemma PauseIs(base: int, w: seq<Outcome>, draws: nat -> real, drawn: nat)
    requires w != []
    ensures var o := w[|w| - 1];
            && (o.RateLimited? ==> Pause(base, w, |w| - 1, draws, drawn) == RateWait(o.after))
            && (o.Success? || o.Fatal? ==> Pause(base, w, |w| - 1, draws, drawn) == 0)
            && (o.Passing? ==> PassingCount(w) > 0 && Pause(base, w, |w| - 1, draws, drawn) ==
                               BackoffWait(PassingCount(w), base, draws(drawn + PassingCount(w) - 1)))
  {
    assert w[..|w| - 1 + 1] == w;
  }

  /** How a run begins. */
  lemma WordStep(p: Policy, oracle: Oracle, from: nat)
    ensures Word(p, oracle, from) ==
            if p.disabled then [oracle(from)]
            else match oracle(from)
                 case RateLimited(a) => [RateLimited(a), oracle(from + 1)]
                 case Passing => [Passing] + TailLetters(TailOf(Budget(p), oracle, from + 1))
                 case only => [only]
  {
  }

  /** The sleep of a 429 and its single resend. */
  method Resend<T>(p: Policy, s: Session<T>, retryAfter: int,
                   ghost start: Start, ghost w: seq<Outcome>, ghost last: Reply<T>)
    returns (r: Reply<T>, ghost w': seq<Outcome>)
    requires SoFar(p, s, start, w, last) && w[|w| - 1] == RateLimited(retryAfter)
    modifies s`sent, s`log
    ensures w' == w + [s.Outcomes()(start.sent + |w|)] && w'[|w|] == Classify(r.err)
    ensures SoFar(p, s, start, w', r)
  {
    hide Ledger, Pause, Classify;
    var wait := retryAfter;
    if wait <= 0 {
      wait := DEFAULT_RETRY_WAIT;
    }
    PauseIs(p.baseWait, w, s.draws, start.drawn);
    r, w' := SleepAndSend(p, s, Wrap(wait * SECOND), start, w, last);
  }

  /** One pass of the loop: `over` when the run returns inside it. */
  method Pass<T>(p: Policy, s: Session<T>, attempt: nat,
                 ghost start: Start, ghost w: seq<Outcome>, ghost last: Reply<T>)
    returns (r: Reply<T>, over: bool, ghost w': seq<Outcome>)
    requires 1 <= attempt <= Budget(p) && w != [] && SoFar(p, s, start, w, last)
    requires w[|w| - 1] == Passing && PassingCount(w) == attempt && s.drawn == start.drawn + attempt - 1
    modifies s
    ensures SoFar(p, s, start, w', r)
    ensures w' != []
    ensures var tail := TailLetters(TailOf(Budget(p) - attempt + 1, s.Outcomes(), start.sent + |w|));
            if over then w' == w + tail
            else && w' + TailLetters(TailOf(Budget(p) - attempt, s.Outcomes(), start.sent + |w'|)) == w + tail
                 && w'[|w'| - 1] == Passing && PassingCount(w') == attempt + 1 && s.drawn == start.drawn + attempt
  {
    hide SoFar, Ledger, Pause, Classify, TailLetters, TailOf, PassingCount, Transient, FirstApi;
    TailStep(Budget(p) - attempt + 1, s.Outcomes(), start.sent + |w|);
    PauseIs(p.baseWait, w, s.draws, start.drawn);
    var wait := ComputeBackoffWait(attempt, p.baseWait, s);
    r, w' := SleepAndSend(p, s, wait, start, w, last);
    PassingCountGrows(w, w'[|w|]);
    over := true;
    ClassifyIs(r.err);
    if r.err == None {
      return;
    }
    var api := FirstApi(r.err.value.chain);
    if api.Some? && api.value.code == 429 {
      ghost var w1 := w';
      r, w' := Resend(p, s, api.value.retryAfter, start, w1, r);
      PassingCountGrows(w1, w'[|w1|]);
      assert w' == w + [w1[|w|], w'[|w1|]];
      ClassifyIs(r.err);
      if r.err == None {
        return;
      }
    }
    over := !Transient(r.err.value);
  }

  lemma Finish<T>(p: Policy, s: Session<T>, start: Start, w: seq<Outcome>, r: Reply<T>)
    requires SoFar(p, s, start, w, r) && w == Word(p, s.Outcomes(), start.sent)
    ensures s.sent == start.sent + |w| && r == s.replies(s.sent - 1)
    ensures s.log == start.log + Ledger(p.baseWait, w, s.draws, start.drawn, start.sent)
  {
  }

  /** retry: for every policy, session and history, the sends of a run consume
      exactly the word its outcomes determine, its sends and sleeps are the
      ledger of that word, and it returns the value and error of its last send. */
  method Retry<T>(p: Policy, s: Session<T>) returns (r: Reply<T>)
    modifies s
    ensures var w := Word(p, s.Outcomes(), old(s.sent));
            && s.sent == old(s.sent) + |w|
            && s.log == old(s.log) + Ledger(p.baseWait, w, s.draws, old(s.drawn), old(s.sent))
            && r == s.replies(s.sent - 1)
  {
    hide SoFar, Ledger, Pause, Classify, TailLetters, TailOf, Word, PassingCount, Transient;
    hide FirstApi, RateWait, BlockLetters;
    ghost var start := Start(s.sent, s.drawn, s.log);
    WordStep(p, s.Outcomes(), start.sent);
    r := s.Send();
    ghost var w := [Classify(r.err)];
    FirstSend(p, s, start, r);
    ClassifyIs(r.err);
    if r.err == None || p.disabled {
      Finish(p, s, start, w, r);
      return;
    }
    var api := FirstApi(r.err.value.chain);
    if api.Some? && api.value.code == 429 {
      ghost var w0 := w;
      r, w := Resend(p, s, api.value.retryAfter, start, w0, r);
      assert w == [w0[0], w[1]];
      Finish(p, s, start, w, r);
      return;
    }
    if !Transient(r.err.value) {
      Finish(p, s, start, w, r);
      return;
    }
    PassingCountGrows([], Passing);
    assert [] + [Passing] == w;
    var attempt := 1;
    while attempt <= p.maxRetries
      invariant 1 <= attempt <= Budget(p) + 1
      invariant w != [] && SoFar(p, s, start, w, r)
      invariant w[|w| - 1] == Passing && PassingCount(w) == attempt && s.drawn == start.drawn + attempt - 1
      invariant Word(p, s.Outcomes(), start.sent) ==
                w + TailLetters(TailOf(Budget(p) - attempt + 1, s.Outcomes(), start.sent + |w|))
    {
      var over;
      r, over, w := Pass(p, s, attempt, start, w, r);
      if over {
        Finish(p, s, start, w, r);
        return;
      }
      attempt := attempt + 1;
    }
    TailStep(0, s.Outcomes(), start.sent + |w|);
    assert w + [] == w;
    Finish(p, s, start, w, r);
  }

  /** applyRetry: a policy whose base wait is not positive is refused before any
      send, unless it never backs off. */
  method ApplyRetry<T>(p: Policy, s: Session<T>) returns (r: Option<Reply<T>>)
    modifies s
    ensures r.None? <==> !p.disabled && p.baseWait <= 0 && p.maxRetries > 0
    ensures r.None? ==> s.log == old(s.log) && s.sent == old(s.sent)
    ensures r.Some? ==>
              var w := Word(p, s.Outcomes(), old(s.sent));
              && s.sent == old(s.sent) + |w|
              && s.log == old(s.log) + Ledger(p.baseWait, w, s.draws, old(s.drawn), old(s.sent))
              && r.value == s.replies(s.sent - 1)
  {
    if !p.disabled && p.baseWait <= 0 && p.maxRetries > 0 {
      return None;
    }
    var reply := Retry(p, s);
    r := Some(reply);
  }

  // ----- Time slept -----

  /** The time a ledger sleeps. */
  function TotalSlept(events: seq<Event>): int {
    if events == [] then 0
    else
      var last := events[|events| - 1];
      TotalSlept(events[..|events| - 1]) + if last.Slept? then last.nanoseconds else 0
  }

  /** The rate-limit waits that a series of outcomes calls for. */
  function RateTotal(w: seq<Outcome>): int {
    if w == [] then 0
    else
      var last := w[|w| - 1];
      RateTotal(w[..|w| - 1]) + if last.RateLimited? then RateWait(last.after) else 0
  }

  lemma TotalSleptTwo(events: seq<Event>, nanoseconds: int, number: nat)
    ensures TotalSlept(events + [Slept(nanoseconds), Sent(number)]) == TotalSlept(events) + nanoseconds
  {
    var slept := events + [Slept(nanoseconds)];
    var longer := events + [Slept(nanoseconds), Sent(number)];
    assert longer[..|longer| - 1] == slept && slept[..|slept| - 1] == events;
  }

  /** All the time slept in a ledger: the backoffs of attempts 1, 2, 3 and so on
      with consecutive draws, 429 resends in between or not, and the rate-limit waits. */
  lemma {:induction false} LedgerTotal(base: int, w: seq<Outcome>, draws: nat -> real, drawn: nat, sent: nat)
    requires w != []
    ensures var paused := w[..|w| - 1];
            TotalSlept(Ledger(base, w, draws, drawn, sent)) ==
            JitteredSum(PassingCount(paused), base, draws, drawn) + RateTotal(paused)
    decreases |w|
  {
    hide Ledger, Pause, PassingCount, BackoffWait, RateWait, TotalSlept;
    var v := w[..|w| - 1];
    if v == [] {
      LedgerOfOne(base, w, draws, drawn, sent);
    } else {
      LedgerTotal(base, v, draws, drawn, sent);
      assert w == v + [w[|w| - 1]];
      LedgerGrows(base, v, w[|w| - 1], draws, drawn, sent);
      TotalSleptTwo(Ledger(base, v, draws, drawn, sent), Pause(base, v, |v| - 1, draws, drawn), sent + |v|);
      PauseIs(base, v, draws, drawn);
      assert v == v[..|v| - 1] + [v[|v| - 1]];
      PassingCountGrows(v[..|v| - 1], v[|v| - 1]);
    }
  }

  lemma LedgerOfOne(base: int, w: seq<Outcome>, draws: nat -> real, drawn: nat, sent: nat)
    requires |w| == 1
    ensures TotalSlept(Ledger(base, w, draws, drawn, sent)) == 0 && PassingCount([]) == 0
  {
    assert Ledger(base, w, draws, drawn, sent) == [Sent(sent)];
    assert [Sent(sent)][..0] == [];
  }

  lemma PassingCountShort(o: Outcome)
    ensures PassingCount([]) == 0
    ensures PassingCount([o]) == if o.Passing? then 1 else 0
    ensures PassingCount([o, Passing]) == 1 + if o.Passing? then 1 else 0
  {
  }

  lemma {:induction false} PassingInBlocks(blocks: seq<Block>)
    ensures PassingCount(BlockLetters(blocks)) == |blocks|
  {
    if blocks == [] {
    } else {
      PassingInBlocks(blocks[1..]);
      var head := if blocks[0].Plain? then [Passing] else [RateLimited(blocks[0].after), Passing];
      PassingCountJoin(head, BlockLetters(blocks[1..]));
      PassingCountShort(if blocks[0].Plain? then Passing else RateLimited(blocks[0].after));
    }
  }

  lemma {:induction false} PassingCountJoin(a: seq<Outcome>, b: seq<Outcome>)
    ensures PassingCount(a + b) == PassingCount(a) + PassingCount(b)
    decreases |b|
  {
    if b == [] {
      assert a + b == a;
    } else {
      var init := b[..|b| - 1];
      PassingCountJoin(a, init);
      assert a + b == (a + init) + [b[|b| - 1]] && b == init + [b[|b| - 1]];
      PassingCountGrows(a + init, b[|b| - 1]);
    }
  }

  /** A run backs off at most MaxRetries times. */
  lemma BackoffsWithinBudget(p: Policy, oracle: Oracle, from: nat)
    requires !p.disabled
    ensures var w := Word(p, oracle, from);
            PassingCount(w[..|w| - 1]) <= if p.maxRetries > 0 then p.maxRetries else 0
  {
    hide PassingCount, BlockLetters, StoryOf;
    var w := Word(p, oracle, from);
    RunIsAWord(Budget(p), oracle, from);
    match StoryOf(Budget(p), oracle, from)
    case Immediate(only) =>
      assert w[..0] == [];
      PassingCountShort(only);
    case LimitedOnce(a, last) =>
      assert w[..1] == [RateLimited(a)];
      PassingCountShort(RateLimited(a));
    case Persisting(blocks, e) => PersistingBackoffs(Budget(p), blocks, e);
  }

  lemma PersistingBackoffs(budget: nat, blocks: seq<Block>, e: Ending)
    requires WellFormed(Persisting(blocks, e), budget)
    ensures var w := Letters(Persisting(blocks, e)); PassingCount(w[..|w| - 1]) <= budget
  {
    hide PassingCount, BlockLetters;
    var body, tail := [Passing] + BlockLetters(blocks), EndingLetters(e);
    var w := body + tail;
    assert w == Letters(Persisting(blocks, e));
    PassingInBlocks(blocks);
    PassingCountJoin([Passing], BlockLetters(blocks));
    PassingCountShort(Passing);
    match e
    case Exhausted =>
      assert w == body;
      LastIsPassing(blocks);
      assert body == body[..|body| - 1] + [Passing];
      PassingCountGrows(body[..|body| - 1], Passing);
    case Settled(last) =>
      assert w[..|w| - 1] == body;
    case LimitedThen(a, last) =>
      assert w[..|w| - 1] == body + [RateLimited(a)];
      PassingCountGrows(body, RateLimited(a));
  }

  lemma {:induction false} PassingInTail(budget: nat, blocks: seq<Block>, e: Ending)
    requires WellFormed(Persisting(blocks, e), budget)
    ensures var w := Letters(Persisting(blocks, e));
            w[|w| - 1].Passing? <==> PassingCount(w) == 1 + budget
  {
    hide PassingCount, BlockLetters;
    var body := [Passing] + BlockLetters(blocks);
    PassingInBlocks(blocks);
    PassingCountJoin([Passing], BlockLetters(blocks));
    PassingCountShort(Passing);
    match e
    case Exhausted =>
      assert body + [] == body;
      LastIsPassing(blocks);
    case Settled(last) =>
      PassingCountGrows(body, last);
    case LimitedThen(a, last) =>
      assert body + [RateLimited(a), last] == body + [RateLimited(a)] + [last];
      PassingCountGrows(body, RateLimited(a));
      PassingCountGrows(body + [RateLimited(a)], last);
  }

  /** When a run gives up on a transient failure: after a transient first
      failure exactly when the whole budget is spent or there are no retries at
      all, after a first 429 whenever its resend fails that way, with the whole
      budget left. */
  lemma GivesUpExactly(p: Policy, oracle: Oracle, from: nat)
    ensures var w := Word(p, oracle, from);
            && (w[|w| - 1].Passing? <==>
                match oracle(from)
                case Passing => p.disabled || multiset(w)[Passing] == 1 + if p.maxRetries > 0 then p.maxRetries else 0
                case RateLimited(_) => !p.disabled && oracle(from + 1).Passing?
                case _ => false)
            && (oracle(from).RateLimited? ==> |w| <= 2 && PassingCount(w[..|w| - 1]) == 0)
  {
    hide PassingCount, BlockLetters, TailOf, EndingLetters, Letters;
    var w := Word(p, oracle, from);
    PassingCountIs(w);
    LettersShort(oracle(from), oracle(from + 1));
    if p.disabled {
    } else if oracle(from).Passing? {
      RunIsAWord(Budget(p), oracle, from);
      var s := StoryOf(Budget(p), oracle, from);
      PassingInTail(Budget(p), s.blocks, s.ending);
    }
  }

  lemma LettersShort(first: Outcome, second: Outcome)
    ensures Letters(Immediate(first)) == [first] && PassingCount([first][..0]) == 0
    ensures first.RateLimited? ==>
              && Letters(LimitedOnce(first.after, second)) == [first, second]
              && PassingCount([first, second][..1]) == 0
  {
    PassingCountShort(first);
    assert [first, second][..1] == [first];
  }

  /** The same outcomes with and without a transient failure before the 429. */
  lemma FirstLimitExample(p: Policy)
    requires !p.disabled && Budget(p) >= 2
    ensures Word(p, OracleOf([RateLimited(1), Passing, Success]), 0) == [RateLimited(1), Passing]
    ensures Word(p, OracleOf([Passing, RateLimited(1), Passing, Success]), 0) ==
            [Passing, RateLimited(1), Passing, Success]
  {
    var early, late := LimitedOnce(1, Passing), Persisting([Limited(1)], Settled(Success));
    var w := [Passing, RateLimited(1), Passing, Success];
    assert [Limited(1)][1..] == [];
    assert Letters(late) == w;
    WordIsTheRun(Budget(p), OracleOf([RateLimited(1), Passing, Success]), 0, early);
    WordIsTheRun(Budget(p), OracleOf(w), 0, late);
  }

  lemma {:induction false} LastIsPassing(blocks: seq<Block>)
    ensures var body := [Passing] + BlockLetters(blocks); body[|body| - 1] == Passing
  {
    if blocks == [] {
    } else {
      LastIsPassing(blocks[1..]);
      var inner := BlockLetters(blocks[1..]);
      assert |inner| > 0 ==> ([Passing] + inner)[|inner|] == inner[|inner| - 1];
    }
  }

  /** What a run sleeps besides its rate-limit waits: n <= budget backoffs whose
      sum lies within a quarter of the closed form, up to n truncations. */
  lemma RunBacksOff(p: Policy, oracle: Oracle, from: nat, draws: nat -> real, drawn: nat)
    requires !p.disabled && 0 < p.baseWait < TWO_62
    requires forall k :: 0.0 <= draws(k) < 1.0
    ensures var w := Word(p, oracle, from);
            var n := PassingCount(w[..|w| - 1]);
            var nominal := NominalTotal(n, p.baseWait);
            var slept := TotalSlept(Ledger(p.baseWait, w, draws, drawn, from)) - RateTotal(w[..|w| - 1]);
            && n <= (if p.maxRetries > 0 then p.maxRetries else 0)
            && 3 * nominal - 4 * n <= 4 * slept <= 5 * nominal
  {
    hide Word, PassingCount, JitteredSum, NominalSum, NominalTotal, Ledger, TotalSlept, RateTotal;
    var w := Word(p, oracle, from);
    var n := PassingCount(w[..|w| - 1]);
    BackoffsWithinBudget(p, oracle, from);
    LedgerTotal(p.baseWait, w, draws, drawn, from);
    JitteredSumBounds(n, p.baseWait, draws, drawn);
    NominalSumIs(n, p.baseWait);
  }

  // ----- When a run goes on -----

  /** Whether a run goes on after its k-th outcome, from the outcomes so far and
      the policy alone: after a 429, unless it answers the resend for another one;
      after a transient failure, unless it answers the resend of a first 429 or
      there have been more of them than retries. */
  predicate GoesOn(p: Policy, w: seq<Outcome>, k: nat)
    requires k < |w|
  {
    match w[k]
    case Success => false
    case Fatal => false
    case RateLimited(_) => !p.disabled && (k == 0 || !w[k - 1].RateLimited?)
    case Passing => !p.disabled && !(k == 1 && w[0].RateLimited?) && multiset(w[..k + 1])[Passing] <= p.maxRetries
  }

  /** What is still to come of a run that has gone on so far. */
  lemma {:induction false} TailGoesOn(p: Policy, oracle: Oracle, from: nat, v: seq<Outcome>, budget: nat, k: nat)
    requires !p.disabled && v != [] && v[|v| - 1] == Passing
    requires !(|v| == 2 && v[0].RateLimited?)
    requires multiset(v)[Passing] + budget == 1 + if p.maxRetries > 0 then p.maxRetries else 0
    requires var w := v + TailLetters(TailOf(budget, oracle, from)); |v| - 1 <= k < |w|
    ensures var w := v + TailLetters(TailOf(budget, oracle, from));
            k < |w| - 1 <==> GoesOn(p, w, k)
    decreases budget
  {
    hide TailLetters, TailOf;
    TailStep(budget, oracle, from);
    var w := v + TailLetters(TailOf(budget, oracle, from));
    var o := oracle(from);
    assert w[|v| - 1] == Passing && w[..|v|] == v;
    if budget == 0 {
    } else if o.Passing? {
      if k >= |v| {
        var rest := TailLetters(TailOf(budget - 1, oracle, from + 1));
        assert w == (v + [Passing]) + rest;
        TailGoesOn(p, oracle, from + 1, v + [Passing], budget - 1, k);
      }
    } else if o.RateLimited? && oracle(from + 1).Passing? {
      if k > |v| {
        var rest := TailLetters(TailOf(budget - 1, oracle, from + 2));
        assert w == (v + [o, Passing]) + rest;
        TailGoesOn(p, oracle, from + 2, v + [o, Passing], budget - 1, k);
      }
    }
  }

  /** A run makes exactly the sends that this rule calls for: each of its
      outcomes but the last is one after which it goes on. */
  lemma GoesOnExactly(p: Policy, oracle: Oracle, from: nat, k: nat)
    requires k < |Word(p, oracle, from)|
    ensures Word(p, oracle, from)[k] == oracle(from + k)
    ensures k < |Word(p, oracle, from)| - 1 <==> GoesOn(p, Word(p, oracle, from), k)
  {
    WordFollowsOracle(p, oracle, from);
    hide TailLetters, TailOf, Word;
    WordStep(p, oracle, from);
    if !p.disabled && oracle(from).Passing? {
      TailGoesOn(p, oracle, from + 1, [Passing], Budget(p), k);
    }
  }

  /** While every send fails transiently, an enabled policy makes one send and MaxRetries more. */
  lemma AllPassing(p: Policy, oracle: Oracle, from: nat)
    requires forall k :: k >= from ==> oracle(k) == Passing
    ensures |Word(p, oracle, from)| == if p.disabled || p.maxRetries <= 0 then 1 else 1 + p.maxRetries
  {
    hide Word, TailLetters, TailOf;
    WordStep(p, oracle, from);
    TailAllPassing(Budget(p), oracle, from + 1);
  }

  /** The ledger of a run, event by event: one sleep between any two sends; after
      a 429 it is the rate-limit wait; else the outcome was transient, and if it
      was the n-th transient one the sleep is the n-th backoff with the n-th draw. */
  lemma SleepsOfRun(p: Policy, oracle: Oracle, from: nat, draws: nat -> real, drawn: nat, k: nat)
    requires k < |Word(p, oracle, from)|
    ensures var w := Word(p, oracle, from);
            var events := Ledger(p.baseWait, w, draws, drawn, from);
            && |events| == 2 * |w| - 1
            && events[2 * k] == Sent(from + k)
            && (k < |w| - 1 ==>
                  var n := multiset(w[..k + 1])[Passing];
                  && (w[k].RateLimited? || (w[k].Passing? && n >= 1))
                  && (w[k].RateLimited? ==> events[2 * k + 1] == Slept(RateWait(w[k].after)))
                  && (w[k].Passing? ==> events[2 * k + 1] == Slept(BackoffWait(n, p.baseWait, draws(drawn + n - 1)))))
  {
    hide Word, BackoffWait, RateWait;
    var w := Word(p, oracle, from);
    if k < |w| - 1 {
      if w[k].Success? || w[k].Fatal? {
        FinalOutcomeEndsRun(p, oracle, from, k);
      }
      assert w[..k + 1] == w[..k] + [w[k]];
      PassingCountGrows(w[..k], w[k]);
      PassingCountIs(w[..k + 1]);
      assert (2 * k + 1) / 2 == k && (2 * k + 1) % 2 == 1;
    }
    assert (2 * k) / 2 == k && (2 * k) % 2 == 0;
  }

  // ----- Runs over exchanges -----

  /** The oracle of a run whose sends are exchanges with the server. */
  function ExchangeOutcomes(exchanges: nat -> Exchange): Oracle {
    (k: nat) => Classify(SendError(exchanges(k)))
  }

  /** A client.Do error whose text changes under scrubbing is the last thing a run sees. */
  lemma RewrittenErrorEndsRun(p: Policy, exchanges: nat -> Exchange, from: nat, k: nat)
    requires k < |Word(p, ExchangeOutcomes(exchanges), from)|
    requires exchanges(from + k).NotDone? && Plausible(exchanges(from + k))
    requires ScrubFailure(exchanges(from + k).problem) != exchanges(from + k).problem
    ensures k == |Word(p, ExchangeOutcomes(exchanges), from)| - 1
  {
    hide Word, Classify;
    var oracle := ExchangeOutcomes(exchanges);
    WordFollowsOracle(p, oracle, from);
    DecisionOfExchange(exchanges(from + k));
    FinalOutcomeEndsRun(p, oracle, from, k);
  }

  lemma {:induction false} TailAllPassing(budget: nat, oracle: Oracle, from: nat)
    requires forall k :: k >= from ==> oracle(k) == Passing
    ensures |TailLetters(TailOf(budget, oracle, from))| == budget
  {
    hide TailLetters, TailOf;
    TailStep(budget, oracle, from);
    if budget == 0 {
    } else {
      TailAllPassing(budget - 1, oracle, from + 1);
    }
  }

  /** A request that cannot be built for a network-like reason (a *url.Error) is
      sent again for the whole budget, although nothing can change. */
  lemma UnbuiltRequestSpendsBudget(p: Policy, f: Failure, from: nat)
    requires !p.disabled && FromTransport(f) && IsNetworkFailure(f)
    ensures |Word(p, ExchangeOutcomes((k: nat) => NotBuilt(f)), from)| ==
            if p.maxRetries > 0 then 1 + p.maxRetries else 1
  {
    hide TailLetters, TailOf, Classify, Word;
    var oracle := ExchangeOutcomes((k: nat) => NotBuilt(f));
    DecisionOfExchange(NotBuilt(f));
    assert forall k: nat :: oracle(k) == Passing;
    AllPassing(p, oracle, from);
  }
}
