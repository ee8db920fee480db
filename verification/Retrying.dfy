/** The retry loop of retry.go as a state machine over the outcomes of its sends. */
module Retrying {
  import opened Failures
  import opened Backoff

  datatype Policy = Policy(disabled: bool, maxRetries: int, baseWait: int)

  function Budget(p: Policy): nat {
    if p.maxRetries > 0 then p.maxRetries else 0
  }

  /** An arbitrary source of outcomes: the k-th send has outcome `oracle(k)`. */
  type Oracle = nat -> Outcome

  /** Sends with the outcomes of `w`, then fatal ones. */
  function OracleOf(w: seq<Outcome>): Oracle {
    (k: nat) => if k < |w| then w[k] else Fatal
  }

  // ----- The language of enabled runs -----

  /** A continuing block: a transient failure, or a 429 whose resend fails transiently. */
  datatype Block = Plain | Limited(after: int)

  datatype Ending =
    | Exhausted
    | Settled(last: Outcome)                     // Success or Fatal
    | LimitedThen(after: int, last: Outcome)     // a 429, then anything but a transient failure

  datatype Story =
    | Immediate(only: Outcome)                   // Success or Fatal
    | LimitedOnce(after: int, last: Outcome)     // a 429, then anything
    | Persisting(blocks: seq<Block>, ending: Ending)

  predicate WellFormed(s: Story, budget: nat) {
    match s
    case Immediate(only) => only.Success? || only.Fatal?
    case LimitedOnce(_, _) => true
    case Persisting(blocks, ending) =>
      && |blocks| <= budget
      && match ending
         case Exhausted => |blocks| == budget
         case Settled(last) => |blocks| < budget && (last.Success? || last.Fatal?)
         case LimitedThen(_, last) => |blocks| < budget && !last.Passing?
  }

  function BlockLetters(blocks: seq<Block>): seq<Outcome> {
    if blocks == [] then []
    else (match blocks[0] case Plain => [Passing] case Limited(a) => [RateLimited(a), Passing])
         + BlockLetters(blocks[1..])
  }

  function EndingLetters(e: Ending): seq<Outcome> {
    match e
    case Exhausted => []
    case Settled(last) => [last]
    case LimitedThen(a, last) => [RateLimited(a), last]
  }

  function Letters(s: Story): (w: seq<Outcome>)
    ensures w != []
  {
    match s
    case Immediate(only) => [only]
    case LimitedOnce(a, last) => [RateLimited(a), last]
    case Persisting(blocks, ending) => [Passing] + BlockLetters(blocks) + EndingLetters(ending)
  }

  ghost predicate Starts(w: seq<Outcome>, oracle: Oracle, from: nat) {
    forall k :: 0 <= k < |w| ==> w[k] == oracle(from + k)
  }

  // ----- The run -----

  function TailOf(budget: nat, oracle: Oracle, from: nat): (seq<Block>, Ending) {
    if budget == 0 then ([], Exhausted)
    else
      match oracle(from)
      case Passing =>
        var (blocks, e) := TailOf(budget - 1, oracle, from + 1);
        ([Plain] + blocks, e)
      case RateLimited(a) =>
        if oracle(from + 1).Passing? then
          var (blocks, e) := TailOf(budget - 1, oracle, from + 2);
          ([Limited(a)] + blocks, e)
        else ([], LimitedThen(a, oracle(from + 1)))
      case last => ([], Settled(last))
  }

  function StoryOf(budget: nat, oracle: Oracle, from: nat): Story {
    match oracle(from)
    case RateLimited(a) => LimitedOnce(a, oracle(from + 1))
    case Passing =>
      var (blocks, e) := TailOf(budget, oracle, from + 1);
      Persisting(blocks, e)
    case only => Immediate(only)
  }

  /** The outcomes a run consumes. */
  function Word(p: Policy, oracle: Oracle, from: nat): (w: seq<Outcome>)
    ensures w != []
  {
    if p.disabled then [oracle(from)] else Letters(StoryOf(Budget(p), oracle, from))
  }

  lemma StartsJoin(a: seq<Outcome>, b: seq<Outcome>, oracle: Oracle, from: nat)
    ensures Starts(a + b, oracle, from) <==> Starts(a, oracle, from) && Starts(b, oracle, from + |a|)
  {
    if Starts(a, oracle, from) && Starts(b, oracle, from + |a|) {
      forall k | 0 <= k < |a + b| ensures (a + b)[k] == oracle(from + k) {
        if k >= |a| { assert b[k - |a|] == oracle(from + k); }
      }
    }
    if Starts(a + b, oracle, from) {
      assert forall k :: 0 <= k < |a| ==> a[k] == (a + b)[k];
      assert forall k :: 0 <= k < |b| ==> b[k] == (a + b)[|a| + k];
    }
  }

  function TailLetters(tail: (seq<Block>, Ending)): seq<Outcome> {
    BlockLetters(tail.0) + EndingLetters(tail.1)
  }

  lemma BlockStep(b: Block, blocks: seq<Block>, e: Ending)
    ensures TailLetters(([b] + blocks, e)) ==
            (match b case Plain => [Passing] case Limited(a) => [RateLimited(a), Passing]) + TailLetters((blocks, e))
  {
  }

  predicate TailFormed(tail: (seq<Block>, Ending), budget: nat) {
    WellFormed(Persisting(tail.0, tail.1), budget)
  }

  lemma StartsShort(a: Outcome, b: Outcome, oracle: Oracle, from: nat)
    ensures Starts([a], oracle, from) <==> a == oracle(from)
    ensures Starts([a, b], oracle, from) <==> a == oracle(from) && b == oracle(from + 1)
    ensures Starts([], oracle, from)
  {
    assert [a][0] == a && [a, b][0] == a && [a, b][1] == b;
  }

  /** One continuing block, then the rest of the run. */
  lemma BlockStarts(b: Block, blocks: seq<Block>, e: Ending, oracle: Oracle, from: nat)
    ensures Starts(TailLetters(([b] + blocks, e)), oracle, from) <==>
            match b
            case Plain => oracle(from) == Passing && Starts(TailLetters((blocks, e)), oracle, from + 1)
            case Limited(a) => oracle(from) == RateLimited(a) && oracle(from + 1) == Passing
                               && Starts(TailLetters((blocks, e)), oracle, from + 2)
  {
    hide Starts, BlockLetters, TailLetters, EndingLetters;
    BlockStep(b, blocks, e);
    var head := if b.Plain? then [Passing] else [RateLimited(b.after), Passing];
    StartsJoin(head, TailLetters((blocks, e)), oracle, from);
    StartsShort(head[0], Passing, oracle, from);
  }

  lemma EndingStarts(e: Ending, oracle: Oracle, from: nat)
    ensures TailLetters(([], e)) == EndingLetters(e)
    ensures Starts(EndingLetters(e), oracle, from) <==>
            match e
            case Exhausted => true
            case Settled(last) => last == oracle(from)
            case LimitedThen(a, last) => RateLimited(a) == oracle(from) && last == oracle(from + 1)
  {
    hide Starts;
    match e
    case Exhausted => StartsShort(Fatal, Fatal, oracle, from);
    case Settled(last) => StartsShort(last, last, oracle, from);
    case LimitedThen(a, last) => StartsShort(RateLimited(a), last, oracle, from);
  }

  /** What is left of a run, one block at a time. */
  lemma TailStep(budget: nat, oracle: Oracle, from: nat)
    ensures TailLetters(TailOf(budget, oracle, from)) ==
            if budget == 0 then []
            else match oracle(from)
                 case Passing => [Passing] + TailLetters(TailOf(budget - 1, oracle, from + 1))
                 case RateLimited(a) =>
                   if oracle(from + 1).Passing?
                   then [RateLimited(a), Passing] + TailLetters(TailOf(budget - 1, oracle, from + 2))
                   else [RateLimited(a), oracle(from + 1)]
                 case last => [last]
  {
  }

  lemma {:induction false} TailSound(budget: nat, oracle: Oracle, from: nat)
    ensures TailFormed(TailOf(budget, oracle, from), budget)
    ensures Starts(TailLetters(TailOf(budget, oracle, from)), oracle, from)
    decreases budget
  {
    hide Starts, TailLetters, BlockLetters, EndingLetters;
    var o := oracle(from);
    var (blocks, e) := TailOf(budget, oracle, from);
    if budget == 0 || !(o.Passing? || (o.RateLimited? && oracle(from + 1).Passing?)) {
      EndingStarts(e, oracle, from);
    } else {
      var n := if o.Passing? then 1 else 2;
      TailSound(budget - 1, oracle, from + n);
      var rest := TailOf(budget - 1, oracle, from + n);
      BlockStarts(blocks[0], rest.0, rest.1, oracle, from);
    }
  }

  lemma {:induction false} TailComplete(budget: nat, oracle: Oracle, from: nat, blocks: seq<Block>, e: Ending)
    requires TailFormed((blocks, e), budget) && Starts(TailLetters((blocks, e)), oracle, from)
    ensures TailOf(budget, oracle, from) == (blocks, e)
    decreases budget
  {
    hide Starts, TailLetters, BlockLetters, EndingLetters;
    if blocks == [] {
      EndingStarts(e, oracle, from);
    } else {
      assert blocks == [blocks[0]] + blocks[1..];
      BlockStarts(blocks[0], blocks[1..], e, oracle, from);
      TailComplete(budget - 1, oracle, from + (if blocks[0].Plain? then 1 else 2), blocks[1..], e);
    }
  }

  lemma PersistingLetters(blocks: seq<Block>, e: Ending)
    ensures Letters(Persisting(blocks, e)) == [Passing] + TailLetters((blocks, e))
  {
  }

  /** Soundness: whatever the outcomes, an enabled run consumes one word of the language. */
  lemma RunIsAWord(budget: nat, oracle: Oracle, from: nat)
    ensures WellFormed(StoryOf(budget, oracle, from), budget)
    ensures Starts(Letters(StoryOf(budget, oracle, from)), oracle, from)
  {
    hide Starts, BlockLetters, EndingLetters, TailOf, TailLetters;
    if oracle(from).Passing? {
      TailSound(budget, oracle, from + 1);
      var (blocks, e) := TailOf(budget, oracle, from + 1);
      StartsJoin([Passing], TailLetters((blocks, e)), oracle, from);
      StartsShort(Passing, Passing, oracle, from);
      PersistingLetters(blocks, e);
    } else {
      StartsShort(oracle(from), oracle(from + 1), oracle, from);
    }
  }

  /** Completeness and determinism: a run is the only word of the language that its outcomes begin with. */
  lemma WordIsTheRun(budget: nat, oracle: Oracle, from: nat, s: Story)
    requires WellFormed(s, budget) && Starts(Letters(s), oracle, from)
    ensures StoryOf(budget, oracle, from) == s
  {
    hide Starts, BlockLetters, EndingLetters, TailOf, TailLetters;
    match s
    case Immediate(only) => StartsShort(only, only, oracle, from);
    case LimitedOnce(a, last) => StartsShort(RateLimited(a), last, oracle, from);
    case Persisting(blocks, e) =>
      PersistingLetters(blocks, e);
      StartsJoin([Passing], TailLetters((blocks, e)), oracle, from);
      StartsShort(Passing, Passing, oracle, from);
      TailComplete(budget, oracle, from + 1, blocks, e);
  }

  lemma WordFollowsOracle(p: Policy, oracle: Oracle, from: nat)
    ensures Starts(Word(p, oracle, from), oracle, from)
  {
    hide Letters, StoryOf;
    RunIsAWord(Budget(p), oracle, from);
  }

  /** No word of the language is a proper prefix of another, so a run never
      stops early and never sends once more than its outcomes call for. */
  lemma PrefixFree(budget: nat, s: Story, t: Story)
    requires WellFormed(s, budget) && WellFormed(t, budget) && Letters(s) <= Letters(t)
    ensures s == t
  {
    hide Letters, WellFormed, StoryOf;
    var w := Letters(t);
    var oracle := OracleOf(w);
    assert Starts(w, oracle, 0);
    assert forall k :: 0 <= k < |Letters(s)| ==> Letters(s)[k] == w[k];
    WordIsTheRun(budget, oracle, 0, s);
    WordIsTheRun(budget, oracle, 0, t);
  }

  lemma {:induction false} BlockLettersBound(blocks: seq<Block>)
    ensures |blocks| <= |BlockLetters(blocks)| <= 2 * |blocks|
  {
    if blocks == [] {
    } else {
      BlockLettersBound(blocks[1..]);
    }
  }

  /** At most 1 + 2 * MaxRetries sends after a transient first failure (one if
      MaxRetries is not positive), at most 2 otherwise. */
  lemma SendBound(p: Policy, oracle: Oracle, from: nat)
    ensures var w := Word(p, oracle, from);
            |w| <= if !oracle(from).Passing? then 2 else if p.maxRetries > 0 then 1 + 2 * p.maxRetries else 1
  {
    RunIsAWord(Budget(p), oracle, from);
    var s := StoryOf(Budget(p), oracle, from);
    if s.Persisting? { BlockLettersBound(s.blocks); }
  }

  lemma {:induction false} NoFinalLetterInBlocks(blocks: seq<Block>, k: nat)
    requires k < |BlockLetters(blocks)|
    ensures var o := BlockLetters(blocks)[k]; o.Passing? || o.RateLimited?
  {
    var first := if blocks[0].Plain? then 1 else 2;
    if k < first {
    } else {
      NoFinalLetterInBlocks(blocks[1..], k - first);
    }
  }

  /** A success or a fatal failure is always the last outcome of its run. */
  lemma FinalOutcomeEndsRun(p: Policy, oracle: Oracle, from: nat, k: nat)
    requires k < |Word(p, oracle, from)|
    requires Word(p, oracle, from)[k].Success? || Word(p, oracle, from)[k].Fatal?
    ensures k == |Word(p, oracle, from)| - 1
  {
    var w := Word(p, oracle, from);
    if !p.disabled {
      RunIsAWord(Budget(p), oracle, from);
      var s := StoryOf(Budget(p), oracle, from);
      if s.Persisting? {
        var inner := BlockLetters(s.blocks);
        forall i | 1 <= i < 1 + |inner| ensures w[i].Passing? || w[i].RateLimited? {
          NoFinalLetterInBlocks(s.blocks, i - 1);
          assert w[i] == inner[i - 1];
        }
        if s.ending.LimitedThen? { assert w[1 + |inner|] == RateLimited(s.ending.after); }
      }
    }
  }
}
