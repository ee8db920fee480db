/** The recording tunnel of internal/testproxy/socks5.go: each direction copies
    chunks to its peer and then into a capped dump, under any interleaving. */
module Tunnel {
  import opened Wrappers
  import opened Socks

  const CAP: nat := 0x10_0000

  /** The length that a write of `p` reports on a dump of `stored` bytes. */
  function Reported(stored: nat, p: seq<byte>): (n: nat)
    ensures n <= |p|
  {
    if stored < CAP && |p| > CAP - stored then CAP - stored else |p|
  }

  class CapWriter {
    var buf: seq<byte>

    ghost predicate Valid()
      reads this
    {
      |buf| <= CAP
    }

    constructor ()
      ensures Valid() && buf == []
    {
      buf := [];
    }

    /** The dump keeps the first CAP bytes of everything written; the reported
        length is short exactly for a write that crosses the cap. */
    method Write(p: seq<byte>) returns (n: nat)
      requires Valid()
      modifies this
      ensures Valid() && buf == First(old(buf) + p, CAP)
      ensures n < |p| <==> |old(buf)| < CAP < |old(buf)| + |p|
      ensures n == Reported(|old(buf)|, p)
    {
      var kept := p;
      if CAP - |buf| > 0 {
        var remain := CAP - |buf|;
        if |kept| > remain {
          kept := kept[..remain];
        }
        assert First(buf + p, CAP) == buf + kept;
        buf := buf + kept;
      } else {
        assert First(buf + p, CAP) == buf;
      }
      n := |kept|;
    }
  }

  /** The dump of `n` writes. */
  function Dumped(writes: seq<seq<byte>>, n: nat): seq<byte>
    requires n <= |writes|
  {
    if n == 0 then [] else First(Dumped(writes, n - 1) + writes[n - 1], CAP)
  }

  lemma {:induction false} DumpFull(writes: seq<seq<byte>>, i: nat, j: nat)
    requires i <= j <= |writes| && |Dumped(writes, i)| == CAP
    ensures |Dumped(writes, j)| == CAP
  {
    if i == j {
    } else {
      DumpFull(writes, i, j - 1);
    }
  }

  lemma ShortFills(writes: seq<seq<byte>>, i: nat)
    requires i < |writes| && Reported(|Dumped(writes, i)|, writes[i]) < |writes[i]|
    ensures |Dumped(writes, i + 1)| == CAP
  {
  }

  /** In any series of writes at most one is short: every write after it reports its full length. */
  lemma OneShortWrite(writes: seq<seq<byte>>, i: nat, j: nat)
    requires i < j < |writes|
    requires Reported(|Dumped(writes, i)|, writes[i]) < |writes[i]|
    ensures Reported(|Dumped(writes, j)|, writes[j]) == |writes[j]|
  {
    hide Dumped;
    ShortFills(writes, i);
    DumpFull(writes, i + 1, j);
  }

  // ----- One direction -----

  /** Where one copying loop is: between chunks, holding a chunk that its peer
      has but the dump has not, or over, and why. */
  datatype Phase =
    | Copying
    | Holding(chunk: seq<byte>)
    | Ended
    | PeerFailed(partial: seq<byte>)
    | ShortWrite

  datatype Direction = Direction(delivered: seq<byte>, dump: seq<byte>, phase: Phase)

  datatype Action =
    | Deliver(chunk: seq<byte>, accepted: nat)  // the peer takes at most `accepted` bytes of a chunk
    | Record                                    // the held chunk reaches the dump
    | EndOfStream

  const IDLE := Direction([], [], Copying)

  /** An action that does not fit the phase changes nothing. */
  function Step(d: Direction, a: Action): Direction {
    match a
    case Deliver(chunk, accepted) =>
      if d.phase != Copying then d
      else if accepted >= |chunk| then d.(delivered := d.delivered + chunk, phase := Holding(chunk))
      else d.(delivered := d.delivered + chunk[..accepted], phase := PeerFailed(chunk[..accepted]))
    case Record =>
      if !d.phase.Holding? then d
      else
        var chunk := d.phase.chunk;
        Direction(d.delivered, First(d.dump + chunk, CAP),
                  if Reported(|d.dump|, chunk) < |chunk| then ShortWrite else Copying)
    case EndOfStream => if d.phase == Copying then d.(phase := Ended) else d
  }

  function Run(d: Direction, actions: seq<Action>): Direction {
    if actions == [] then d else Step(Run(d, actions[..|actions| - 1]), actions[|actions| - 1])
  }

  /** The delivered bytes that the dump has not been offered. */
  function Unrecorded(phase: Phase): seq<byte> {
    match phase
    case Holding(c) => c
    case PeerFailed(p) => p
    case _ => []
  }

  /** The dump is the first CAP bytes of all delivered bytes but the last chunk still held or refused. */
  ghost predicate Faithful(d: Direction) {
    var n := |Unrecorded(d.phase)|;
    && n <= |d.delivered|
    && d.delivered[|d.delivered| - n..] == Unrecorded(d.phase)
    && d.dump == First(d.delivered[..|d.delivered| - n], CAP)
    && (d.phase == ShortWrite ==> |d.delivered| > CAP)
  }

  lemma StepKeepsFaithful(d: Direction, a: Action)
    requires Faithful(d)
    ensures Faithful(Step(d, a)) && d.dump <= Step(d, a).dump && d.delivered <= Step(d, a).delivered
  {
  }

  lemma {:induction false} RunKeepsFaithful(d: Direction, actions: seq<Action>)
    requires Faithful(d)
    ensures Faithful(Run(d, actions))
  {
    hide Faithful, Step;
    if actions == [] {
    } else {
      RunKeepsFaithful(d, actions[..|actions| - 1]);
      StepKeepsFaithful(Run(d, actions[..|actions| - 1]), actions[|actions| - 1]);
    }
  }

  /** What the peer of a direction accepted: of each chunk delivered between two
      others, as much as the peer took. */
  function Accepted(actions: seq<Action>): seq<byte> {
    if actions == [] then []
    else
      var earlier, last := actions[..|actions| - 1], actions[|actions| - 1];
      Accepted(earlier)
      + if last.Deliver? && Run(IDLE, earlier).phase == Copying then First(last.chunk, last.accepted) else []
  }

  lemma {:induction false} DeliveredIsAccepted(actions: seq<Action>)
    ensures Run(IDLE, actions).delivered == Accepted(actions)
  {
    if actions == [] {
    } else {
      var d := Run(IDLE, actions[..|actions| - 1]);
      DeliveredIsAccepted(actions[..|actions| - 1]);
      DeliveredStep(d, actions[|actions| - 1]);
    }
  }

  lemma DeliveredStep(d: Direction, a: Action)
    ensures Step(d, a).delivered ==
            d.delivered + if a.Deliver? && d.phase == Copying then First(a.chunk, a.accepted) else []
  {
  }

  predicate Over(d: Direction) {
    d.phase.Ended? || d.phase.PeerFailed? || d.phase.ShortWrite?
  }

  /** What ends a direction, and that nothing happens to it afterwards. */
  lemma OverExactly(d: Direction, a: Action)
    ensures Over(d) ==> Step(d, a) == d
    ensures !Over(d) ==>
              (Over(Step(d, a)) <==>
               match a
               case EndOfStream => d.phase.Copying?
               case Deliver(chunk, accepted) => d.phase.Copying? && accepted < |chunk|
               case Record => d.phase.Holding? && |d.dump| < CAP < |d.dump| + |d.phase.chunk|)
  {
  }

  lemma {:induction false} RunGrows(d: Direction, actions: seq<Action>, n: nat)
    requires Faithful(d) && n <= |actions|
    ensures Run(d, actions[..n]).dump <= Run(d, actions).dump
    decreases |actions|
  {
    hide Faithful, Step;
    if n == |actions| {
      assert actions[..n] == actions;
    } else {
      var init := actions[..|actions| - 1];
      RunGrows(d, init, n);
      assert init[..n] == actions[..n];
      RunKeepsFaithful(d, init);
      StepKeepsFaithful(Run(d, init), actions[|actions| - 1]);
    }
  }

  // ----- Both directions -----

  datatype Side = ClientSide | TargetSide

  datatype Tunnel = Tunnel(client: Direction, target: Direction) {
    function Of(side: Side): Direction {
      if side.ClientSide? then client else target
    }
  }

  const OPENED := Tunnel(IDLE, IDLE)

  datatype Move = Move(side: Side, action: Action)

  function Interleave(t: Tunnel, moves: seq<Move>): Tunnel {
    if moves == [] then t
    else
      var before := Interleave(t, moves[..|moves| - 1]);
      var last := moves[|moves| - 1];
      if last.side.ClientSide? then before.(client := Step(before.client, last.action))
      else before.(target := Step(before.target, last.action))
  }

  function Actions(moves: seq<Move>, side: Side): seq<Action> {
    if moves == [] then []
    else Actions(moves[..|moves| - 1], side)
         + if moves[|moves| - 1].side == side then [moves[|moves| - 1].action] else []
  }

  /** Neither direction disturbs the other: under every interleaving each one is
      where its own actions alone would have brought it. */
  lemma {:induction false} SidesIndependent(t: Tunnel, moves: seq<Move>, side: Side)
    ensures Interleave(t, moves).Of(side) == Run(t.Of(side), Actions(moves, side))
  {
    hide Step;
    if moves == [] {
    } else {
      var init, last := moves[..|moves| - 1], moves[|moves| - 1];
      SidesIndependent(t, init, side);
      if last.side == side {
        var actions := Actions(init, side) + [last.action];
        assert actions[..|actions| - 1] == Actions(init, side);
      } else {
        assert Actions(init, side) + [] == Actions(init, side);
      }
    }
  }

  lemma {:induction false} ActionsPrefix(moves: seq<Move>, n: nat, side: Side)
    requires n <= |moves|
    ensures Actions(moves[..n], side) <= Actions(moves, side)
    decreases |moves|
  {
    if n == |moves| {
      assert moves[..n] == moves;
    } else {
      ActionsPrefix(moves[..|moves| - 1], n, side);
      assert moves[..|moves| - 1][..n] == moves[..n];
    }
  }

  /** Safety of a tunnel: at every moment of every interleaving each direction has
      delivered exactly the parts of its chunks that its peer accepted, in order;
      its dump is a prefix of what it delivered, never exceeds the
      cap, and is the first CAP delivered bytes between chunks; a snapshot taken
      earlier is a prefix of one taken later. */
  lemma TunnelSafety(moves: seq<Move>, n: nat, side: Side)
    requires n <= |moves|
    ensures var now := Interleave(OPENED, moves).Of(side);
            && now.delivered == Accepted(Actions(moves, side))
            && now.dump <= now.delivered && |now.dump| <= CAP
            && (now.phase.Copying? || now.phase.Ended? || now.phase.ShortWrite? ==>
                  now.dump == First(now.delivered, CAP))
            && (now.phase.ShortWrite? ==> |now.delivered| > CAP)
            && Interleave(OPENED, moves[..n]).Of(side).dump <= now.dump
  {
    hide Step, Run, Interleave, Actions, Accepted;
    DeliveredIsAccepted(Actions(moves, side));
    SidesIndependent(OPENED, moves, side);
    SidesIndependent(OPENED, moves[..n], side);
    ActionsPrefix(moves, n, side);
    var actions := Actions(moves, side);
    var m := |Actions(moves[..n], side)|;
    assert actions[..m] == Actions(moves[..n], side);
    assert Faithful(IDLE);
    RunKeepsFaithful(IDLE, actions);
    RunGrows(IDLE, actions, m);
    FaithfulDump(Run(IDLE, actions));
  }

  lemma FaithfulDump(d: Direction)
    requires Faithful(d)
    ensures d.dump <= d.delivered && |d.dump| <= CAP
    ensures Unrecorded(d.phase) == [] ==> d.dump == First(d.delivered, CAP)
  {
  }

  // ----- When copying goes on past the cap -----

  function Total(chunks: seq<seq<byte>>, n: nat): nat
    requires n <= |chunks|
  {
    if n == 0 then 0 else Total(chunks, n - 1) + |chunks[n - 1]|
  }

  /** Some chunk begins below the cap and ends above it. */
  ghost predicate Straddled(chunks: seq<seq<byte>>, n: nat)
    requires n <= |chunks|
  {
    exists j :: 0 <= j < n && Total(chunks, j) < CAP < Total(chunks, j + 1)
  }

  /** The copying loop of one direction on chunks that its peer accepts whole. */
  function Copied(d: Direction, chunks: seq<seq<byte>>, n: nat): Direction
    requires n <= |chunks|
  {
    if n == 0 then d
    else Step(Step(Copied(d, chunks, n - 1), Deliver(chunks[n - 1], |chunks[n - 1]|)), Record)
  }

  /** The bytes of a series of chunks. */
  function Flat(chunks: seq<seq<byte>>): seq<byte> {
    if chunks == [] then [] else Flat(chunks[..|chunks| - 1]) + chunks[|chunks| - 1]
  }

  lemma FlatGrows(chunks: seq<seq<byte>>, n: nat)
    requires 0 < n <= |chunks|
    ensures Flat(chunks[..n]) == Flat(chunks[..n - 1]) + chunks[n - 1]
  {
    assert chunks[..n][..n - 1] == chunks[..n - 1];
  }

  lemma {:induction false} TotalMonotone(chunks: seq<seq<byte>>, m: nat, n: nat)
    requires m <= n <= |chunks|
    ensures Total(chunks, m) <= Total(chunks, n)
  {
    if m == n {
    } else {
      TotalMonotone(chunks, m, n - 1);
    }
  }

  /** The bytes that were read reach the peer unchanged and in order, all of them
      or those up to and including the chunk that straddles the cap; the dump
      holds the first CAP of them. */
  lemma {:induction false} CopiedIs(chunks: seq<seq<byte>>, n: nat)
    requires n <= |chunks|
    ensures var d := Copied(IDLE, chunks, n);
            && d.delivered <= Flat(chunks[..n])
            && (d.phase == Copying ==> d.delivered == Flat(chunks[..n]))
            && (forall j :: 0 <= j < n && Total(chunks, j) < CAP < Total(chunks, j + 1) ==>
                  d.delivered == Flat(chunks[..j + 1]))
            && d.dump == First(d.delivered, CAP)
    decreases n
  {
    hide Total, Flat, Straddled, Step;
    if n == 0 {
      assert Flat(chunks[..0]) == [] by { FlatOfNothing(); }
    } else {
      CopiedIs(chunks, n - 1);
      CopyGoesOn(chunks, n - 1);
      FlatGrows(chunks, n);
      CopyStep(Copied(IDLE, chunks, n - 1), chunks[n - 1]);
      if Straddled(chunks, n - 1) {
        var i := Straddling(chunks, n - 1);
        forall j | 0 <= j < n && Total(chunks, j) < CAP < Total(chunks, j + 1) ensures j == i {
          OneStraddles(chunks, i, j);
        }
      } else {
        NoneStraddles(chunks, n - 1);
      }
    }
  }

  lemma FlatOfNothing()
    ensures Flat([]) == []
  {
  }

  lemma Straddling(chunks: seq<seq<byte>>, n: nat) returns (j: nat)
    requires n <= |chunks| && Straddled(chunks, n)
    ensures j < n && Total(chunks, j) < CAP < Total(chunks, j + 1)
  {
    j :| 0 <= j < n && Total(chunks, j) < CAP < Total(chunks, j + 1);
  }

  lemma NoneStraddles(chunks: seq<seq<byte>>, n: nat)
    requires n <= |chunks| && !Straddled(chunks, n)
    ensures forall j :: 0 <= j < n ==> !(Total(chunks, j) < CAP < Total(chunks, j + 1))
  {
  }

  lemma OneStraddles(chunks: seq<seq<byte>>, i: nat, j: nat)
    requires i < |chunks| && j < |chunks|
    requires Total(chunks, i) < CAP < Total(chunks, i + 1) && Total(chunks, j) < CAP < Total(chunks, j + 1)
    ensures i == j
  {
    hide Total;
    if i < j { TotalMonotone(chunks, i + 1, j); }
    if j < i { TotalMonotone(chunks, j + 1, i); }
  }

  lemma CopyStep(before: Direction, chunk: seq<byte>)
    requires before.dump == First(before.delivered, CAP)
    ensures var d := Step(Step(before, Deliver(chunk, |chunk|)), Record);
            && (before.phase == Copying ==> d.delivered == before.delivered + chunk)
            && (before.phase == ShortWrite ==> d == before)
            && (before.phase == Copying ==> d.dump == First(d.delivered, CAP))
  {
  }

  /** A direction survives its chunks, of whatever lengths the reads had, if and
      only if none of them straddles the cap; whether the transfer is longer than
      the cap does not matter. */
  lemma {:induction false} CopyGoesOn(chunks: seq<seq<byte>>, n: nat)
    requires n <= |chunks|
    ensures var d := Copied(IDLE, chunks, n);
            && (d.phase == Copying <==> !Straddled(chunks, n))
            && (d.phase == ShortWrite <==> Straddled(chunks, n))
            && (d.phase == Copying ==> |d.delivered| == Total(chunks, n))
            && |d.dump| <= CAP
            && (d.phase == Copying ==> |d.dump| == if Total(chunks, n) < CAP then Total(chunks, n) else CAP)
  {
    if n == 0 {
    } else {
      CopyGoesOn(chunks, n - 1);
      var d := Copied(IDLE, chunks, n - 1);
      var c := chunks[n - 1];
      assert Total(chunks, n) == Total(chunks, n - 1) + |c|;
      if Straddled(chunks, n - 1) {
        var j :| 0 <= j < n - 1 && Total(chunks, j) < CAP < Total(chunks, j + 1);
        assert Straddled(chunks, n);
      } else if Total(chunks, n - 1) < CAP < Total(chunks, n) {
        assert Straddled(chunks, n);
      } else {
        assert !Straddled(chunks, n);
      }
    }
  }

  /** The most that one read of io.Copy delivers. */
  const READ: nat := 0x8000

  lemma {:induction false} TotalOfReads(chunks: seq<seq<byte>>, first: nat, n: nat)
    requires first <= n <= |chunks|
    requires forall k :: first <= k < n ==> |chunks[k]| == READ
    ensures Total(chunks, n) == Total(chunks, first) + (n - first) * READ
  {
    if n == first {
    } else {
      TotalOfReads(chunks, first, n - 1);
    }
  }

  /** Full reads alone never end a direction: the cap is a multiple of their length. */
  lemma FullReadsGoOn(chunks: seq<seq<byte>>, n: nat)
    requires n <= |chunks| && forall k :: 0 <= k < n ==> |chunks[k]| == READ
    ensures Copied(IDLE, chunks, n).phase == Copying
  {
    hide Copied;
    forall j | 0 <= j < n ensures !(Total(chunks, j) < CAP < Total(chunks, j + 1)) {
      TotalOfReads(chunks, 0, j);
      TotalOfReads(chunks, 0, j + 1);
      assert CAP == 32 * READ;
    }
    CopyGoesOn(chunks, n);
  }

  /** One byte and then 32 full reads, whatever they hold, end their direction;
      the same reads with the byte at the end do not. */
  lemma UnalignedReadExample(one: seq<byte>, fulls: seq<seq<byte>>)
    requires |one| == 1 && |fulls| == 32 && forall k :: 0 <= k < 32 ==> |fulls[k]| == READ
    ensures Copied(IDLE, [one] + fulls, 33).phase == ShortWrite
    ensures Copied(IDLE, fulls + [one], 33).phase == Copying
    ensures |Copied(IDLE, fulls + [one], 33).dump| == 1_048_576
  {
    hide Copied;
    var early, late := [one] + fulls, fulls + [one];
    TotalOfReads(early, 1, 32);
    assert Total(early, 0) == 0 && Total(early, 1) == 1;
    assert Total(early, 33) == Total(early, 32) + READ;
    assert Total(early, 32) < CAP < Total(early, 32 + 1);
    CopyGoesOn(early, 33);
    FullReadsGoOn(late, 32);
    TotalOfReads(late, 0, 32);
    CopyGoesOn(late, 32);
    assert Total(late, 32) == CAP;
    CopyGoesOn(late, 33);
  }

  /** io.Copy into the peer and the dump, chunk by chunk, stopping at the first
      short write: what was read is delivered and dumped, up to there. */
  method CopyChunks(chunks: seq<seq<byte>>, dump: CapWriter) returns (delivered: seq<byte>, short: bool)
    requires dump.buf == []
    modifies dump
    ensures short <==> Straddled(chunks, |chunks|)
    ensures !short ==> delivered == Flat(chunks)
    ensures forall j :: 0 <= j < |chunks| && Total(chunks, j) < CAP < Total(chunks, j + 1) ==>
              delivered == Flat(chunks[..j + 1])
    ensures dump.buf == First(delivered, CAP)
    ensures var d := Copied(IDLE, chunks, |chunks|);
            delivered == d.delivered && dump.buf == d.dump && (short <==> d.phase == ShortWrite)
  {
    delivered, short := [], false;
    var i := 0;
    while i < |chunks| && !short
      invariant 0 <= i <= |chunks| && dump.Valid()
      invariant Copied(IDLE, chunks, i) == Direction(delivered, dump.buf, if short then ShortWrite else Copying)
    {
      delivered := delivered + chunks[i];
      var n := dump.Write(chunks[i]);
      short := n < |chunks[i]|;
      i := i + 1;
    }
    if short { StaysShort(chunks, i, |chunks|); }
    CopiedIs(chunks, |chunks|);
    CopyGoesOn(chunks, |chunks|);
    assert chunks[..|chunks|] == chunks;
  }

  lemma StaysShort(chunks: seq<seq<byte>>, i: nat, n: nat)
    requires i <= n <= |chunks| && Copied(IDLE, chunks, i).phase == ShortWrite
    ensures Copied(IDLE, chunks, n) == Copied(IDLE, chunks, i)
  {
  }
}
