/** An isochronous stream of a fixed number of transfers, each resubmitted by its own callback, and its
    shutdown, which frees them once all have come back. */
module IsoShutdown {
  import opened Arithmetic

  /** flying has one entry for every transfer submitted by start; lost counts the submissions that failed,
      which the program does not keep. */
  datatype State = State(num: nat, dead: bool, deadXfers: nat, flying: seq<bool>, lost: nat, freed: bool)

  datatype Event =
    | Start(ok: bool)
    | Complete(i: nat, completed: bool, resubmitted: bool)
    | Kill
    | Free

  function Flying(f: seq<bool>): (n: nat)
    ensures n <= |f|
  {
    if f == [] then 0 else (if f[0] then 1 else 0) + Flying(f[1..])
  }

  predicate Enabled(s: State, e: Event) {
    !s.freed &&
    match e
    case Start(_) => |s.flying| < s.num && !s.dead
    case Complete(i, _, _) => i < |s.flying| && s.flying[i]
    case Kill => |s.flying| == s.num && !s.dead
    case Free => s.dead && s.deadXfers >= s.num
  }

  function Step(s: State, e: Event): State
    requires Enabled(s, e)
  {
    match e
    case Start(ok) => s.(flying := s.flying + [ok], lost := s.lost + if ok then 0 else 1)
    case Complete(i, completed, resubmitted) =>
      if s.dead || !completed then s.(flying := s.flying[i := false], deadXfers := s.deadXfers + 1)
      else s.(flying := s.flying[i := resubmitted], lost := s.lost + if resubmitted then 0 else 1)
    case Kill => s.(dead := true)
    case Free => s.(freed := true)
  }

  lemma {:induction false} FlyingUpdate(f: seq<bool>, i: nat, b: bool)
    requires i < |f|
    ensures Flying(f[i := b]) == Flying(f) - (if f[i] then 1 else 0) + if b then 1 else 0
  {
    if i > 0 {
      FlyingUpdate(f[1..], i - 1, b);
      assert f[i := b][1..] == f[1..][i - 1 := b];
    }
  }

  lemma {:induction false} FlyingAppend(f: seq<bool>, b: bool)
    ensures Flying(f + [b]) == Flying(f) + if b then 1 else 0
  {
    if f != [] {
      FlyingAppend(f[1..], b);
      assert (f + [b])[1..] == f[1..] + [b];
    }
  }

  /** Every transfer started is counted dead, in flight, or lost to a failed submission. */
  predicate Inv(s: State) {
    s.deadXfers + Flying(s.flying) + s.lost == |s.flying| <= s.num && (s.dead ==> |s.flying| == s.num)
  }

  lemma StepKeepsInv(s: State, e: Event)
    requires Inv(s) && Enabled(s, e)
    ensures Inv(Step(s, e))
  {
    match e
    case Start(ok) => FlyingAppend(s.flying, ok);
    case Complete(i, completed, resubmitted) =>
      FlyingUpdate(s.flying, i, if s.dead || !completed then false else resubmitted);
    case Kill =>
    case Free =>
  }

  /** A completion after the stream was declared dead moves one transfer from in flight to dead. */
  lemma DeadStepProgress(s: State, e: Event)
    requires Enabled(s, e) && s.dead && e.Complete?
    ensures var s' := Step(s, e);
            && s'.dead && s'.num == s.num && s'.lost == s.lost
            && Flying(s'.flying) == Flying(s.flying) - 1 && s'.deadXfers == s.deadXfers + 1
  {
    FlyingUpdate(s.flying, e.i, false);
  }

  predicate CanRun(s: State, es: seq<Event>)
    decreases |es|
  {
    es == [] || (Enabled(s, es[0]) && CanRun(Step(s, es[0]), es[1..]))
  }

  function Run(s: State, es: seq<Event>): State
    requires CanRun(s, es)
    decreases |es|
  {
    if es == [] then s else Run(Step(s, es[0]), es[1..])
  }

  predicate Init(s: State) {
    !s.dead && s.deadXfers == 0 && s.flying == [] && s.lost == 0 && !s.freed
  }

  lemma {:induction false} RunKeepsInv(s: State, es: seq<Event>)
    requires Inv(s) && CanRun(s, es)
    ensures Inv(Run(s, es))
    decreases |es|
  {
    if es != [] {
      hide Inv, Step, Enabled;
      StepKeepsInv(s, es[0]);
      RunKeepsInv(Step(s, es[0]), es[1..]);
    }
  }

  /** Main result: however the run goes and whatever submissions fail, the count of dead transfers and those
      in flight never exceeds their number, and the transfers are freed only when none is in flight. */
  lemma FreedOnlyWhenQuiet(s: State, es: seq<Event>)
    requires Init(s) && CanRun(s, es)
    ensures var s' := Run(s, es);
            && s'.deadXfers + Flying(s'.flying) <= s'.num
            && (Enabled(s', Free) ==> Flying(s'.flying) == 0)
  {
    RunKeepsInv(s, es);
  }

  /** How many completions of a run were not resubmitted: those that came after the stream was declared dead, and
      those that were not successful. */
  function Ended(es: seq<Event>, dead: bool): nat {
    if es == [] then 0
    else (if es[0].Complete? && (dead || !es[0].completed) then 1 else 0) + Ended(es[1..], dead || es[0].Kill?)
  }

  /** How many submissions of a run failed: at the start, and behind a successful completion of a live stream. */
  function Refused(es: seq<Event>, dead: bool): nat {
    if es == [] then 0
    else
      (if (es[0].Start? && !es[0].ok) || (es[0].Complete? && es[0].completed && !dead && !es[0].resubmitted) then 1
       else 0)
      + Refused(es[1..], dead || es[0].Kill?)
  }

  /** Main result: over every run the counter of dead transfers is the number of completions that were not
      resubmitted, and what is lost are the failed submissions. */
  lemma {:induction false} RunCounts(s: State, es: seq<Event>)
    requires CanRun(s, es)
    ensures Run(s, es).deadXfers == s.deadXfers + Ended(es, s.dead)
    ensures Run(s, es).lost == s.lost + Refused(es, s.dead)
    ensures Run(s, es).num == s.num
    decreases |es|
  {
    if es != [] {
      RunCounts(Step(s, es[0]), es[1..]);
    }
  }

  /** The stream starts its transfers, is declared dead once, and after the transfers are freed nothing comes any
      more: no callback meets freed memory. */
  lemma PhasesFollow(s: State, e: Event)
    requires Inv(s) && Enabled(s, e)
    ensures e.Start? ==> !s.dead && |s.flying| < s.num && !Enabled(s, Kill)
    ensures e.Kill? ==>
              !s.dead && |s.flying| == s.num && forall e' :: Enabled(Step(s, e), e') ==> e'.Complete? || e'.Free?
    ensures e.Free? ==> s.dead && forall e' :: !Enabled(Step(s, e), e')
    ensures !s.dead && !e.Kill? && !Step(s, e).freed ==>
              Enabled(Step(s, e), Kill) || Enabled(Step(s, e), Start(true))
  {
  }

  predicate OnlyCompletions(es: seq<Event>) {
    es == [] || (es[0].Complete? && OnlyCompletions(es[1..]))
  }

  lemma {:induction false} DeadRunProgress(s: State, es: seq<Event>)
    requires s.dead && CanRun(s, es) && OnlyCompletions(es)
    ensures var s' := Run(s, es);
            && s'.dead && s'.num == s.num && s'.lost == s.lost && s'.freed == s.freed
            && Flying(s'.flying) == Flying(s.flying) - |es|
            && s'.deadXfers == s.deadXfers + |es|
    decreases |es|
  {
    if es != [] {
      DeadStepProgress(s, es[0]);
      DeadRunProgress(Step(s, es[0]), es[1..]);
    }
  }

  /** Main result: once the stream is dead no more completions can follow than transfers are in flight, and
      when they all have come back the waiting loop is left exactly if no submission ever failed. With a
      submission lost it waits for ever. */
  lemma ShutdownEndsIff(s: State, es: seq<Event>)
    requires Inv(s) && s.dead && !s.freed && CanRun(s, es) && OnlyCompletions(es)
    ensures |es| <= Flying(s.flying)
    ensures |es| == Flying(s.flying) ==> (Enabled(Run(s, es), Free) <==> s.lost == 0)
    ensures s.lost > 0 ==> !Enabled(Run(s, es), Free)
  {
    DeadRunProgress(s, es);
  }

  /** As long as anything is in flight, another completion is possible. */
  lemma {:induction false} FlyingCanComplete(f: seq<bool>) returns (i: nat)
    requires Flying(f) > 0
    ensures i < |f| && f[i]
  {
    if f[0] {
      i := 0;
    } else {
      i := FlyingCanComplete(f[1..]);
      i := i + 1;
    }
  }

  // ---- where the packets lie ----

  /** The place of packet j of transfer i among all packets. */
  function PacketIndex(i: nat, j: nat, pkts: nat): nat {
    MulMonotone(0, i, pkts);
    i * pkts + j
  }

  /** The offset of a packet in the stream's buffer. */
  function PacketAt(i: nat, j: nat, pkts: nat, len: nat): int {
    PacketIndex(i, j, pkts) * len
  }

  lemma IndexOrder(xfers: nat, pkts: nat, i: nat, j: nat, i': nat, j': nat)
    requires i < xfers && j < pkts && j' < pkts
    ensures PacketIndex(i, j, pkts) + 1 <= xfers * pkts
    ensures i < i' || (i == i' && j < j') ==> PacketIndex(i, j, pkts) + 1 <= PacketIndex(i', j', pkts)
  {
    MulMonotone(i + 1, xfers, pkts);
    if i < i' {
      MulMonotone(i + 1, i', pkts);
    }
  }

  lemma Apart(k: nat, k': nat, len: nat)
    requires k + 1 <= k'
    ensures 0 <= k * len && k * len + len <= k' * len
  {
    MulMonotone(k + 1, k', len);
    MulMonotone(0, k, len);
    MulStep(k + 1, len);
  }

  /** The packets of all transfers lie inside the buffer, and apart from each other. */
  lemma PacketsDisjoint(xfers: nat, pkts: nat, len: nat, i: nat, j: nat, i': nat, j': nat)
    requires i < xfers && j < pkts && i' < xfers && j' < pkts
    ensures 0 <= PacketAt(i, j, pkts, len) && PacketAt(i, j, pkts, len) + len <= xfers * pkts * len
    ensures i < i' || (i == i' && j < j') ==> PacketAt(i, j, pkts, len) + len <= PacketAt(i', j', pkts, len)
  {
    IndexOrder(xfers, pkts, i, j, i', j');
    hide PacketIndex;
    Apart(PacketIndex(i, j, pkts), xfers * pkts, len);
    if i < i' || (i == i' && j < j') {
      Apart(PacketIndex(i, j, pkts), PacketIndex(i', j', pkts), len);
    }
  }

  lemma NothingStarted(pkts: nat, len: nat)
    ensures Flying([]) == 0 && PacketAt(0, 0, pkts, len) == 0
  {
  }

  lemma NextStart(i: nat, pkts: nat, len: nat)
    ensures PacketAt(i + 1, 0, pkts, len) == PacketAt(i, 0, pkts, len) + pkts * len
  {
    assert (i + 1) * pkts == i * pkts + pkts;
    assert (i * pkts + pkts) * len == i * pkts * len + pkts * len;
  }

  lemma NextPacket(i: nat, j: nat, pkts: nat, len: nat)
    ensures PacketAt(i, j + 1, pkts, len) == PacketAt(i, j, pkts, len) + len
  {
    assert (PacketIndex(i, j, pkts) + 1) * len == PacketIndex(i, j, pkts) * len + len;
  }

  // ---- the stream object ----

  function Completions(order: seq<nat>): (es: seq<Event>)
    ensures |es| == |order| && OnlyCompletions(es)
  {
    if order == [] then [] else [Complete(order[0], false, false)] + Completions(order[1..])
  }

  datatype Packet = Packet(offset: int, length: nat)

  class IsoStream {
    var dead: bool
    var deadXfers: nat
    var numXfers: nat
    var pkts: nat
    var len: nat
    /** Where each transfer's part of the buffer starts. */
    var starts: seq<int>
    /** The packets handed to the stream's callback. */
    var packets: seq<Packet>

    ghost var flying: seq<bool>
    ghost var lost: nat
    ghost var freed: bool

    ghost function View(): State
      reads this
    {
      State(numXfers, dead, deadXfers, flying, lost, freed)
    }

    ghost predicate StartsOk()
      reads this
    {
      |starts| == |flying| && forall i :: 0 <= i < |starts| ==> starts[i] == PacketAt(i, 0, pkts, len)
    }

    /** fnusb_start_iso; results says which submissions succeed. */
    method StartIso(xfers: nat, pkts: nat, len: nat, results: seq<bool>)
      requires |results| == xfers
      modifies this
      ensures View() == State(xfers, false, 0, results, xfers - Flying(results), false)
      ensures this.pkts == pkts && this.len == len
      ensures StartsOk()
      ensures packets == []
    {
      hide Flying, PacketAt;
      NothingStarted(pkts, len);
      numXfers, this.pkts, this.len := xfers, pkts, len;
      dead, deadXfers, starts, packets := false, 0, [], [];
      flying, lost, freed := [], 0, false;
      var bufp := 0;
      for i := 0 to xfers
        invariant View() == State(xfers, false, 0, results[..i], i - Flying(results[..i]), false)
        invariant this.pkts == pkts && this.len == len && packets == []
        invariant bufp == PacketAt(i, 0, pkts, len)
        invariant StartsOk()
      {
        starts := starts + [bufp];
        FlyingAppend(results[..i], results[i]);
        assert results[..i + 1] == results[..i] + [results[i]];
        flying, lost := flying + [results[i]], lost + if results[i] then 0 else 1;
        NextStart(i, pkts, len);
        bufp := bufp + pkts * len;
      }
      assert results[..xfers] == results;
    }

    /** iso_callback for transfer i, which has just come back. */
    method IsoCallback(i: nat, completed: bool, actualLengths: seq<nat>, resubmitted: bool)
      requires i < |flying| && flying[i] && !freed && |actualLengths| == pkts && StartsOk()
      modifies this
      ensures View() == Step(old(View()), Complete(i, completed, resubmitted))
      ensures pkts == old(pkts) && len == old(len) && StartsOk()
      ensures if old(dead) || !completed then packets == old(packets)
              else |packets| == old(|packets|) + pkts && packets[..old(|packets|)] == old(packets) &&
                   forall j :: 0 <= j < pkts ==>
                     packets[old(|packets|) + j] == Packet(PacketAt(i, j, pkts, len), actualLengths[j])
    {
      flying := flying[i := false];
      if dead {
        deadXfers := deadXfers + 1;
        return;
      }
      if completed {
        var buf := starts[i];
        for j := 0 to pkts
          invariant buf == PacketAt(i, j, pkts, len)
          invariant |packets| == old(|packets|) + j && packets[..old(|packets|)] == old(packets)
          invariant forall k :: 0 <= k < j ==>
                      packets[old(|packets|) + k] == Packet(PacketAt(i, k, pkts, len), actualLengths[k])
          modifies `packets
        {
          packets := packets + [Packet(buf, actualLengths[j])];
          NextPacket(i, j, pkts, len);
          buf := buf + len;
        }
        flying, lost := flying[i := resubmitted], lost + if resubmitted then 0 else 1;
      } else {
        deadXfers := deadXfers + 1;
      }
    }

    /** fnusb_stop_iso: completions is the order in which transfers come back while it waits; if they run out
        it is still waiting. */
    method StopIso(completions: seq<nat>) returns (done: bool)
      requires Inv(View()) && |flying| == numXfers && !dead && !freed && StartsOk()
      requires CanRun(View().(dead := true), Completions(completions))
      modifies this
      ensures done <==> old(lost) == 0 && |completions| == Flying(old(flying))
      ensures done ==> View() == State(0, false, 0, [], 0, true)
    {
      DeadRunProgress(View().(dead := true), Completions(completions));
      dead := true;
      var n := 0;
      while deadXfers < numXfers && n < |completions|
        invariant n <= |completions|
        invariant dead && Inv(View()) && !freed && |flying| == numXfers && lost == old(lost) && StartsOk()
        invariant Flying(flying) == Flying(old(flying)) - n
        invariant CanRun(View(), Completions(completions[n..])) && |completions| <= Flying(old(flying))
      {
        DeadStepProgress(View(), Complete(completions[n], false, false));
        StepKeepsInv(View(), Complete(completions[n], false, false));
        assert completions[n..][1..] == completions[n + 1..];
        IsoCallback(completions[n], false, seq(pkts, _ => 0), false);
        n := n + 1;
      }
      done := deadXfers >= numXfers;
      if done {
        dead, deadXfers, numXfers, pkts, len, starts := false, 0, 0, 0, 0, [];
        flying, lost, freed := [], 0, true;
      }
    }
  }
}
