/** What the packet receiver guarantees over whole runs: for arbitrary packets, and for a
    well-behaved sender behind a channel that drops packets. */
module LossyReassembly {
  import opened Arithmetic
  import opened Bytes
  import opened PacketStreams
  import opened Wrappers

  // ---- arbitrary packets ----

  /** The three flags of a stream whose base flag leaves the low three bits free. */
  lemma FlagsDistinct(g: Geometry)
    requires g.flag % 8 == 0
    ensures g.Sof() == g.flag + 1 && g.Mof() == g.flag + 2 && g.Eof() == g.flag + 5
  {
    assert g.flag % 2 == 0 && g.flag / 2 % 2 == 0 && (g.flag + 1) / 4 % 2 == 0;
  }

  ghost predicate FixedMode(g: Geometry) {
    g.Ok() && !g.variableLength && g.flag % 8 == 0
  }

  /** The counters of a synced receiver stay inside the current frame. */
  ghost predicate FrameInv(g: Geometry, s: State) {
    && Valid(g, s)
    && s.validPkts <= g.pktsPerFrame
    && (s.synced ==> 0 <= s.gotPkts <= s.pktNum < g.pktsPerFrame)
  }

  lemma StepKeepsFrameInv(g: Geometry, s: State, pkt: seq<Byte>)
    requires FixedMode(g) && g.pktsPerFrame >= 2 && FrameInv(g, s)
    ensures FrameInv(g, Step(g, s, pkt).0)
    ensures Step(g, s, pkt).1 == 0 || Step(g, s, pkt).1 == g.frameSize
  {
    FlagsDistinct(g);
    SlotsTileFrame(g);
  }

  /** With one packet per frame a start flag never ends the frame, so the packet counter runs past it. */
  lemma OnePacketFramesOverrun(g: Geometry, s: State, pkt: seq<Byte>)
    requires FixedMode(g) && g.pktsPerFrame == 1 && FrameInv(g, s) && !s.synced
    requires WellFormed(pkt) && FlagOf(pkt) == g.Sof() && |pkt| == HEADER_LENGTH
    ensures !FrameInv(g, Step(g, s, pkt).0)
  {
    FlagsDistinct(g);
    SlotsTileFrame(g);
  }

  /** The frame invariant is kept by every packet exactly when a frame has at least two packets. */
  lemma FrameInvIffTwoPackets(g: Geometry)
    requires FixedMode(g) && g.flag + 1 < 256
    ensures (forall s, pkt | FrameInv(g, s) :: FrameInv(g, Step(g, s, pkt).0)) <==> g.pktsPerFrame >= 2
  {
    SlotsTileFrame(g);
    if g.pktsPerFrame >= 2 {
      forall s, pkt | FrameInv(g, s) ensures FrameInv(g, Step(g, s, pkt).0) {
        StepKeepsFrameInv(g, s, pkt);
      }
    } else {
      FlagsDistinct(g);
      var s := State(false, 0, 0, 0, 0, 0, 0, 0, seq(g.frameSize, _ => 0));
      var pkt: seq<Byte> := [0x52, 0x42, 0, g.flag + 1, 0, 0, 0, 0, 0, 0, 0, 0];
      OnePacketFramesOverrun(g, s, pkt);
      assert FrameInv(g, s);
    }
  }

  /** A packet changes at most the bytes of one slot, and that slot lies inside the frame. */
  lemma StepWritesOneSlot(g: Geometry, s: State, pkt: seq<Byte>)
    requires Valid(g, s)
    ensures !Accepts(g, s, pkt) ==> Step(g, s, pkt).0.buf == s.buf
    ensures Accepts(g, s, pkt) ==>
              var slot := Skipped(g, s, pkt).0.pktNum;
              && 0 <= slot < g.pktsPerFrame && |DataOf(pkt)| <= g.SlotSize(slot)
              && 0 <= slot * g.pktSize && slot * g.pktSize + g.SlotSize(slot) <= g.frameSize
              && Step(g, s, pkt).0.buf == Overwrite(s.buf, slot * g.pktSize, DataOf(pkt))
  {
    SlotsTileFrame(g);
    if Accepts(g, s, pkt) {
      SlotBounds(g, Skipped(g, s, pkt).0.pktNum);
    }
  }

  /** A packet in sequence with the flag of its slot: one that is too long is passed over as if it had never come,
      and any other one is copied, also if it is too short. */
  lemma LengthInSequence(g: Geometry, s: State, pkt: seq<Byte>)
    requires FixedMode(g) && g.pktsPerFrame >= 2 && FrameInv(g, s) && s.synced && WellFormed(pkt)
    requires SeqOf(pkt) == s.seqNo && FlagOf(pkt) == g.FlagOfSlot(s.pktNum)
    ensures |DataOf(pkt)| > g.SlotSize(s.pktNum) ==> Step(g, s, pkt) == (s, 0)
    ensures |DataOf(pkt)| <= g.SlotSize(s.pktNum) ==>
              var t := Step(g, s, pkt).0;
              && 0 <= s.pktNum * g.pktSize && s.pktNum * g.pktSize + |DataOf(pkt)| <= |s.buf|
              && t.buf == Overwrite(s.buf, s.pktNum * g.pktSize, DataOf(pkt))
              && t.synced && t.seqNo == (s.seqNo + 1) % 256
              && (s.pktNum < g.pktsPerFrame - 1 ==> t.pktNum == s.pktNum + 1 && t.gotPkts == s.gotPkts + 1)
              && (s.pktNum == g.pktsPerFrame - 1 ==>
                    t.pktNum == 0 && t.gotPkts == 0 && t.validPkts == s.gotPkts + 1)
  {
    FlagsDistinct(g);
    SlotBounds(g, s.pktNum);
    hide SetBit, PacketsPerFrame, LastPacketSize, Overwrite;
  }

  /** What makes a synced receiver wait for the next start of a frame, and do nothing else: another flag than that
      of the slot, or a gap of more than five. */
  lemma LosesSync(g: Geometry, s: State, pkt: seq<Byte>)
    requires FixedMode(g) && g.pktsPerFrame >= 2 && FrameInv(g, s) && s.synced && WellFormed(pkt)
    ensures SeqOf(pkt) == s.seqNo && FlagOf(pkt) != g.FlagOfSlot(s.pktNum) ==>
              Step(g, s, pkt) == (s.(synced := false), 0)
    ensures (SeqOf(pkt) - s.seqNo) % 256 > 5 ==> Step(g, s, pkt) == (s.(synced := false), 0)
  {
    FlagsDistinct(g);
    SlotsTileFrame(g);
  }

  /** A receiver that is not synced waits for the start of a frame, and then begins afresh with it. What is no packet
      at all is ignored. */
  lemma FindsSync(g: Geometry, s: State, pkt: seq<Byte>)
    requires FixedMode(g) && g.pktsPerFrame >= 2 && FrameInv(g, s)
    ensures |pkt| < 12 || pkt[0] != 0x52 || pkt[1] != 0x42 ==> Step(g, s, pkt) == (s, 0)
    ensures !s.synced && WellFormed(pkt) && FlagOf(pkt) != g.flag + 1 ==> Step(g, s, pkt) == (s, 0)
    ensures !s.synced && WellFormed(pkt) && FlagOf(pkt) == g.flag + 1 && |DataOf(pkt)| <= g.pktSize <= |s.buf| ==>
              var (t, got) := Step(g, s, pkt);
              && t.synced && t.seqNo == (SeqOf(pkt) + 1) % 256 && t.pktNum == 1 && t.gotPkts == 1 && t.validPkts == 0
              && got == 0 && t.buf == Overwrite(s.buf, 0, DataOf(pkt))
  {
    FlagsDistinct(g);
    SlotBounds(g, 0);
    hide SetBit, PacketsPerFrame, LastPacketSize, Overwrite;
  }

  /** In variable-length mode any gap, a packet that is too long, and a short one that does not end the frame make
      the receiver wait for the next start. */
  lemma VariableLosesSync(g: Geometry, s: State, pkt: seq<Byte>)
    requires g.variableLength && g.flag % 8 == 0 && Valid(g, s) && s.synced && WellFormed(pkt)
    requires s.pktNum < g.pktsPerFrame
    ensures SeqOf(pkt) != s.seqNo ==> Step(g, s, pkt) == (s.(synced := false), 0)
    ensures SeqOf(pkt) == s.seqNo ==>
              (Step(g, s, pkt).0.synced
               <==> (FlagOf(pkt) == g.flag + 5 && |DataOf(pkt)| <= g.SlotSize(s.pktNum))
                    || (FlagOf(pkt) == g.flag + 2 && |DataOf(pkt)| == g.SlotSize(s.pktNum))
                    || (FlagOf(pkt) == g.flag + 1 && s.pktNum == 0 && |DataOf(pkt)| == g.SlotSize(s.pktNum)))
  {
    FlagsDistinct(g);
    SlotBounds(g, s.pktNum);
    hide SetBit, PacketsPerFrame, LastPacketSize, Overwrite;
  }

  // ---- a sender behind a lossy channel ----

  /** The slot and the sequence number of the sender's n-th packet. */
  function SlotOf(g: Geometry, n: nat): (slot: int)
    requires g.pktsPerFrame > 0
    ensures 0 <= slot < g.pktsPerFrame
  {
    n % g.pktsPerFrame
  }

  function SeqAt(s0: int, n: nat): (seqNo: int)
    ensures 0 <= seqNo < 256
  {
    (s0 + n) % 256
  }

  /** The n-th packet of a sender that numbers its packets from s0 and fills the slots in turn. */
  ghost predicate IsNth(g: Geometry, s0: int, n: nat, pkt: seq<Byte>)
    requires g.pktsPerFrame > 0
  {
    && WellFormed(pkt)
    && SeqOf(pkt) == SeqAt(s0, n)
    && FlagOf(pkt) == g.FlagOfSlot(SlotOf(g, n))
    && |DataOf(pkt)| == g.SlotSize(SlotOf(g, n))
  }

  /** Everything a sender ever sends; the packets may differ in payload and timestamps. */
  ghost predicate IsSender(g: Geometry, s0: int, sent: nat -> seq<Byte>)
    requires g.pktsPerFrame > 0
  {
    forall n: nat :: IsNth(g, s0, n, sent(n))
  }

  /** A synced receiver expects exactly packet number next. */
  ghost predicate Tracks(g: Geometry, s0: int, s: State, next: nat)
    requires g.pktsPerFrame > 0
  {
    s.synced ==> s.seqNo == SeqAt(s0, next) && s.pktNum == SlotOf(g, next)
  }

  lemma SlotAfter(g: Geometry, n: nat, d: nat)
    requires g.pktsPerFrame > 0
    ensures SlotOf(g, n) + d < g.pktsPerFrame ==> SlotOf(g, n + d) == SlotOf(g, n) + d
    ensures g.pktsPerFrame <= SlotOf(g, n) + d < 2 * g.pktsPerFrame ==>
              SlotOf(g, n + d) == SlotOf(g, n) + d - g.pktsPerFrame
  {
    var m := g.pktsPerFrame;
    if n % m + d < m {
      DivModUnique(n + d, m, n / m, n % m + d);
    } else if n % m + d < 2 * m {
      assert (n / m + 1) * m == n / m * m + m;
      DivModUnique(n + d, m, n / m + 1, n % m + d - m);
    }
  }

  lemma Mod256(x: int, k: int)
    ensures (x + 256 * k) % 256 == x % 256
  {
  }

  lemma SeqAfter(s0: int, n: nat, d: nat)
    ensures SeqAt(s0, n + d) == (SeqAt(s0, n) + d) % 256 == (SeqAt(s0, n) + d % 256) % 256
    ensures (SeqAt(s0, n + d) - SeqAt(s0, n)) % 256 == d % 256
  {
    var a := s0 + n;
    Mod256(a % 256 + d, a / 256);
    Mod256(a % 256 + d % 256, d / 256);
    Mod256(d, a / 256 - (a + d) / 256);
  }

  /** How many packets the sequence numbers say were lost before packet n. */
  function Gap(next: nat, n: nat): (e: nat)
    ensures e < 256
    ensures next <= n < next + 256 ==> e == n - next
  {
    (n - next) % 256
  }

  predicate Inner(g: Geometry, slot: int) {
    0 < slot < g.pktsPerFrame - 1
  }

  /** A tracking receiver takes packet n for an inner packet of another slot: its sequence number has wrapped
      round to within reach, and only the flag could tell. */
  predicate Misplaces(g: Geometry, synced: bool, next: nat, n: nat)
    requires g.pktsPerFrame > 0
  {
    var e := Gap(next, n);
    && synced && e <= MAX_LOST && SlotOf(g, next) + e < 2 * g.pktsPerFrame
    && Inner(g, SlotOf(g, next + e)) && Inner(g, SlotOf(g, n)) && SlotOf(g, next + e) != SlotOf(g, n)
  }

  /** Within a frame the receiver bridges a loss of at most five packets. */
  lemma FiveMayBeLost(g: Geometry, next: nat, n: nat)
    requires g.pktsPerFrame > 0 && next <= n < next + 256 && SlotOf(g, next) + (n - next) < g.pktsPerFrame
    ensures Reachable(g, true, next, n) <==> n - next <= 5
  {
    SlotAfter(g, next, n - next);
  }

  /** The sequence number hides a loss altogether: a multiple of 256 packets that ends at the same slot, in
      the middle of a frame. */
  predicate Silent(g: Geometry, synced: bool, next: nat, n: nat)
    requires g.pktsPerFrame > 0
  {
    synced && n != next && Gap(next, n) == 0 && SlotOf(g, n) == SlotOf(g, next) != 0
  }

  /** Which packets a tracking receiver takes: at most five in a row seem lost, within this frame or the
      next, and the slot is the one the sender filled. */
  predicate Reachable(g: Geometry, synced: bool, next: nat, n: nat)
    requires g.pktsPerFrame > 0
  {
    if synced then
      var e := Gap(next, n);
      e <= MAX_LOST && SlotOf(g, next) + e < 2 * g.pktsPerFrame && SlotOf(g, next + e) == SlotOf(g, n)
    else SlotOf(g, n) == 0
  }

  /** Fewer than 256 packets lost in a row never misplace one. */
  lemma ShortGapsAreHarmless(g: Geometry, synced: bool, next: nat, n: nat)
    requires g.pktsPerFrame > 0 && next <= n < next + 256
    ensures !Misplaces(g, synced, next, n) && !Silent(g, synced, next, n)
  {
  }

  /** The skipping code on its own: it wraps the packet counter once, or runs past the frame. */
  lemma SkipLostWraps(g: Geometry, s: State, lost: int)
    requires 0 <= s.pktNum < g.pktsPerFrame && 0 <= lost
    ensures var t := SkipLost(g, s, lost).0;
            && t.synced == s.synced && t.buf == s.buf
            && (t.pktNum < g.pktsPerFrame <==> s.pktNum + lost < 2 * g.pktsPerFrame)
            && t.pktNum == s.pktNum + lost - (if s.pktNum + lost < g.pktsPerFrame then 0 else g.pktsPerFrame)
            && (0 <= s.seqNo < 256 ==> t.seqNo == (s.seqNo + lost) % 256)
  {
  }

  /** The flag of a packet fits its own slot, and an inner packet's flag fits every inner slot. */
  lemma FlagFits(g: Geometry, k: int, slot: int)
    requires FixedMode(g) && g.pktsPerFrame >= 2 && 0 <= slot < g.pktsPerFrame
    ensures FlagExpected(g, k, g.FlagOfSlot(slot)) <==> k == slot || (Inner(g, k) && Inner(g, slot))
    ensures k == slot || (Inner(g, k) && Inner(g, slot)) ==> g.SlotSize(k) == g.SlotSize(slot)
    ensures g.FlagOfSlot(slot) == g.Eof() <==> slot == g.pktsPerFrame - 1
    ensures g.FlagOfSlot(slot) == g.Sof() <==> slot == 0
  {
    FlagsDistinct(g);
  }

  lemma LostIsGap(g: Geometry, s0: int, s: State, next: nat, n: nat, pkt: seq<Byte>)
    requires g.pktsPerFrame > 0 && s.synced && Tracks(g, s0, s, next)
    requires next <= n && IsNth(g, s0, n, pkt)
    ensures LostBefore(s, pkt) == Gap(next, n) && SeqAt(s0, n) == (s.seqNo + Gap(next, n)) % 256
  {
    hide SlotOf, FlagOf, DataOf, SetBit, SeqAt, WellFormed;
    SeqAfter(s0, next, n - next);
  }

  lemma SkipWhenUnsynced(g: Geometry, s: State, pkt: seq<Byte>)
    requires WellFormed(pkt) && !s.synced && FlagOf(pkt) == g.Sof()
    ensures Reaches(g, s, pkt)
    ensures var t := Skipped(g, s, pkt).0;
            t.synced && t.seqNo == SeqOf(pkt) && t.buf == s.buf && t.pktNum == 0 == t.gotPkts
  {
  }

  lemma SkipWhenSynced(g: Geometry, s: State, pkt: seq<Byte>)
    requires WellFormed(pkt) && s.synced && !g.variableLength
    requires 0 <= s.pktNum < g.pktsPerFrame && 0 <= s.seqNo < 256
    ensures Reaches(g, s, pkt) <==> LostBefore(s, pkt) <= MAX_LOST
    ensures Skipped(g, s, pkt) == SkipLost(g, s, LostBefore(s, pkt))
  {
  }

  /** Behind a gap the skipping code stands at the slot the sequence numbers point to, or past the frame. */
  lemma SkipFindsSlot(g: Geometry, s0: int, s: State, next: nat, n: nat, pkt: seq<Byte>)
    requires FixedMode(g) && g.pktsPerFrame >= 2 && Valid(g, s) && Tracks(g, s0, s, next)
    requires next <= n && IsNth(g, s0, n, pkt)
    requires s.synced || FlagOf(pkt) == g.Sof()
    ensures Reaches(g, s, pkt) <==> (s.synced ==> Gap(next, n) <= MAX_LOST)
    ensures Reaches(g, s, pkt) ==>
              var (t, e) := (Skipped(g, s, pkt).0, Gap(next, n));
              && t.synced && t.seqNo == SeqAt(s0, n) && t.buf == s.buf
              && (s.synced ==> (t.pktNum < g.pktsPerFrame <==> SlotOf(g, next) + e < 2 * g.pktsPerFrame))
              && (s.synced && t.pktNum < g.pktsPerFrame ==> t.pktNum == SlotOf(g, next + e))
              && (!s.synced ==> t.pktNum == 0 == SlotOf(g, n))
  {
    FlagFits(g, 0, SlotOf(g, n));
    hide PacketsPerFrame, LastPacketSize, SkipLost, SetBit, SlotOf, SeqAt, FlagOf, SeqOf, DataOf, WellFormed,
         Reaches, Skipped, Gap;
    if s.synced {
      LostIsGap(g, s0, s, next, n, pkt);
      SlotAfter(g, next, Gap(next, n));
      SkipWhenSynced(g, s, pkt);
      SkipLostWraps(g, s, Gap(next, n));
    } else {
      SkipWhenUnsynced(g, s, pkt);
    }
  }

  /** One packet of the sender, after a gap of any length: where it is put if it is taken at all. */
  lemma StepPlaces(g: Geometry, s0: int, s: State, next: nat, n: nat, pkt: seq<Byte>)
    requires FixedMode(g) && g.pktsPerFrame >= 2 && Valid(g, s) && Tracks(g, s0, s, next)
    requires next <= n && IsNth(g, s0, n, pkt)
    ensures Accepts(g, s, pkt) <==> Reachable(g, s.synced, next, n) || Misplaces(g, s.synced, next, n)
    ensures Step(g, s, pkt).0.synced <==> Accepts(g, s, pkt)
    ensures Accepts(g, s, pkt) ==>
              var (t, k) := (Step(g, s, pkt).0, Skipped(g, s, pkt).0.pktNum);
              && k == (if s.synced then SlotOf(g, next + Gap(next, n)) else 0)
              && t.seqNo == (SeqAt(s0, n) + 1) % 256
              && t.pktNum == if SlotOf(g, n) == g.pktsPerFrame - 1 then 0 else k + 1
  {
    FlagFits(g, 0, SlotOf(g, n));
    hide PacketsPerFrame, LastPacketSize, SetBit, SkipLost, Skipped, SlotOf, SeqAt, Gap;
    if s.synced || FlagOf(pkt) == g.Sof() {
      SkipFindsSlot(g, s0, s, next, n, pkt);
      if Reaches(g, s, pkt) {
        FlagFits(g, Skipped(g, s, pkt).0.pktNum, SlotOf(g, n));
        hide FlagExpected, Reaches;
      }
    }
  }

  /** Main result: the receiver goes on tracking the sender exactly if the packet is not misplaced, whatever
      was lost before it. */
  lemma TracksOnIff(g: Geometry, s0: int, s: State, next: nat, n: nat, pkt: seq<Byte>)
    requires FixedMode(g) && g.pktsPerFrame >= 2 && Valid(g, s) && Tracks(g, s0, s, next)
    requires next <= n && IsNth(g, s0, n, pkt)
    ensures Tracks(g, s0, Step(g, s, pkt).0, n + 1) <==> !Misplaces(g, s.synced, next, n)
  {
    StepPlaces(g, s0, s, next, n, pkt);
    SlotAfter(g, n, 1);
    SeqAfter(s0, n, 1);
    hide PacketsPerFrame, LastPacketSize, Step, Accepts, Skipped, SlotOf, SeqAt, Gap, IsNth;
  }

  /** One received packet that is not misplaced: the receiver still tracks the sender, takes the packet
      exactly when it can be reached, and puts its payload at the sender's own offset. */
  lemma StepTracksSender(g: Geometry, s0: int, s: State, next: nat, n: nat, pkt: seq<Byte>)
    requires FixedMode(g) && g.pktsPerFrame >= 2 && Valid(g, s) && Tracks(g, s0, s, next)
    requires next <= n && IsNth(g, s0, n, pkt) && !Misplaces(g, s.synced, next, n)
    ensures Tracks(g, s0, Step(g, s, pkt).0, n + 1)
    ensures Accepts(g, s, pkt) <==> Reachable(g, s.synced, next, n)
    ensures Step(g, s, pkt).0.synced <==> Reachable(g, s.synced, next, n)
    ensures Accepts(g, s, pkt) ==> Skipped(g, s, pkt).0.pktNum == SlotOf(g, n)
  {
    StepPlaces(g, s0, s, next, n, pkt);
    TracksOnIff(g, s0, s, next, n, pkt);
    hide PacketsPerFrame, LastPacketSize, Step, Accepts, Skipped, SlotOf, SeqAt, Gap, IsNth, Tracks;
  }

  /** A misplaced packet overwrites a slot that is not its own. The shortest loss that can do it is of 256. */
  lemma MisplacedPacket(g: Geometry, s0: int, s: State, next: nat, n: nat, pkt: seq<Byte>)
    requires FixedMode(g) && g.pktsPerFrame >= 2 && Valid(g, s) && Tracks(g, s0, s, next)
    requires next <= n && IsNth(g, s0, n, pkt) && Misplaces(g, s.synced, next, n)
    ensures n >= next + 256
    ensures Accepts(g, s, pkt) && Skipped(g, s, pkt).0.pktNum == SlotOf(g, next + Gap(next, n)) != SlotOf(g, n)
  {
    StepPlaces(g, s0, s, next, n, pkt);
  }

  /** Exactly when the loss of 256 packets throws the receiver off: in the middle of a frame, if the slot
      reached is another one, also in the middle. */
  lemma LossOf256Misplaces(g: Geometry, s0: int, s: State, next: nat, n: nat, pkt: seq<Byte>)
    requires FixedMode(g) && g.pktsPerFrame >= 2 && Valid(g, s) && Tracks(g, s0, s, next)
    requires n == next + 256 && IsNth(g, s0, n, pkt)
    ensures !Tracks(g, s0, Step(g, s, pkt).0, n + 1)
       <==> s.synced && Inner(g, SlotOf(g, next)) && Inner(g, SlotOf(g, n)) && SlotOf(g, n) != SlotOf(g, next)
  {
    TracksOnIff(g, s0, s, next, n, pkt);
    hide PacketsPerFrame, LastPacketSize, Step, SlotOf, IsNth, Tracks;
  }

  /** Such losses exist for the Bayer stream, with frames of 307200 bytes in packets of 1908: after packet 0, the
      loss of packets 1 to 256 puts packet 257 into slot 1, which is not its own. Not even the slot reveals the
      loss of packets 1 to 20736. */
  lemma BayerStreamLosses(g: Geometry)
    requires g.Ok() && g.frameSize == 307200 && g.pktSize == 1908
    ensures SlotOf(g, 1) == 1 && SlotOf(g, 257) == 95 && SlotOf(g, 20737) == 1
    ensures Misplaces(g, true, 1, 257) && Silent(g, true, 1, 20737)
  {
    assert g.pktsPerFrame == 162;
  }

  /** Packet n of the sender reaches a receiver that tracks it, and is not misplaced. */
  ghost predicate Arrives(g: Geometry, s0: int, s: State, next: nat, n: nat, pkt: seq<Byte>) {
    && FixedMode(g) && g.pktsPerFrame >= 2 && FrameInv(g, s) && Tracks(g, s0, s, next)
    && next <= n && IsNth(g, s0, n, pkt) && !Misplaces(g, s.synced, next, n)
  }

  // ---- whole runs ----

  function Next(start: nat, rx: seq<nat>): nat {
    if rx == [] then start else rx[|rx| - 1] + 1
  }

  ghost function Run(g: Geometry, s: State, sent: nat -> seq<Byte>, rx: seq<nat>): (r: State)
    requires Valid(g, s)
    ensures Valid(g, r) && |r.buf| == |s.buf|
  {
    if rx == [] then s else Step(g, Run(g, s, sent, rx[..|rx| - 1]), sent(rx[|rx| - 1])).0
  }

  /** The numbers of the packets that got through come in order. */
  predicate Increasing(start: nat, rx: seq<nat>) {
    rx == [] || (Increasing(start, rx[..|rx| - 1]) && Next(start, rx[..|rx| - 1]) <= rx[|rx| - 1])
  }

  /** Whether a receiver is synced after these packets, if none is misplaced: from a packet it takes, up to the
      next that it does not take. It starts out synced or not, and expects packet number start. */
  predicate InSync(g: Geometry, synced: bool, start: nat, rx: seq<nat>)
    requires g.pktsPerFrame > 0
  {
    if rx == [] then synced
    else
      var front := rx[..|rx| - 1];
      Reachable(g, InSync(g, synced, start, front), Next(start, front), rx[|rx| - 1])
  }

  /** No loss on the channel misplaces a packet. */
  predicate Harmless(g: Geometry, synced: bool, start: nat, rx: seq<nat>)
    requires g.pktsPerFrame > 0
  {
    rx == []
    || var front := rx[..|rx| - 1];
       Harmless(g, synced, start, front)
       && !Misplaces(g, InSync(g, synced, start, front), Next(start, front), rx[|rx| - 1])
  }

  /** No loss on the channel goes unnoticed in the middle of a frame. */
  predicate Noticed(g: Geometry, synced: bool, start: nat, rx: seq<nat>)
    requires g.pktsPerFrame > 0
  {
    rx == []
    || var front := rx[..|rx| - 1];
       Noticed(g, synced, start, front)
       && !Silent(g, InSync(g, synced, start, front), Next(start, front), rx[|rx| - 1])
  }

  /** Never 256 or more packets lost in a row: the channel in its own terms. */
  predicate ShortGaps(start: nat, rx: seq<nat>) {
    rx == [] || (ShortGaps(start, rx[..|rx| - 1]) && rx[|rx| - 1] < Next(start, rx[..|rx| - 1]) + 256)
  }

  lemma {:induction false} ShortGapsSuffice(g: Geometry, synced: bool, start: nat, rx: seq<nat>)
    requires g.pktsPerFrame > 0 && Increasing(start, rx) && ShortGaps(start, rx)
    ensures Harmless(g, synced, start, rx) && Noticed(g, synced, start, rx)
  {
    hide InSync, Misplaces, Silent;
    if rx != [] {
      var front := rx[..|rx| - 1];
      ShortGapsSuffice(g, synced, start, front);
      ShortGapsAreHarmless(g, InSync(g, synced, start, front), Next(start, front), rx[|rx| - 1]);
    }
  }

  /** A sender in front of a receiver that tracks it so far; the channel may still do anything in order. */
  ghost predicate Setting(g: Geometry, s0: int, s: State, sent: nat -> seq<Byte>, start: nat, rx: seq<nat>) {
    && FixedMode(g) && g.pktsPerFrame >= 2 && FrameInv(g, s)
    && IsSender(g, s0, sent) && Tracks(g, s0, s, start) && Increasing(start, rx)
  }

  /** The receiver tracks the sender all the way. */
  ghost predicate TracksAll(g: Geometry, s0: int, s: State, sent: nat -> seq<Byte>, start: nat, rx: seq<nat>)
    requires Valid(g, s) && g.pktsPerFrame > 0
  {
    && (rx != [] ==> TracksAll(g, s0, s, sent, start, rx[..|rx| - 1]))
    && Tracks(g, s0, Run(g, s, sent, rx), Next(start, rx))
  }

  /** The i-th received packet was copied into the frame buffer. */
  ghost predicate Taken(g: Geometry, s: State, sent: nat -> seq<Byte>, rx: seq<nat>, i: nat)
    requires Valid(g, s) && i < |rx|
  {
    Accepts(g, Run(g, s, sent, rx[..i]), sent(rx[i]))
  }

  lemma SettingFront(g: Geometry, s0: int, s: State, sent: nat -> seq<Byte>, start: nat, rx: seq<nat>)
    requires rx != []
    ensures Setting(g, s0, s, sent, start, rx) ==>
              var (front, n) := (rx[..|rx| - 1], rx[|rx| - 1]);
              && Setting(g, s0, s, sent, start, front)
              && Next(start, front) <= n && IsNth(g, s0, n, sent(n))
              && FixedMode(g) && g.pktsPerFrame >= 2 && FrameInv(g, s)
  {
  }

  /** Main result: however packets are dropped, a synced receiver always knows which packet comes next, so
      that the slot it writes is the slot the sender filled, exactly if no loss misplaces a packet; and then the
      numbers of the packets received decide when it is synced. */
  lemma {:induction false} TracksAllIffHarmless(g: Geometry, s0: int, s: State, sent: nat -> seq<Byte>,
                                                start: nat, rx: seq<nat>)
    requires Valid(g, s) && g.pktsPerFrame > 0
    ensures Setting(g, s0, s, sent, start, rx) ==>
              && (TracksAll(g, s0, s, sent, start, rx) <==> Harmless(g, s.synced, start, rx))
              && (Harmless(g, s.synced, start, rx) ==> Run(g, s, sent, rx).synced == InSync(g, s.synced, start, rx))
              && FrameInv(g, Run(g, s, sent, rx))
  {
    hide Step, Misplaces, IsNth, FrameInv, Tracks, FixedMode, Valid, Setting, Accepts, Reachable;
    if Setting(g, s0, s, sent, start, rx) {
      if rx == [] {
        SettingStart(g, s0, s, sent, start, rx);
      } else {
        var front, n := rx[..|rx| - 1], rx[|rx| - 1];
        SettingFront(g, s0, s, sent, start, rx);
        TracksAllIffHarmless(g, s0, s, sent, start, front);
        var mid, next := Run(g, s, sent, front), Next(start, front);
        if Tracks(g, s0, mid, next) {
          TracksOnIff(g, s0, mid, next, n, sent(n));
          if !Misplaces(g, mid.synced, next, n) {
            StepTracksSender(g, s0, mid, next, n, sent(n));
          }
        }
        StepKeepsFrameInv(g, mid, sent(n));
      }
    }
  }

  lemma SettingStart(g: Geometry, s0: int, s: State, sent: nat -> seq<Byte>, start: nat, rx: seq<nat>)
    ensures Setting(g, s0, s, sent, start, rx) ==> FrameInv(g, s) && g.pktsPerFrame >= 2 && Tracks(g, s0, s, start)
  {
  }

  /** A harmless channel. */
  ghost predicate RunOk(g: Geometry, s0: int, s: State, sent: nat -> seq<Byte>, start: nat, rx: seq<nat>) {
    Setting(g, s0, s, sent, start, rx) && Harmless(g, s.synced, start, rx)
  }

  /** What is known when the last packet of a harmless run arrives. */
  lemma RunOkStep(g: Geometry, s0: int, s: State, sent: nat -> seq<Byte>, start: nat, rx: seq<nat>)
    requires rx != []
    ensures RunOk(g, s0, s, sent, start, rx) ==>
              var (front, n) := (rx[..|rx| - 1], rx[|rx| - 1]);
              var (mid, next) := (Run(g, s, sent, front), Next(start, front));
              && RunOk(g, s0, s, sent, start, front)
              && FixedMode(g) && g.pktsPerFrame >= 2 && FrameInv(g, s)
              && FrameInv(g, mid) && Tracks(g, s0, mid, next)
              && next <= n && IsNth(g, s0, n, sent(n)) && !Misplaces(g, mid.synced, next, n)
              && Arrives(g, s0, mid, next, n, sent(n))
              && mid.synced == InSync(g, s.synced, start, front)
              && Run(g, s, sent, rx) == Step(g, mid, sent(n)).0
  {
    hide Step, Misplaces, Setting, IsNth, FrameInv, Tracks, IsSender, FixedMode, InSync;
    if RunOk(g, s0, s, sent, start, rx) {
      SettingFront(g, s0, s, sent, start, rx);
      RunTracksSender(g, s0, s, sent, start, rx[..|rx| - 1]);
    }
  }

  lemma NoticedStep(g: Geometry, synced: bool, start: nat, rx: seq<nat>)
    requires g.pktsPerFrame > 0 && rx != []
    ensures Noticed(g, synced, start, rx) ==>
              var (front, n) := (rx[..|rx| - 1], rx[|rx| - 1]);
              Noticed(g, synced, start, front) && !Silent(g, InSync(g, synced, start, front), Next(start, front), n)
  {
  }

  /** At the end of a harmless run a synced receiver expects the very next packet, and it is synced or not as the
      channel decides. */
  lemma RunTracksSender(g: Geometry, s0: int, s: State, sent: nat -> seq<Byte>, start: nat, rx: seq<nat>)
    requires RunOk(g, s0, s, sent, start, rx)
    ensures Tracks(g, s0, Run(g, s, sent, rx), Next(start, rx)) && FrameInv(g, Run(g, s, sent, rx))
    ensures Run(g, s, sent, rx).synced == InSync(g, s.synced, start, rx)
  {
    assert Valid(g, s) && g.pktsPerFrame > 0;
    hide Run, Harmless, FrameInv, Tracks, Valid, InSync;
    TracksAllIffHarmless(g, s0, s, sent, start, rx);
  }

  /** Which of the received packets are copied into the frame: the last one exactly if it keeps or makes the
      receiver synced. */
  lemma TakenIffInSync(g: Geometry, s0: int, s: State, sent: nat -> seq<Byte>, start: nat, rx: seq<nat>)
    requires RunOk(g, s0, s, sent, start, rx) && rx != []
    ensures Taken(g, s, sent, rx, |rx| - 1) <==> InSync(g, s.synced, start, rx)
  {
    RunOkStep(g, s0, s, sent, start, rx);
    var front := rx[..|rx| - 1];
    StepTracksSender(g, s0, Run(g, s, sent, front), Next(start, front), rx[|rx| - 1], sent(rx[|rx| - 1]));
  }

  /** The bytes of one slot. */
  function Slot(g: Geometry, buf: seq<Byte>, k: int): seq<Byte>
    requires g.Ok() && 0 <= k < g.pktsPerFrame && |buf| >= g.frameSize
  {
    SlotBounds(g, k);
    buf[k * g.pktSize..k * g.pktSize + g.SlotSize(k)]
  }

  lemma OverwriteSlots(g: Geometry, buf: seq<Byte>, j: int, data: seq<Byte>, k: int)
    requires g.Ok() && 0 <= j < g.pktsPerFrame && 0 <= k < g.pktsPerFrame && |buf| >= g.frameSize
    requires |data| == g.SlotSize(j)
    ensures 0 <= j * g.pktSize && j * g.pktSize + |data| <= |buf|
    ensures Slot(g, Overwrite(buf, j * g.pktSize, data), k) == if j == k then data else Slot(g, buf, k)
  {
    SlotBounds(g, j);
    SlotBounds(g, k);
    if j < k {
      SlotsDisjoint(g, j, k);
    } else if k < j {
      SlotsDisjoint(g, k, j);
    }
    hide Overwrite, LastPacketSize, PacketsPerFrame;
    OverwriteSlice(buf, j * g.pktSize, data, k * g.pktSize, k * g.pktSize + g.SlotSize(k));
  }

  /** One received packet on the slots: an accepted one fills its own slot and no other. */
  lemma StepOnSlots(g: Geometry, s0: int, s: State, next: nat, n: nat, pkt: seq<Byte>, k: int)
    requires FixedMode(g) && g.pktsPerFrame >= 2 && Valid(g, s) && Tracks(g, s0, s, next)
    requires next <= n && IsNth(g, s0, n, pkt) && !Misplaces(g, s.synced, next, n) && 0 <= k < g.pktsPerFrame
    ensures Slot(g, Step(g, s, pkt).0.buf, k)
         == if Accepts(g, s, pkt) && k == SlotOf(g, n) then DataOf(pkt) else Slot(g, s.buf, k)
  {
    StepTracksSender(g, s0, s, next, n, pkt);
    StepWritesOneSlot(g, s, pkt);
    OverwriteSlots(g, s.buf, SlotOf(g, n), DataOf(pkt), k);
  }

  /** The number of the newest packet that was copied into a slot. */
  function HeldIn(g: Geometry, synced: bool, start: nat, rx: seq<nat>, k: int): Option<nat>
    requires g.pktsPerFrame > 0
  {
    if rx == [] then None
    else if InSync(g, synced, start, rx) && SlotOf(g, rx[|rx| - 1]) == k then Some(rx[|rx| - 1])
    else HeldIn(g, synced, start, rx[..|rx| - 1], k)
  }

  /** Main result: every slot holds the newest payload that was accepted for that slot, and one for which
      none was accepted is as it was. */
  lemma {:induction false} SlotHoldsNewestPayload(g: Geometry, s0: int, s: State, sent: nat -> seq<Byte>,
                                                  start: nat, rx: seq<nat>, k: int)
    requires RunOk(g, s0, s, sent, start, rx) && 0 <= k < g.pktsPerFrame
    ensures var held := HeldIn(g, s.synced, start, rx, k);
            && (held.Some? ==> |sent(held.value)| >= HEADER_LENGTH)
            && Slot(g, Run(g, s, sent, rx).buf, k)
               == if held.Some? then DataOf(sent(held.value)) else Slot(g, s.buf, k)
  {
    if rx != [] {
      var front, n := rx[..|rx| - 1], rx[|rx| - 1];
      RunOkStep(g, s0, s, sent, start, rx);
      TakenIffInSync(g, s0, s, sent, start, rx);
      assert WellFormed(sent(n));
      hide Step, Accepts, Slot, Tracks, SlotOf, RunOk, Misplaces, FrameInv, IsNth, InSync;
      StepOnSlots(g, s0, Run(g, s, sent, front), Next(start, front), n, sent(n), k);
      SlotHoldsNewestPayload(g, s0, s, sent, start, front, k);
    }
  }

  // ---- when a reported frame is one frame of the sender ----

  ghost predicate HoldsAt(g: Geometry, buf: seq<Byte>, sent: nat -> seq<Byte>, base: nat, k: nat)
    requires g.Ok() && |buf| >= g.frameSize && k < g.pktsPerFrame
  {
    |sent(base + k)| >= HEADER_LENGTH && Slot(g, buf, k) == DataOf(sent(base + k))
  }

  /** The first count slots hold packets base, base + 1, ... of the sender. */
  ghost predicate Holds(g: Geometry, buf: seq<Byte>, sent: nat -> seq<Byte>, base: nat, count: int)
    requires g.Ok() && |buf| >= g.frameSize && count <= g.pktsPerFrame
  {
    forall k :: 0 <= k < count ==> HoldsAt(g, buf, sent, base, k)
  }

  /** If no packet of the current frame was missed, its slots so far hold the current frame. */
  ghost predicate WholeSoFar(g: Geometry, s: State, sent: nat -> seq<Byte>, next: nat)
    requires FrameInv(g, s)
  {
    s.synced && s.gotPkts == s.pktNum ==>
      s.pktNum <= next && Holds(g, s.buf, sent, next - s.pktNum, s.pktNum)
  }

  /** What the skipping code leaves behind: no gap so far means that nothing was skipped. */
  lemma SkipCounters(g: Geometry, s0: int, s: State, next: nat, n: nat, pkt: seq<Byte>)
    requires FixedMode(g) && g.pktsPerFrame >= 2 && FrameInv(g, s) && Tracks(g, s0, s, next)
    requires next <= n && IsNth(g, s0, n, pkt) && Reaches(g, s, pkt)
    ensures var ((t, got), e) := (Skipped(g, s, pkt), Gap(next, n));
            && 0 <= t.gotPkts <= t.pktNum && (got != 0 ==> t.validPkts < g.pktsPerFrame && t.gotPkts == 0)
            && (t.pktNum == t.gotPkts != 0 ==> s.synced && e == 0)
            && (s.synced && e == 0 ==> t.gotPkts == s.gotPkts && t.pktNum == s.pktNum)
            && (!s.synced ==> t.gotPkts == 0 && t.pktNum == 0)
  {
    SlotsTileFrame(g);
    FlagFits(g, 0, SlotOf(g, n));
    hide SlotOf, Gap, IsNth, SetBit, PacketsPerFrame, LastPacketSize;
    if s.synced {
      LostIsGap(g, s0, s, next, n, pkt);
    }
  }

  /** What one packet of the sender does to the counters. The last two clauses are the point: a frame
      without a gap so far stays without one exactly if nothing seems lost before the packet. */
  lemma StepCounters(g: Geometry, s0: int, s: State, next: nat, n: nat, pkt: seq<Byte>)
    requires FixedMode(g) && g.pktsPerFrame >= 2 && FrameInv(g, s) && Tracks(g, s0, s, next)
    requires next <= n && IsNth(g, s0, n, pkt) && !Misplaces(g, s.synced, next, n)
    ensures var ((t, got), slot) := (Step(g, s, pkt), SlotOf(g, n));
            && (!Accepts(g, s, pkt) ==> !t.synced && (got != 0 ==> t.validPkts < g.pktsPerFrame))
            && (Accepts(g, s, pkt) && slot < g.pktsPerFrame - 1 ==>
                  t.synced && t.pktNum == slot + 1 && (got != 0 ==> t.validPkts < g.pktsPerFrame))
            && (Accepts(g, s, pkt) && slot == g.pktsPerFrame - 1 ==>
                  t.synced && t.pktNum == 0 && got == g.frameSize)
            && (Accepts(g, s, pkt) && slot == 0 ==> t.gotPkts == 1)
    ensures var ((t, got), slot) := (Step(g, s, pkt), SlotOf(g, n));
            Accepts(g, s, pkt) && slot + 1 == (if slot < g.pktsPerFrame - 1 then t.gotPkts else t.validPkts) ==>
              slot == 0 || (s.synced && Gap(next, n) == 0 && s.gotPkts == s.pktNum == slot)
    ensures Accepts(g, s, pkt) && (s.synced ==> Gap(next, n) == 0 && s.gotPkts == s.pktNum) ==>
              var (t, slot) := (Step(g, s, pkt).0, SlotOf(g, n));
              slot + 1 == if slot < g.pktsPerFrame - 1 then t.gotPkts else t.validPkts
  {
    StepTracksSender(g, s0, s, next, n, pkt);
    FlagFits(g, 0, SlotOf(g, n));
    SlotsTileFrame(g);
    if Reaches(g, s, pkt) {
      SkipCounters(g, s0, s, next, n, pkt);
      hide SlotOf, Skipped, Tracks, SkipLost, FlagExpected, Reaches, PacketsPerFrame, Gap, Misplaces, Reachable;
    }
  }

  /** Main result for one packet: it completes a frame with all its packets valid exactly if it is the last one
      of its frame, none of that frame has been missed before, and nothing, or nothing noticed, was lost just
      now. */
  lemma StepReportsFullIff(g: Geometry, s0: int, s: State, next: nat, n: nat, pkt: seq<Byte>)
    requires Valid(g, s) && g.pktsPerFrame > 0
    ensures Arrives(g, s0, s, next, n, pkt) ==>
              var (t, got) := Step(g, s, pkt);
              && (got != 0 && t.validPkts == g.pktsPerFrame
                  <==> s.synced && SlotOf(g, n) == g.pktsPerFrame - 1 && s.gotPkts == s.pktNum
                       && (n == next || Silent(g, s.synced, next, n)))
              && (got != 0 && t.validPkts == g.pktsPerFrame ==>
                    Reachable(g, s.synced, next, n) && s.pktNum == g.pktsPerFrame - 1)
  {
    hide Step, Accepts, SlotOf, Gap, Misplaces, Silent, IsNth, PacketsPerFrame, LastPacketSize, Reachable;
    if Arrives(g, s0, s, next, n, pkt) {
      StepTracksSender(g, s0, s, next, n, pkt);
      StepCounters(g, s0, s, next, n, pkt);
      SlotsTileFrame(g);
      SilentIff(g, s, next, n);
    }
  }

  /** The skipping code reports a frame exactly if its end seems lost. */
  lemma SkipReportsIff(g: Geometry, s0: int, s: State, next: nat, n: nat, pkt: seq<Byte>)
    requires FixedMode(g) && g.pktsPerFrame >= 2 && FrameInv(g, s) && Tracks(g, s0, s, next)
    requires next <= n && IsNth(g, s0, n, pkt) && Reaches(g, s, pkt)
    ensures Skipped(g, s, pkt).1 != 0 <==> s.synced && SlotOf(g, next) + Gap(next, n) >= g.pktsPerFrame
  {
    hide SlotOf, Gap, IsNth, SetBit, PacketsPerFrame, LastPacketSize;
    if s.synced {
      LostIsGap(g, s0, s, next, n, pkt);
    }
  }

  lemma AcceptReports(g: Geometry, s: State, pkt: seq<Byte>)
    requires Valid(g, s) && Accepts(g, s, pkt) && !g.variableLength
    ensures Step(g, s, pkt).1 != 0 <==> FlagOf(pkt) == g.Eof() || Skipped(g, s, pkt).1 != 0
  {
    SlotsTileFrame(g);
    SlotBounds(g, Skipped(g, s, pkt).0.pktNum);
    hide SetBit, PacketsPerFrame, LastPacketSize, Overwrite, Skipped, Reaches;
  }

  /** A frame of any kind is reported exactly if its end seems lost, or the packet is the last of it. */
  lemma StepReportsIff(g: Geometry, s0: int, s: State, next: nat, n: nat, pkt: seq<Byte>)
    requires Valid(g, s) && g.pktsPerFrame > 0
    ensures Arrives(g, s0, s, next, n, pkt) ==>
              (Step(g, s, pkt).1 != 0
               <==> (s.synced && Gap(next, n) <= MAX_LOST && SlotOf(g, next) + Gap(next, n) >= g.pktsPerFrame)
                    || (Reachable(g, s.synced, next, n) && SlotOf(g, n) == g.pktsPerFrame - 1))
  {
    if Arrives(g, s0, s, next, n, pkt) {
      StepTracksSender(g, s0, s, next, n, pkt);
      FlagFits(g, 0, SlotOf(g, n));
      if s.synced {
        SkipFindsSlot(g, s0, s, next, n, pkt);
      }
      if Reaches(g, s, pkt) {
        SkipReportsIff(g, s0, s, next, n, pkt);
      }
      if Accepts(g, s, pkt) {
        AcceptReports(g, s, pkt);
      }
      hide SlotOf, SeqAt, Gap, SetBit, PacketsPerFrame, LastPacketSize, Overwrite, Reachable, Misplaces, Skipped,
           Accept, FlagExpected, Reaches, Tracks;
    }
  }

  /** In the middle of a frame a packet that is taken as the next one either is, or the loss is silent. */
  lemma SilentIff(g: Geometry, s: State, next: nat, n: nat)
    requires g.pktsPerFrame > 0
    ensures s.synced && SlotOf(g, n) != 0 ==>
              (n == next || Silent(g, s.synced, next, n) <==> Gap(next, n) == 0 && Reachable(g, s.synced, next, n))
    ensures Silent(g, s.synced, next, n) ==> SlotOf(g, n) == SlotOf(g, next)
  {
  }

  lemma NothingLost(g: Geometry, next: nat)
    requires g.pktsPerFrame > 0
    ensures Gap(next, next) == 0 && Reachable(g, true, next, next)
    ensures !Misplaces(g, true, next, next) && !Silent(g, true, next, next)
    ensures !Misplaces(g, false, next, next) && !Silent(g, false, next, next)
  {
  }

  lemma StepKeepsWhole(g: Geometry, s0: int, s: State, sent: nat -> seq<Byte>, next: nat, n: nat)
    requires FixedMode(g) && g.pktsPerFrame >= 2 && FrameInv(g, s) && Tracks(g, s0, s, next)
    requires next <= n && IsNth(g, s0, n, sent(n)) && WholeSoFar(g, s, sent, next)
    requires !Misplaces(g, s.synced, next, n) && !Silent(g, s.synced, next, n)
    ensures FrameInv(g, Step(g, s, sent(n)).0) && WholeSoFar(g, Step(g, s, sent(n)).0, sent, n + 1)
    ensures var (t, got) := Step(g, s, sent(n));
            got != 0 && t.validPkts == g.pktsPerFrame ==>
              n + 1 >= g.pktsPerFrame && SlotOf(g, n) == g.pktsPerFrame - 1
              && Holds(g, t.buf, sent, n + 1 - g.pktsPerFrame, g.pktsPerFrame)
  {
    var pkt, slot := sent(n), SlotOf(g, n);
    StepKeepsFrameInv(g, s, pkt);
    StepCounters(g, s0, s, next, n, pkt);
    StepTracksSender(g, s0, s, next, n, pkt);
    hide Step, Accepts, Slot, Tracks, PacketsPerFrame, LastPacketSize, SlotOf, IsNth, Misplaces, Silent, Gap,
         Reachable;
    var (t, got) := Step(g, s, pkt);
    if Accepts(g, s, pkt) && slot + 1 == if slot < g.pktsPerFrame - 1 then t.gotPkts else t.validPkts {
      if slot != 0 {
        SilentIff(g, s, next, n);
      }
      SlotExtendsHeld(g, s0, s, sent, next, n);
    }
  }

  /** The next packet of a gapless frame extends the part of the frame that is held. */
  lemma SlotExtendsHeld(g: Geometry, s0: int, s: State, sent: nat -> seq<Byte>, next: nat, n: nat)
    requires FixedMode(g) && g.pktsPerFrame >= 2 && FrameInv(g, s) && Tracks(g, s0, s, next)
    requires next <= n && IsNth(g, s0, n, sent(n)) && !Misplaces(g, s.synced, next, n) && Accepts(g, s, sent(n))
    requires var slot := SlotOf(g, n);
             slot == 0 || (slot <= next == n && Holds(g, s.buf, sent, next - slot, slot))
    ensures var slot := SlotOf(g, n);
            slot <= n && Holds(g, Step(g, s, sent(n)).0.buf, sent, n - slot, slot + 1)
  {
    hide Step, Accepts, Slot, Tracks, PacketsPerFrame, LastPacketSize, SlotOf, Misplaces;
    var slot := SlotOf(g, n);
    var base: nat, after := n - slot, Step(g, s, sent(n)).0.buf;
    forall k | 0 <= k <= slot ensures HoldsAt(g, after, sent, base, k) {
      StepOnSlots(g, s0, s, next, n, sent(n), k);
      assert k < slot ==> HoldsAt(g, s.buf, sent, base, k);
    }
  }

  lemma {:induction false} RunKeepsWhole(g: Geometry, s0: int, s: State, sent: nat -> seq<Byte>,
                                         start: nat, rx: seq<nat>)
    requires FrameInv(g, s) && g.pktsPerFrame > 0
    ensures RunOk(g, s0, s, sent, start, rx) && Noticed(g, s.synced, start, rx) && WholeSoFar(g, s, sent, start) ==>
              FrameInv(g, Run(g, s, sent, rx)) && WholeSoFar(g, Run(g, s, sent, rx), sent, Next(start, rx))
  {
    if rx != [] {
      var front, n := rx[..|rx| - 1], rx[|rx| - 1];
      hide Step, Accepts, RunOk, Noticed, Misplaces, Silent, Tracks, IsNth, FixedMode, WholeSoFar, FrameInv, InSync,
           Arrives, Harmless, Valid, Holds, SlotOf, PacketsPerFrame, LastPacketSize;
      RunOkStep(g, s0, s, sent, start, rx);
      NoticedStep(g, s.synced, start, rx);
      hide Run;
      RunKeepsWhole(g, s0, s, sent, start, front);
      if RunOk(g, s0, s, sent, start, rx) && Noticed(g, s.synced, start, rx) && WholeSoFar(g, s, sent, start) {
        StepKeepsWhole(g, s0, Run(g, s, sent, front), sent, Next(start, front), n);
      }
    }
  }

  /** The sender's bytes: the payloads of packets base, base + 1, ..., base + count - 1. */
  ghost function Payloads(sent: nat -> seq<Byte>, base: nat, count: nat): seq<Byte> {
    if count == 0 then []
    else
      var pkt := sent(base + count - 1);
      Payloads(sent, base, count - 1) + if |pkt| >= HEADER_LENGTH then DataOf(pkt) else []
  }

  function SlotEnd(g: Geometry, count: nat): int {
    if count < g.pktsPerFrame then count * g.pktSize else g.frameSize
  }

  lemma SlotSpan(g: Geometry, buf: seq<Byte>, k: nat)
    requires g.Ok() && k < g.pktsPerFrame && g.frameSize <= |buf|
    ensures 0 <= SlotEnd(g, k) <= SlotEnd(g, k + 1) <= |buf|
    ensures Slot(g, buf, k) == buf[SlotEnd(g, k)..SlotEnd(g, k + 1)]
  {
    SlotBounds(g, k);
    assert (k + 1) * g.pktSize == k * g.pktSize + g.pktSize;
    hide PacketsPerFrame, LastPacketSize;
  }

  /** A buffer that holds packets base, base + 1, ... in its slots starts with the sender's bytes. */
  lemma {:induction false} HoldsIsExact(g: Geometry, buf: seq<Byte>, sent: nat -> seq<Byte>, base: nat, count: nat)
    requires g.Ok() && g.frameSize <= |buf| && count <= g.pktsPerFrame && Holds(g, buf, sent, base, count)
    ensures 0 <= SlotEnd(g, count) <= |buf| && buf[..SlotEnd(g, count)] == Payloads(sent, base, count)
  {
    hide PacketsPerFrame, LastPacketSize, Slot;
    if count == 0 {
      SlotsTileFrame(g);
    } else {
      var k: nat := count - 1;
      assert HoldsAt(g, buf, sent, base, k);
      HoldsIsExact(g, buf, sent, base, k);
      SlotSpan(g, buf, k);
      hide SlotEnd;
      assert buf[..SlotEnd(g, count)] == buf[..SlotEnd(g, k)] + Slot(g, buf, k);
    }
  }

  /** A run that loses nothing: packets base, base + 1, ..., base + m - 1. */
  ghost function LosslessRun(g: Geometry, s: State, sent: nat -> seq<Byte>, base: nat, m: nat): (r: State)
    requires Valid(g, s)
    ensures Valid(g, r) && |r.buf| == |s.buf|
  {
    if m == 0 then s else Step(g, LosslessRun(g, s, sent, base, m - 1), sent(base + m - 1)).0
  }

  ghost predicate AtFrameStart(g: Geometry, s0: int, s: State, base: nat) {
    FixedMode(g) && g.pktsPerFrame >= 2 && FrameInv(g, s) && Tracks(g, s0, s, base) && SlotOf(g, base) == 0
  }

  /** The first m packets of the frame that starts at base have all arrived. */
  ghost predicate Gapless(g: Geometry, s0: int, s: State, sent: nat -> seq<Byte>, base: nat, m: nat)
    requires g.pktsPerFrame > 0
  {
    && FrameInv(g, s) && Tracks(g, s0, s, base + m) && WholeSoFar(g, s, sent, base + m)
    && (m > 0 ==> s.synced) && (s.synced ==> s.gotPkts == s.pktNum == m)
  }

  lemma LosslessStep(g: Geometry, s0: int, s: State, sent: nat -> seq<Byte>, base: nat, m: nat)
    requires FixedMode(g) && g.pktsPerFrame >= 2 && m < g.pktsPerFrame && SlotOf(g, base) == 0
    requires Gapless(g, s0, s, sent, base, m) && IsSender(g, s0, sent)
    ensures var (t, got) := Step(g, s, sent(base + m));
            && FrameInv(g, t) && Tracks(g, s0, t, base + m + 1)
            && (m + 1 < g.pktsPerFrame ==> Gapless(g, s0, t, sent, base, m + 1))
            && (m + 1 == g.pktsPerFrame ==> t.validPkts == g.pktsPerFrame && got == g.frameSize)
  {
    var n := base + m;
    SlotAfter(g, base, m);
    assert IsNth(g, s0, n, sent(n));
    NothingLost(g, n);
    StepTracksSender(g, s0, s, n, n, sent(n));
    StepKeepsWhole(g, s0, s, sent, n, n);
    StepCounters(g, s0, s, n, n, sent(n));
    hide Step, Accepts, SlotOf, SeqAt, PacketsPerFrame, LastPacketSize, IsNth, WholeSoFar, IsSender, Tracks, Valid,
         Misplaces, Silent, Gap;
  }

  lemma GaplessAtStart(g: Geometry, s0: int, s: State, sent: nat -> seq<Byte>, base: nat)
    requires AtFrameStart(g, s0, s, base)
    ensures Gapless(g, s0, s, sent, base, 0)
  {
    hide PacketsPerFrame, LastPacketSize, SeqAt;
  }

  lemma {:induction false} LosslessPrefix(g: Geometry, s0: int, s: State, sent: nat -> seq<Byte>, base: nat, m: nat)
    requires AtFrameStart(g, s0, s, base) && IsSender(g, s0, sent) && m < g.pktsPerFrame
    ensures Gapless(g, s0, LosslessRun(g, s, sent, base, m), sent, base, m)
  {
    hide Step, SlotOf, PacketsPerFrame, LastPacketSize, IsSender, Gapless, Tracks;
    if m == 0 {
      GaplessAtStart(g, s0, s, sent, base);
    } else {
      LosslessPrefix(g, s0, s, sent, base, m - 1);
      LosslessStep(g, s0, LosslessRun(g, s, sent, base, m - 1), sent, base, m - 1);
    }
  }

  /** The buffer is, byte for byte, the sender's frame that ends with packet n. */
  ghost predicate IsFrame(g: Geometry, buf: seq<Byte>, sent: nat -> seq<Byte>, n: nat) {
    && g.pktsPerFrame > 0 && SlotOf(g, n) == g.pktsPerFrame - 1 && n + 1 >= g.pktsPerFrame
    && 0 <= g.frameSize <= |buf|
    && buf[..g.frameSize] == Payloads(sent, n + 1 - g.pktsPerFrame, g.pktsPerFrame)
  }

  /** A step that reports a frame with all its packets valid leaves that frame in the buffer. */
  lemma StepFullReport(g: Geometry, s0: int, s: State, sent: nat -> seq<Byte>, next: nat, n: nat)
    requires FixedMode(g) && g.pktsPerFrame >= 2 && FrameInv(g, s) && Tracks(g, s0, s, next)
    requires next <= n && IsNth(g, s0, n, sent(n))
    requires !Misplaces(g, s.synced, next, n) && !Silent(g, s.synced, next, n)
    ensures var (t, got) := Step(g, s, sent(n));
            WholeSoFar(g, s, sent, next) && got != 0 && t.validPkts == g.pktsPerFrame ==> IsFrame(g, t.buf, sent, n)
  {
    var (t, got) := Step(g, s, sent(n));
    if WholeSoFar(g, s, sent, next) && got != 0 && t.validPkts == g.pktsPerFrame {
      StepKeepsWhole(g, s0, s, sent, next, n);
      hide Step, SlotOf, PacketsPerFrame, LastPacketSize, Payloads, HoldsAt, WholeSoFar, IsNth, Tracks, Misplaces,
           Silent;
      HoldsIsExact(g, t.buf, sent, n + 1 - g.pktsPerFrame, g.pktsPerFrame);
    }
  }

  lemma NextFrameStart(g: Geometry, base: nat, last: nat)
    requires g.pktsPerFrame > 0 && SlotOf(g, base) == 0 && last + 1 == base + g.pktsPerFrame
    ensures SlotOf(g, last + 1) == 0
  {
    SlotAfter(g, base, g.pktsPerFrame - 1);
    SlotAfter(g, last, 1);
  }

  /** The packet that completes a frame of which nothing was lost. */
  lemma LastPacketDelivers(g: Geometry, s0: int, s: State, sent: nat -> seq<Byte>, base: nat, last: nat)
    requires FixedMode(g) && g.pktsPerFrame >= 2 && SlotOf(g, base) == 0 && last + 1 == base + g.pktsPerFrame
    requires Gapless(g, s0, s, sent, base, g.pktsPerFrame - 1) && IsSender(g, s0, sent)
    ensures var (t, got) := Step(g, s, sent(last));
            && got == g.frameSize && t.validPkts == g.pktsPerFrame
            && IsFrame(g, t.buf, sent, last) && AtFrameStart(g, s0, t, last + 1)
  {
    assert IsNth(g, s0, last, sent(last));
    hide Step, SlotOf, PacketsPerFrame, LastPacketSize, IsSender, IsNth, IsFrame, WholeSoFar, Tracks, Misplaces,
         Silent, Gap, Holds;
    NextFrameStart(g, base, last);
    LosslessStep(g, s0, s, sent, base, g.pktsPerFrame - 1);
    NothingLost(g, last);
    StepFullReport(g, s0, s, sent, last, last);
  }

  /** Main result: with no loss the reported frame is the sender's frame, byte for byte. */
  lemma LosslessFrameDelivered(g: Geometry, s0: int, s: State, sent: nat -> seq<Byte>, base: nat, last: nat)
    requires AtFrameStart(g, s0, s, base) && IsSender(g, s0, sent) && last + 1 == base + g.pktsPerFrame
    ensures var (t, got) := Step(g, LosslessRun(g, s, sent, base, g.pktsPerFrame - 1), sent(last));
            && got == g.frameSize && t.validPkts == g.pktsPerFrame
            && IsFrame(g, t.buf, sent, last) && AtFrameStart(g, s0, t, last + 1)
  {
    hide Step, SlotOf, PacketsPerFrame, LastPacketSize, IsSender, LosslessRun, IsNth, IsFrame, WholeSoFar, Tracks,
         Misplaces, Silent, Gap, Holds;
    LosslessPrefix(g, s0, s, sent, base, g.pktsPerFrame - 1);
    LastPacketDelivers(g, s0, LosslessRun(g, s, sent, base, g.pktsPerFrame - 1), sent, base, last);
  }

  /** A frame reported with all its packets valid is the sender's frame, byte for byte. */
  lemma FullReportIsExact(g: Geometry, s0: int, s: State, sent: nat -> seq<Byte>, start: nat, rx: seq<nat>)
    requires RunOk(g, s0, s, sent, start, rx) && Noticed(g, s.synced, start, rx) && WholeSoFar(g, s, sent, start)
    requires rx != []
    requires var (t, got) := Step(g, Run(g, s, sent, rx[..|rx| - 1]), sent(rx[|rx| - 1]));
             got != 0 && t.validPkts == g.pktsPerFrame
    ensures IsFrame(g, Run(g, s, sent, rx).buf, sent, rx[|rx| - 1])
  {
    var front, n := rx[..|rx| - 1], rx[|rx| - 1];
    hide Run, Step, SlotOf, PacketsPerFrame, LastPacketSize, WholeSoFar, Tracks, IsFrame, IsNth, RunOk,
         Misplaces, Silent, IsSender, Noticed, Holds, InSync;
    RunOkStep(g, s0, s, sent, start, rx);
    NoticedStep(g, s.synced, start, rx);
    RunKeepsWhole(g, s0, s, sent, start, front);
    StepFullReport(g, s0, Run(g, s, sent, front), sent, Next(start, front), n);
  }

  /** The last m packets that got through were all copied into the frame, begin a frame, and are consecutive as
      far as the receiver can tell. */
  predicate Unbroken(g: Geometry, synced: bool, start: nat, rx: seq<nat>, m: nat)
    requires g.pktsPerFrame > 0
    decreases m
  {
    && 1 <= m <= |rx| && InSync(g, synced, start, rx)
    && if m == 1 then SlotOf(g, rx[|rx| - 1]) == 0
       else
         var (next, n) := (rx[|rx| - 2] + 1, rx[|rx| - 1]);
         (n == next || Silent(g, true, next, n)) && Unbroken(g, synced, start, rx[..|rx| - 1], m - 1)
  }

  /** They were all copied, begin a frame, and are consecutive indeed. */
  predicate Streak(g: Geometry, synced: bool, start: nat, rx: seq<nat>, m: nat)
    requires g.pktsPerFrame > 0
    decreases m
  {
    && 1 <= m <= |rx| && InSync(g, synced, start, rx)
    && if m == 1 then SlotOf(g, rx[|rx| - 1]) == 0
       else rx[|rx| - 1] == rx[|rx| - 2] + 1 && Streak(g, synced, start, rx[..|rx| - 1], m - 1)
  }

  lemma {:induction false} StreakIsUnbroken(g: Geometry, synced: bool, start: nat, rx: seq<nat>, m: nat)
    requires g.pktsPerFrame > 0
    ensures Streak(g, synced, start, rx, m) ==> Unbroken(g, synced, start, rx, m)
    ensures Noticed(g, synced, start, rx) && Unbroken(g, synced, start, rx, m) ==> Streak(g, synced, start, rx, m)
  {
    hide SlotOf, InSync, Silent;
    if 1 < m <= |rx| {
      StreakIsUnbroken(g, synced, start, rx[..|rx| - 1], m - 1);
    }
  }

  lemma {:induction false} UnbrokenSlot(g: Geometry, synced: bool, start: nat, rx: seq<nat>, m: nat)
    requires 0 < m <= g.pktsPerFrame
    ensures Unbroken(g, synced, start, rx, m) ==> SlotOf(g, rx[|rx| - 1]) == m - 1 && rx[|rx| - 1] + 1 >= m
  {
    hide SlotOf, InSync;
    if m > 1 && Unbroken(g, synced, start, rx, m) {
      UnbrokenSlot(g, synced, start, rx[..|rx| - 1], m - 1);
      SlotAfter(g, rx[|rx| - 2], 1);
      if rx[|rx| - 1] != rx[|rx| - 2] + 1 {
        assert rx[|rx| - 1] + 1 >= m by { SlotAtMost(g, rx[|rx| - 1]); }
      }
    }
  }

  lemma SlotAtMost(g: Geometry, n: nat)
    requires g.pktsPerFrame > 0
    ensures SlotOf(g, n) <= n
  {
    SlotOfFrame(g, n);
  }

  lemma StepExtends(g: Geometry, s0: int, s: State, next: nat, n: nat, pkt: seq<Byte>, m: nat)
    requires Valid(g, s) && 1 <= m < g.pktsPerFrame
    ensures Arrives(g, s0, s, next, n, pkt) ==>
              var t := Step(g, s, pkt).0;
              (t.synced && t.gotPkts == t.pktNum == m
               <==> Reachable(g, s.synced, next, n) && SlotOf(g, n) == m - 1
                    && (m == 1 || ((n == next || Silent(g, true, next, n))
                                   && s.synced && s.gotPkts == s.pktNum == m - 1)))
  {
    hide Step, SlotOf, PacketsPerFrame, LastPacketSize, Accepts, Misplaces, Silent, Gap, IsNth, Reachable;
    if Arrives(g, s0, s, next, n, pkt) {
      StepCounters(g, s0, s, next, n, pkt);
      StepTracksSender(g, s0, s, next, n, pkt);
      SilentIff(g, s, next, n);
    }
  }

  /** The counters of the receiver show an unbroken start of a frame exactly if there was one. */
  lemma {:induction false} CountersShowUnbroken(g: Geometry, s0: int, s: State, sent: nat -> seq<Byte>,
                                                start: nat, rx: seq<nat>, m: nat)
    requires Valid(g, s) && 1 <= m < g.pktsPerFrame
    ensures RunOk(g, s0, s, sent, start, rx) && !s.synced ==>
              var t := Run(g, s, sent, rx);
              (t.synced && t.gotPkts == t.pktNum == m <==> Unbroken(g, s.synced, start, rx, m))
  {
    hide Step, SlotOf, PacketsPerFrame, LastPacketSize, Accepts, RunOk, Misplaces, Silent, IsNth, Tracks, FrameInv,
         FixedMode, Valid, Reachable;
    if RunOk(g, s0, s, sent, start, rx) && !s.synced && rx != [] {
      var front, n := rx[..|rx| - 1], rx[|rx| - 1];
      RunOkStep(g, s0, s, sent, start, rx);
      hide Arrives;
      StepExtends(g, s0, Run(g, s, sent, front), Next(start, front), n, sent(n), m);
      if m > 1 {
        CountersShowUnbroken(g, s0, s, sent, start, front, m - 1);
      }
      UnbrokenSlot(g, s.synced, start, rx, m);
    }
  }

  /** Main result: over any harmless channel a frame is reported with all its packets valid exactly when the
      last packets received make up a whole frame, unbroken as far as the receiver can tell. */
  lemma ReportsFullIffUnbroken(g: Geometry, s0: int, s: State, sent: nat -> seq<Byte>, start: nat, rx: seq<nat>)
    requires Valid(g, s) && g.pktsPerFrame >= 2 && rx != []
    ensures RunOk(g, s0, s, sent, start, rx) && !s.synced ==>
              var (t, got) := Step(g, Run(g, s, sent, rx[..|rx| - 1]), sent(rx[|rx| - 1]));
              (got != 0 && t.validPkts == g.pktsPerFrame <==> Unbroken(g, s.synced, start, rx, g.pktsPerFrame))
  {
    hide Step, SlotOf, PacketsPerFrame, LastPacketSize, Accepts, RunOk, Misplaces, Silent, IsNth, FrameInv, FixedMode,
         Reachable, Valid, Gap;
    if RunOk(g, s0, s, sent, start, rx) && !s.synced {
      var front, n := rx[..|rx| - 1], rx[|rx| - 1];
      var mid, next := Run(g, s, sent, front), Next(start, front);
      RunOkStep(g, s0, s, sent, start, rx);
      hide Arrives, Run;
      StepReportsFullIff(g, s0, mid, next, n, sent(n));
      hide Tracks;
      CountersShowUnbroken(g, s0, s, sent, start, front, g.pktsPerFrame - 1);
      UnbrokenSlot(g, s.synced, start, rx, g.pktsPerFrame);
    }
  }

  /** Main result: if moreover no loss goes unnoticed, a full report is made exactly when all packets of a frame,
      one right after the other, have been copied; and what is then reported is that frame, byte for byte. */
  lemma FullReportIff(g: Geometry, s0: int, s: State, sent: nat -> seq<Byte>, start: nat, rx: seq<nat>)
    requires RunOk(g, s0, s, sent, start, rx) && Noticed(g, s.synced, start, rx) && !s.synced && rx != []
    ensures var (t, got) := Step(g, Run(g, s, sent, rx[..|rx| - 1]), sent(rx[|rx| - 1]));
            got != 0 && t.validPkts == g.pktsPerFrame <==> Streak(g, s.synced, start, rx, g.pktsPerFrame)
    ensures Streak(g, s.synced, start, rx, g.pktsPerFrame) ==> IsFrame(g, Run(g, s, sent, rx).buf, sent, rx[|rx| - 1])
  {
    hide Step, Run, SlotOf, PacketsPerFrame, LastPacketSize, Accepts, RunOk, Noticed, IsFrame, Streak, Unbroken;
    RunOkBasics(g, s0, s, sent, start, rx);
    RunOkStep(g, s0, s, sent, start, rx);
    ReportsFullIffUnbroken(g, s0, s, sent, start, rx);
    StreakIsUnbroken(g, s.synced, start, rx, g.pktsPerFrame);
    assert WholeSoFar(g, s, sent, start);
    if Streak(g, s.synced, start, rx, g.pktsPerFrame) {
      FullReportIsExact(g, s0, s, sent, start, rx);
    }
  }

  // ---- what any report shows ----

  /** The packet that has just come shows that the end of a frame was lost. */
  predicate EndLost(g: Geometry, synced: bool, start: nat, rx: seq<nat>)
    requires g.pktsPerFrame > 0 && rx != []
  {
    var (front, n) := (rx[..|rx| - 1], rx[|rx| - 1]);
    var (next, e) := (Next(start, front), Gap(Next(start, front), n));
    InSync(g, synced, start, front) && e <= MAX_LOST && SlotOf(g, next) + e >= g.pktsPerFrame
  }

  /** It is itself the last one of a frame, and is copied. */
  predicate EndTaken(g: Geometry, synced: bool, start: nat, rx: seq<nat>)
    requires g.pktsPerFrame > 0 && rx != []
  {
    InSync(g, synced, start, rx) && SlotOf(g, rx[|rx| - 1]) == g.pktsPerFrame - 1
  }

  /** Either way the receiver reports a frame. */
  predicate Reports(g: Geometry, synced: bool, start: nat, rx: seq<nat>)
    requires g.pktsPerFrame > 0 && rx != []
  {
    EndLost(g, synced, start, rx) || EndTaken(g, synced, start, rx)
  }

  /** Over any harmless channel, exactly when a frame of any kind is reported. */
  lemma ReportedIff(g: Geometry, s0: int, s: State, sent: nat -> seq<Byte>, start: nat, rx: seq<nat>)
    requires RunOk(g, s0, s, sent, start, rx) && rx != []
    ensures Step(g, Run(g, s, sent, rx[..|rx| - 1]), sent(rx[|rx| - 1])).1 != 0 <==> Reports(g, s.synced, start, rx)
  {
    hide Step, Run, SlotOf, PacketsPerFrame, LastPacketSize, RunOk, Tracks, Misplaces, IsNth, FrameInv, Gap;
    RunOkBasics(g, s0, s, sent, start, rx);
    RunOkStep(g, s0, s, sent, start, rx);
    var front, n := rx[..|rx| - 1], rx[|rx| - 1];
    hide Reachable;
    StepReportsIff(g, s0, Run(g, s, sent, front), Next(start, front), n, sent(n));
  }

  // ---- the time stamps handed out with the frames ----

  /** A packet stamped with a time of 32 bits, least significant byte first. */
  predicate Stamped(pkt: seq<Byte>, time: int) {
    && 0 <= time < 0x1_0000_0000 && |pkt| >= 12
    && pkt[8] as int == time % 0x100 && pkt[9] as int == time / 0x100 % 0x100
    && pkt[10] as int == time / 0x1_0000 % 0x100 && pkt[11] as int == time / 0x100_0000
  }

  /** What one packet of the sender does to the time stamps, and to the number of frames seen. */
  lemma StepStamps(g: Geometry, s0: int, s: State, next: nat, n: nat, pkt: seq<Byte>, time: int)
    requires Valid(g, s) && g.pktsPerFrame > 0 && Stamped(pkt, time)
    ensures Arrives(g, s0, s, next, n, pkt) ==>
              var (t, got) := Step(g, s, pkt);
              var taken := Reachable(g, s.synced, next, n);
              var last := taken && SlotOf(g, n) == g.pktsPerFrame - 1;
              var lost := s.synced && Gap(next, n) <= MAX_LOST && SlotOf(g, next) + Gap(next, n) >= g.pktsPerFrame;
              && t.lastTimestamp == (if taken then time else s.lastTimestamp)
              && t.timestamp == (if last then time else if lost then s.lastTimestamp else s.timestamp)
              && t.validFrames == s.validFrames + Bit(lost) + Bit(last)
  {
    if Arrives(g, s0, s, next, n, pkt) {
      StampIsTime(pkt, time);
      StepTracksSender(g, s0, s, next, n, pkt);
      FlagFits(g, 0, SlotOf(g, n));
      if s.synced {
        SkipFindsSlot(g, s0, s, next, n, pkt);
      }
      if Reaches(g, s, pkt) {
        SkipStamps(g, s0, s, next, n, pkt);
      }
      hide SlotOf, SeqAt, Gap, SetBit, PacketsPerFrame, LastPacketSize, Overwrite, Reachable, Misplaces, Skipped,
           FlagExpected, Reaches, Tracks, TimestampOf, Stamped;
    }
  }

  function Bit(b: bool): int { if b then 1 else 0 }

  lemma SkipStamps(g: Geometry, s0: int, s: State, next: nat, n: nat, pkt: seq<Byte>)
    requires FixedMode(g) && g.pktsPerFrame >= 2 && FrameInv(g, s) && Tracks(g, s0, s, next)
    requires next <= n && IsNth(g, s0, n, pkt) && Reaches(g, s, pkt)
    ensures var (t, lost) := (Skipped(g, s, pkt).0, s.synced && SlotOf(g, next) + Gap(next, n) >= g.pktsPerFrame);
            && t.lastTimestamp == s.lastTimestamp && t.validFrames == s.validFrames + Bit(lost)
            && t.timestamp == if lost then s.lastTimestamp else s.timestamp
  {
    hide SlotOf, Gap, IsNth, SetBit, PacketsPerFrame, LastPacketSize;
    if s.synced {
      LostIsGap(g, s0, s, next, n, pkt);
    }
  }

  /** The packet whose time the newest report carries: the last one of the frame if that was copied, else the one
      received, and copied, before the loss of the end was seen. */
  function StampOf(g: Geometry, start: nat, rx: seq<nat>): Option<nat>
    requires g.pktsPerFrame > 0
  {
    if rx == [] then None
    else if EndTaken(g, false, start, rx) then Some(rx[|rx| - 1])
    else if EndLost(g, false, start, rx) && |rx| > 1 then Some(rx[|rx| - 2])
    else StampOf(g, start, rx[..|rx| - 1])
  }

  /** How many frames have been reported. */
  function FramesSeen(g: Geometry, start: nat, rx: seq<nat>): int
    requires g.pktsPerFrame > 0
  {
    if rx == [] then 0
    else FramesSeen(g, start, rx[..|rx| - 1]) + Bit(EndLost(g, false, start, rx)) + Bit(EndTaken(g, false, start, rx))
  }

  /** Main result: over any harmless channel the time stamp is the sender's time of the packet that ended the frame
      reported last, or, if the end of that was lost, of the newest packet copied before; and every frame is
      counted. */
  lemma {:induction false} StampsAreTimes(g: Geometry, s0: int, s: State, sent: nat -> seq<Byte>, time: nat -> int,
                                          start: nat, rx: seq<nat>)
    requires Valid(g, s) && g.pktsPerFrame > 0 && forall n: nat :: Stamped(sent(n), time(n))
    ensures RunOk(g, s0, s, sent, start, rx) && !s.synced ==>
              var (t, stamp) := (Run(g, s, sent, rx), StampOf(g, start, rx));
              && t.timestamp == (if stamp.Some? then time(stamp.value) else s.timestamp)
              && t.validFrames == s.validFrames + FramesSeen(g, start, rx)
              && (rx != [] && InSync(g, false, start, rx) ==> t.lastTimestamp == time(rx[|rx| - 1]))
  {
    hide Step, RunOk, Tracks, Misplaces, IsNth, FrameInv, FixedMode, Gap, SlotOf, Reachable, Stamped, Valid;
    if RunOk(g, s0, s, sent, start, rx) && !s.synced && rx != [] {
      var front, n := rx[..|rx| - 1], rx[|rx| - 1];
      RunOkStep(g, s0, s, sent, start, rx);
      hide Arrives, Run;
      assert Stamped(sent(n), time(n));
      StepStamps(g, s0, Run(g, s, sent, front), Next(start, front), n, sent(n), time(n));
      StampsAreTimes(g, s0, s, sent, time, start, front);
    }
  }

  /** The first m slots hold packets base, base + 1, ... of the sender. */
  predicate OneFrame(g: Geometry, synced: bool, start: nat, rx: seq<nat>, base: nat, m: nat)
    requires g.pktsPerFrame > 0
  {
    m == 0
    || (HeldIn(g, synced, start, rx, m - 1) == Some(base + m - 1) && OneFrame(g, synced, start, rx, base, m - 1))
  }

  lemma {:induction false} OneFrameAt(g: Geometry, synced: bool, start: nat, rx: seq<nat>, base: nat, m: nat, k: nat)
    requires g.pktsPerFrame > 0 && k < m && OneFrame(g, synced, start, rx, base, m)
    ensures HeldIn(g, synced, start, rx, k) == Some(base + k)
  {
    if k < m - 1 {
      OneFrameAt(g, synced, start, rx, base, m - 1, k);
    }
  }

  lemma {:induction false} HeldIsOld(g: Geometry, synced: bool, start: nat, rx: seq<nat>, k: int)
    requires g.pktsPerFrame > 0 && Increasing(start, rx)
    ensures var held := HeldIn(g, synced, start, rx, k); held.Some? ==> rx != [] && held.value < Next(start, rx)
  {
    hide SlotOf, InSync;
    if rx != [] {
      HeldIsOld(g, synced, start, rx[..|rx| - 1], k);
    }
  }

  /** A packet of another slot, or newer than those held, makes no difference to the slots before it. */
  lemma {:induction false} OneFrameWithout(g: Geometry, synced: bool, start: nat, rx: seq<nat>, base: nat, m: nat)
    requires g.pktsPerFrame > 0 && rx != []
    ensures rx[|rx| - 1] >= base + m && OneFrame(g, synced, start, rx, base, m) ==>
              OneFrame(g, synced, start, rx[..|rx| - 1], base, m)
    ensures SlotOf(g, rx[|rx| - 1]) >= m && OneFrame(g, synced, start, rx[..|rx| - 1], base, m) ==>
              OneFrame(g, synced, start, rx, base, m)
    ensures !InSync(g, synced, start, rx) ==>
              (OneFrame(g, synced, start, rx, base, m) <==> OneFrame(g, synced, start, rx[..|rx| - 1], base, m))
  {
    hide SlotOf, InSync;
    if m > 0 {
      OneFrameWithout(g, synced, start, rx, base, m - 1);
    }
  }

  lemma {:induction false} OneFrameIsStreak(g: Geometry, synced: bool, start: nat, rx: seq<nat>, base: nat, m: nat)
    requires 1 <= m <= g.pktsPerFrame && Increasing(start, rx) && SlotOf(g, base) == 0
    requires rx != [] && rx[|rx| - 1] == base + m - 1
    ensures OneFrame(g, synced, start, rx, base, m) ==> Streak(g, synced, start, rx, m)
  {
    hide SlotOf, InSync;
    var front := rx[..|rx| - 1];
    HeldIsOld(g, synced, start, front, m - 1);
    if m > 1 && OneFrame(g, synced, start, rx, base, m) {
      OneFrameWithout(g, synced, start, rx, base, m - 1);
      HeldIsOld(g, synced, start, front, m - 2);
      OneFrameIsStreak(g, synced, start, front, base, m - 1);
    }
  }

  lemma {:induction false} StreakIsOneFrame(g: Geometry, synced: bool, start: nat, rx: seq<nat>, m: nat)
    requires 0 < m <= g.pktsPerFrame
    ensures Streak(g, synced, start, rx, m) ==>
              var n := rx[|rx| - 1];
              n + 1 >= m && SlotOf(g, n) == m - 1 && OneFrame(g, synced, start, rx, n + 1 - m, m)
  {
    hide SlotOf, InSync;
    if Streak(g, synced, start, rx, m) {
      StreakIsUnbroken(g, synced, start, rx, m);
      UnbrokenSlot(g, synced, start, rx, m);
      if m > 1 {
        StreakIsOneFrame(g, synced, start, rx[..|rx| - 1], m - 1);
      }
      OneFrameWithout(g, synced, start, rx, rx[|rx| - 1] + 1 - m, m - 1);
    }
  }

  /** The slots hold the packets of one frame of the sender, whichever. */
  ghost predicate HoldsOneFrame(g: Geometry, synced: bool, start: nat, rx: seq<nat>)
    requires g.pktsPerFrame > 0
  {
    exists base: nat :: SlotOf(g, base) == 0 && OneFrame(g, synced, start, rx, base, g.pktsPerFrame)
  }

  /** When a packet has just been copied, the slots hold one frame exactly if it completes an unbroken series. */
  lemma CopiedFrameIff(g: Geometry, synced: bool, start: nat, rx: seq<nat>)
    requires g.pktsPerFrame > 0 && Increasing(start, rx) && rx != [] && InSync(g, synced, start, rx)
    ensures HoldsOneFrame(g, synced, start, rx) <==> Streak(g, synced, start, rx, g.pktsPerFrame)
  {
    hide SlotOf, HeldIn, Streak;
    var n, m: nat := rx[|rx| - 1], g.pktsPerFrame;
    forall base: nat | SlotOf(g, base) == 0 && OneFrame(g, synced, start, rx, base, m)
      ensures Streak(g, synced, start, rx, m)
    {
      JustCopied(g, synced, start, rx);
      OneFrameAt(g, synced, start, rx, base, m, SlotOf(g, n));
      HeldIsOld(g, synced, start, rx, m - 1);
      OneFrameIsStreak(g, synced, start, rx, base, m);
    }
    if Streak(g, synced, start, rx, m) {
      StreakIsOneFrame(g, synced, start, rx, m);
      SlotOfFrame(g, n);
      assert SlotOf(g, n + 1 - m) == 0;
    }
  }

  lemma JustCopied(g: Geometry, synced: bool, start: nat, rx: seq<nat>)
    requires g.pktsPerFrame > 0 && rx != [] && InSync(g, synced, start, rx)
    ensures HeldIn(g, synced, start, rx, SlotOf(g, rx[|rx| - 1])) == Some(rx[|rx| - 1])
  {
  }

  /** An old frame is reported again: a packet that could not be placed shows that all of the next frame, or its
      end, was lost, when nothing of that frame had come yet. */
  predicate ReportsAgain(g: Geometry, synced: bool, start: nat, rx: seq<nat>)
    requires g.pktsPerFrame > 0 && rx != []
  {
    !InSync(g, synced, start, rx) && Streak(g, synced, start, rx[..|rx| - 1], g.pktsPerFrame)
  }

  /** The same on the numbers of the packets received alone. */
  lemma ReportShowsOneFrameIff(g: Geometry, start: nat, rx: seq<nat>)
    requires g.pktsPerFrame > 0 && Increasing(start, rx) && rx != [] && Reports(g, false, start, rx)
    ensures HoldsOneFrame(g, false, start, rx)
       <==> Streak(g, false, start, rx, g.pktsPerFrame) || ReportsAgain(g, false, start, rx)
    ensures ReportsAgain(g, false, start, rx) ==> g.pktsPerFrame <= MAX_LOST
  {
    hide SlotOf, OneFrame, Gap;
    var front, m: nat := rx[..|rx| - 1], g.pktsPerFrame;
    if InSync(g, false, start, rx) {
      CopiedFrameIff(g, false, start, rx);
    } else {
      assert front != [] && InSync(g, false, start, front);
      hide InSync, Streak;
      CopiedFrameIff(g, false, start, front);
      forall base: nat {
        OneFrameWithout(g, false, start, rx, base, m);
      }
      if Streak(g, false, start, front, m) {
        StreakIsOneFrame(g, false, start, front, m);
        SlotAfter(g, front[|front| - 1], 1);
      }
    }
  }

  /** Main result: what a reported buffer shows is one frame of the sender exactly if the packet completes an
      unbroken series, or an old frame is reported again. With more than five packets a frame that does not
      happen: then every report that does not complete an unbroken series mixes frames, or is short of packets. */
  lemma ReportIsOneFrameIff(g: Geometry, s0: int, s: State, sent: nat -> seq<Byte>, start: nat, rx: seq<nat>)
    requires Valid(g, s) && g.pktsPerFrame >= 2 && rx != []
    ensures RunOk(g, s0, s, sent, start, rx) && !s.synced ==>
              Step(g, Run(g, s, sent, rx[..|rx| - 1]), sent(rx[|rx| - 1])).1 != 0 ==>
                && (HoldsOneFrame(g, s.synced, start, rx)
                    <==> Streak(g, s.synced, start, rx, g.pktsPerFrame) || ReportsAgain(g, s.synced, start, rx))
                && (g.pktsPerFrame > MAX_LOST ==>
                      (HoldsOneFrame(g, s.synced, start, rx) <==> Streak(g, s.synced, start, rx, g.pktsPerFrame)))
  {
    hide Step, Run, RunOk, HoldsOneFrame, Streak, ReportsAgain, Reports;
    if RunOk(g, s0, s, sent, start, rx) && !s.synced {
      RunOkBasics(g, s0, s, sent, start, rx);
      ReportedIff(g, s0, s, sent, start, rx);
      if Reports(g, s.synced, start, rx) {
        ReportShowsOneFrameIff(g, start, rx);
      }
    }
  }

  lemma SlotsOfTwo(g: Geometry)
    requires g.pktsPerFrame == 2
    ensures SlotOf(g, 0) == 0 && SlotOf(g, 1) == 1 && SlotOf(g, 2) == 0 && Gap(2, 6) == 4
    ensures forall synced: bool, next: nat, n: nat :: !Misplaces(g, synced, next, n)
  {
  }

  /** Packets 0, 1 and 6 through a channel, with two packets a frame. */
  lemma TwoPacketChannel(g: Geometry)
    requires g.pktsPerFrame == 2
    ensures var a: seq<nat>, b: seq<nat>, rx: seq<nat> := [0], [0, 1], [0, 1, 6];
            && a[..0] == [] && b[..1] == a && rx[..2] == b && Increasing(0, rx) && Harmless(g, false, 0, rx)
            && InSync(g, false, 0, a) && InSync(g, false, 0, b) && !InSync(g, false, 0, rx)
            && Streak(g, false, 0, b, 2) && Reports(g, false, 0, rx)
  {
    var a: seq<nat>, b: seq<nat>, rx: seq<nat> := [0], [0, 1], [0, 1, 6];
    assert a[..|a| - 1] == [] && b[..|b| - 1] == a && rx[..|rx| - 1] == b;
    assert Reachable(g, false, 0, 0) && Reachable(g, true, 1, 1) && !Reachable(g, true, 2, 6);
    SlotsOfTwo(g);
    hide SlotOf, Reachable, Misplaces;
    assert InSync(g, false, 0, a) && Increasing(0, a) && Harmless(g, false, 0, a);
    assert InSync(g, false, 0, b) && Increasing(0, b) && Harmless(g, false, 0, b);
    assert !InSync(g, false, 0, rx);
    assert Streak(g, false, 0, a, 1);
  }

  /** A packet that is refused but makes the receiver report leaves the buffer as it was. */
  lemma RefusedReport(g: Geometry, s0: int, s: State, sent: nat -> seq<Byte>, start: nat, rx: seq<nat>)
    requires RunOk(g, s0, s, sent, start, rx) && rx != []
    requires Reports(g, s.synced, start, rx) && !InSync(g, s.synced, start, rx)
    ensures var mid := Run(g, s, sent, rx[..|rx| - 1]);
            var (t, got) := Step(g, mid, sent(rx[|rx| - 1]));
            got == g.frameSize && t.buf == mid.buf
  {
    hide Step, Run, RunOk, Reports, InSync, Accepts, Misplaces, Tracks, IsNth, PacketsPerFrame, LastPacketSize;
    RunOkBasics(g, s0, s, sent, start, rx);
    RunOkStep(g, s0, s, sent, start, rx);
    ReportedIff(g, s0, s, sent, start, rx);
    TakenIffInSync(g, s0, s, sent, start, rx);
    StepKeepsFrameInv(g, Run(g, s, sent, rx[..|rx| - 1]), sent(rx[|rx| - 1]));
    StepWritesOneSlot(g, Run(g, s, sent, rx[..|rx| - 1]), sent(rx[|rx| - 1]));
    RunFront(g, s, sent, rx);
  }

  lemma RunFront(g: Geometry, s: State, sent: nat -> seq<Byte>, rx: seq<nat>)
    requires Valid(g, s) && rx != []
    ensures Taken(g, s, sent, rx, |rx| - 1) <==> Accepts(g, Run(g, s, sent, rx[..|rx| - 1]), sent(rx[|rx| - 1]))
  {
  }

  /** With two packets a frame it does: packets 0 and 1 make a frame, and packet 6 reports it once more. */
  lemma TwoPacketFrameReportedAgain(g: Geometry, s0: int, s: State, sent: nat -> seq<Byte>)
    requires FixedMode(g) && g.pktsPerFrame == 2 && FrameInv(g, s) && !s.synced && IsSender(g, s0, sent)
    ensures var (rx, mid) := ([0, 1, 6], Run(g, s, sent, [0, 1]));
            && RunOk(g, s0, s, sent, 0, rx) && ReportsAgain(g, false, 0, rx) && !Streak(g, false, 0, rx, 2)
            && Step(g, mid, sent(6)).1 == g.frameSize && Step(g, mid, sent(6)).0.buf == mid.buf
            && HoldsOneFrame(g, false, 0, rx)
  {
    TwoPacketChannel(g);
    var rx: seq<nat> := [0, 1, 6];
    assert rx[..|rx| - 1] == [0, 1];
    hide SlotOf, Step, Run, InSync, Harmless, Increasing, Reports, HoldsOneFrame, PacketsPerFrame, LastPacketSize,
         IsSender, FrameInv;
    assert RunOk(g, s0, s, sent, 0, rx);
    RefusedReport(g, s0, s, sent, 0, rx);
    ReportShowsOneFrameIff(g, 0, rx);
  }

  /** The slots that hold the frame being received hold it whole exactly if its last packet has just completed an
      unbroken series. */
  lemma HoldsCurrentFrameIff(g: Geometry, synced: bool, start: nat, rx: seq<nat>)
    requires g.pktsPerFrame >= 2 && Increasing(start, rx) && rx != []
    ensures var next := Next(start, rx[..|rx| - 1]);
            && next - SlotOf(g, next) >= 0
            && (OneFrame(g, synced, start, rx, next - SlotOf(g, next), g.pktsPerFrame)
                <==> Streak(g, synced, start, rx, g.pktsPerFrame))
  {
    hide SlotOf, HeldIn, InSync;
    var next, m: nat := Next(start, rx[..|rx| - 1]), g.pktsPerFrame;
    SlotOfFrame(g, next);
    var base: nat := next - SlotOf(g, next);
    HeldIsNew(g, synced, start, rx, m - 1);
    if OneFrame(g, synced, start, rx, base, m) {
      OneFrameIsStreak(g, synced, start, rx, base, m);
    }
    if Streak(g, synced, start, rx, m) {
      StreakIsOneFrame(g, synced, start, rx, m);
    }
  }

  /** What a slot holds of a packet not sent before is the packet that has just come. */
  lemma HeldIsNew(g: Geometry, synced: bool, start: nat, rx: seq<nat>, k: int)
    requires g.pktsPerFrame > 0 && Increasing(start, rx) && rx != []
    ensures var held := HeldIn(g, synced, start, rx, k);
            held.Some? && held.value >= Next(start, rx[..|rx| - 1]) ==> held.value == rx[|rx| - 1]
  {
    hide SlotOf, InSync;
    HeldIsOld(g, synced, start, rx[..|rx| - 1], k);
  }

  lemma RunOkBasics(g: Geometry, s0: int, s: State, sent: nat -> seq<Byte>, start: nat, rx: seq<nat>)
    ensures RunOk(g, s0, s, sent, start, rx) ==>
              Increasing(start, rx) && Valid(g, s) && FixedMode(g) && g.pktsPerFrame >= 2
  {
  }

  lemma SlotOfFrame(g: Geometry, next: nat)
    requires g.pktsPerFrame > 0
    ensures next - SlotOf(g, next) >= 0 && SlotOf(g, next - SlotOf(g, next)) == 0
  {
    var m := g.pktsPerFrame;
    assert next - next % m == next / m * m + 0;
    MulMonotone(0, next / m, m);
    DivModUnique(next - next % m, m, next / m, 0);
  }

  /** Such a mixture: when the end of a frame is lost, the packet that reveals the loss already belongs to the
      next frame, and it is copied in before the old frame is handed over. */
  lemma LostEndMixesFrames(g: Geometry, s0: int, s: State, next: nat, n: nat, pkt: seq<Byte>)
    requires FixedMode(g) && g.pktsPerFrame >= 2 && FrameInv(g, s) && s.synced && Tracks(g, s0, s, next)
    requires next < n <= next + MAX_LOST && SlotOf(g, n) == SlotOf(g, next) + (n - next) - g.pktsPerFrame
    requires IsNth(g, s0, n, pkt) && SlotOf(g, n) < g.pktsPerFrame - 1
    ensures var (t, got) := Step(g, s, pkt);
            && got == g.frameSize && Slot(g, t.buf, SlotOf(g, n)) == DataOf(pkt)
            && t.validPkts == s.gotPkts < g.pktsPerFrame
  {
    ShortGapsAreHarmless(g, s.synced, next, n);
    StepTracksSender(g, s0, s, next, n, pkt);
    StepOnSlots(g, s0, s, next, n, pkt, SlotOf(g, n));
    FlagFits(g, 0, SlotOf(g, n));
    LostIsGap(g, s0, s, next, n, pkt);
    hide SetBit, PacketsPerFrame, LastPacketSize, SlotOf, SeqAt, Overwrite;
  }

  // ---- variable-length streams ----

  /** The payloads of the frame a packet belongs to, up to and with that packet. */
  ghost function Appended(s: State, pkt: seq<Byte>, cur: seq<Byte>): seq<Byte>
    requires |pkt| >= HEADER_LENGTH
  {
    (if s.synced then cur else []) + DataOf(pkt)
  }

  /** The payloads accepted since the current frame began, after one more packet. */
  ghost function Collect(g: Geometry, s: State, pkt: seq<Byte>, cur: seq<Byte>): seq<Byte>
    requires Valid(g, s)
  {
    if !Accepts(g, s, pkt) then cur
    else if FlagOf(pkt) == g.Eof() then []
    else Appended(s, pkt, cur)
  }

  ghost predicate Collected(g: Geometry, s: State, cur: seq<Byte>)
    requires Valid(g, s)
  {
    s.synced ==>
      && s.pktNum <= g.pktsPerFrame
      && |cur| == (if s.pktNum < g.pktsPerFrame then s.pktNum * g.pktSize else g.frameSize) <= |s.buf|
      && s.buf[..|cur|] == cur
  }

  /** In variable-length mode an accepted packet is put into the slot the receiver stands at. */
  lemma StepAppends(g: Geometry, s: State, pkt: seq<Byte>)
    requires g.variableLength && Valid(g, s)
    ensures var (t, got) := Step(g, s, pkt);
            !Accepts(g, s, pkt) ==> got == 0 && (t == s || !t.synced)
    ensures Accepts(g, s, pkt) ==>
              var (t, got) := Step(g, s, pkt);
              var (k, data) := (if s.synced then s.pktNum else 0, DataOf(pkt));
              && WellFormed(pkt) && k < g.pktsPerFrame && |data| <= g.SlotSize(k)
              && 0 <= k * g.pktSize && k * g.pktSize + |data| <= g.frameSize
              && t.buf == Overwrite(s.buf, k * g.pktSize, data)
              && (FlagOf(pkt) == g.Eof() ==> t.pktNum == 0 && got == k * g.pktSize + |data|)
              && (FlagOf(pkt) != g.Eof() ==> t.pktNum == k + 1 && got == 0 && |data| == g.SlotSize(k))
  {
    SlotsTileFrame(g);
    if Accepts(g, s, pkt) {
      SlotBounds(g, Sync(s, SeqOf(pkt)).pktNum);
      hide SetBit, PacketsPerFrame, LastPacketSize, Overwrite;
    }
  }

  lemma OverwriteAppends(buf: seq<Byte>, at: int, data: seq<Byte>)
    requires 0 <= at && at + |data| <= |buf|
    ensures Overwrite(buf, at, data)[..at + |data|] == buf[..at] + data
  {
  }

  /** In variable-length mode a reported size n says that the first n bytes of the buffer are
      the payloads accepted since the frame began, in order. */
  lemma StepCollects(g: Geometry, s: State, pkt: seq<Byte>, cur: seq<Byte>)
    requires g.variableLength && Valid(g, s)
    ensures Collected(g, s, cur) ==> Collected(g, Step(g, s, pkt).0, Collect(g, s, pkt, cur))
    ensures var (t, got) := Step(g, s, pkt);
            Collected(g, s, cur) && got != 0 ==>
              && Accepts(g, s, pkt) && FlagOf(pkt) == g.Eof()
              && got <= |t.buf| && t.buf[..got] == Appended(s, pkt, cur)
  {
    hide Step, Accepts, SetBit, PacketsPerFrame, LastPacketSize, Overwrite;
    StepAppends(g, s, pkt);
    if Collected(g, s, cur) && Accepts(g, s, pkt) {
      var k := if s.synced then s.pktNum else 0;
      SlotBounds(g, k);
      MulStep(k + 1, g.pktSize);
      OverwriteAppends(s.buf, k * g.pktSize, DataOf(pkt));
      assert s.buf[..k * g.pktSize] == if s.synced then cur else [];
    }
  }

  ghost function RunAll(g: Geometry, s: State, pkts: seq<seq<Byte>>): (r: (State, seq<Byte>))
    requires Valid(g, s)
    ensures Valid(g, r.0)
  {
    if pkts == [] then (s, [])
    else
      var m := |pkts| - 1;
      var (t, cur) := RunAll(g, s, pkts[..m]);
      (Step(g, t, pkts[m]).0, Collect(g, t, pkts[m], cur))
  }

  /** Every size n reported on the way says that the first n bytes of the buffer then were the payloads
      accepted since the frame began. */
  ghost predicate ReportsExact(g: Geometry, s: State, pkts: seq<seq<Byte>>)
    requires Valid(g, s)
  {
    if pkts == [] then true
    else
      var (front, pkt) := (pkts[..|pkts| - 1], pkts[|pkts| - 1]);
      var (mid, cur) := RunAll(g, s, front);
      var (t, got) := Step(g, mid, pkt);
      ReportsExact(g, s, front)
      && (got != 0 ==> |pkt| >= HEADER_LENGTH && 0 <= got <= |t.buf| && t.buf[..got] == Appended(mid, pkt, cur))
  }

  lemma {:induction false} RunCollects(g: Geometry, s: State, pkts: seq<seq<Byte>>)
    requires g.variableLength && Valid(g, s) && !s.synced
    ensures Collected(g, RunAll(g, s, pkts).0, RunAll(g, s, pkts).1)
    ensures ReportsExact(g, s, pkts)
  {
    if pkts != [] {
      hide Collected, Collect, Step, Appended;
      var m := |pkts| - 1;
      RunCollects(g, s, pkts[..m]);
      StepCollects(g, RunAll(g, s, pkts[..m]).0, pkts[m], RunAll(g, s, pkts[..m]).1);
    }
  }
}
