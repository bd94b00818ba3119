/** The Kinect isochronous stream receiver: it cuts numbered packets out of a lossy
    stream and lays their payloads out in a frame buffer, one fixed slot per packet. */
module PacketStreams {

  import opened Arithmetic
  import opened Bytes

  const HEADER_LENGTH := 12
  const MAX_LOST := 5

  /** The settings of one stream. The two derived fields are filled in by stream_init. */
  datatype Geometry = Geometry(flag: Byte, variableLength: bool, pktSize: int, frameSize: int,
                               lastPktSize: int, pktsPerFrame: int)
  {
    ghost predicate Ok() {
      && pktSize > 0 && frameSize > 0
      && lastPktSize == LastPacketSize(frameSize, pktSize)
      && pktsPerFrame == PacketsPerFrame(frameSize, pktSize)
    }

    function Sof(): int { SetBit(flag, 1) }
    function Mof(): int { SetBit(flag, 2) }
    function Eof(): int { SetBit(SetBit(flag, 1), 4) }

    function SlotSize(slot: int): int {
      if slot == pktsPerFrame - 1 then lastPktSize else pktSize
    }

    function FlagOfSlot(slot: int): int {
      if slot == 0 then Sof() else if slot == pktsPerFrame - 1 then Eof() else Mof()
    }
  }

  /** x | bit, for a power of two. */
  function SetBit(x: int, bit: int): int
    requires bit > 0
  {
    if x / bit % 2 == 1 then x else x + bit
  }

  /** It sets that bit and leaves those below and above it alone. */
  lemma SetBitSets(x: nat)
    ensures SetBit(x, 1) % 2 == 1 && SetBit(x, 1) / 2 == x / 2
    ensures SetBit(x, 2) / 2 % 2 == 1 && SetBit(x, 2) % 2 == x % 2 && SetBit(x, 2) / 4 == x / 4
    ensures SetBit(x, 4) / 4 % 2 == 1 && SetBit(x, 4) % 4 == x % 4 && SetBit(x, 4) / 8 == x / 8
  {
    SetsSecond(x);
    SetsThird(x);
    hide SetBit;
    assert SetBit(x, 1) % 2 == 1 && SetBit(x, 1) / 2 == x / 2 by { SetsFirst(x); }
  }

  lemma SetsFirst(x: nat)
    ensures SetBit(x, 1) % 2 == 1 && SetBit(x, 1) / 2 == x / 2
  {
  }

  lemma SetsSecond(x: nat)
    ensures SetBit(x, 2) / 2 % 2 == 1 && SetBit(x, 2) % 2 == x % 2 && SetBit(x, 2) / 4 == x / 4
  {
  }

  lemma SetsThird(x: nat)
    ensures SetBit(x, 4) / 4 % 2 == 1 && SetBit(x, 4) % 4 == x % 4 && SetBit(x, 4) / 8 == x / 8
  {
    var q, r, b := x / 8, x % 4, x % 8 / 4;
    assert x == 8 * q + 4 * b + r && 0 <= b <= 1;
    EighthsAre(x, q, b, r);
    EighthsAre(8 * q + 4 + r, q, 1, r);
    assert SetBit(x, 4) == 8 * q + 4 + r;
  }

  lemma EighthsAre(x: nat, q: nat, b: nat, r: nat)
    requires x == 8 * q + 4 * b + r && b <= 1 && r < 4
    ensures x / 8 == q && x / 4 == 2 * q + b && x / 4 % 2 == b && x % 4 == r
  {
    DivModUnique(x, 8, q, 4 * b + r);
    DivModUnique(x, 4, 2 * q + b, r);
  }

  function LastPacketSize(frameSize: int, pktSize: int): int
    requires pktSize > 0
  {
    if frameSize % pktSize == 0 then pktSize else frameSize % pktSize
  }

  function PacketsPerFrame(frameSize: int, pktSize: int): int
    requires pktSize > 0
  {
    (frameSize + pktSize - 1) / pktSize
  }

  /** The slots tile the frame: every slot but the last is full, and the last one ends it. */
  lemma SlotsTileFrame(g: Geometry)
    requires g.Ok()
    ensures g.pktsPerFrame >= 1 && 1 <= g.lastPktSize <= g.pktSize
    ensures (g.pktsPerFrame - 1) * g.pktSize + g.lastPktSize == g.frameSize
  {
    var q, r := g.frameSize / g.pktSize, g.frameSize % g.pktSize;
    assert g.frameSize == q * g.pktSize + r;
    if r == 0 {
      DivModUnique(g.frameSize + g.pktSize - 1, g.pktSize, q, g.pktSize - 1);
      assert q >= 1;
      assert (q - 1) * g.pktSize + g.pktSize == q * g.pktSize;
    } else {
      assert (q + 1) * g.pktSize == q * g.pktSize + g.pktSize;
      DivModUnique(g.frameSize + g.pktSize - 1, g.pktSize, q + 1, r - 1);
    }
  }

  lemma SlotBounds(g: Geometry, k: int)
    requires g.Ok() && 0 <= k < g.pktsPerFrame
    ensures 0 <= k * g.pktSize
    ensures k * g.pktSize + g.SlotSize(k) <= g.frameSize
    ensures k == g.pktsPerFrame - 1 ==> k * g.pktSize + g.SlotSize(k) == g.frameSize
    ensures 1 <= g.SlotSize(k) <= g.pktSize
  {
    SlotsTileFrame(g);
    if k < g.pktsPerFrame - 1 {
      MulMonotone(k + 1, g.pktsPerFrame - 1, g.pktSize);
      assert (k + 1) * g.pktSize == k * g.pktSize + g.pktSize;
    }
  }

  /** Two different slots occupy disjoint byte ranges. */
  lemma SlotsDisjoint(g: Geometry, j: int, k: int)
    requires g.Ok() && 0 <= j < k < g.pktsPerFrame
    ensures j * g.pktSize + g.SlotSize(j) <= k * g.pktSize
  {
    SlotBounds(g, j);
    MulMonotone(j + 1, k, g.pktSize);
    assert (j + 1) * g.pktSize == j * g.pktSize + g.pktSize;
  }

  /** The mutable part of a stream, with the contents of raw_buf. */
  datatype State = State(synced: bool, seqNo: int, gotPkts: int, pktNum: int, validPkts: int,
                         validFrames: int, lastTimestamp: int, timestamp: int, buf: seq<Byte>)

  ghost predicate Valid(g: Geometry, s: State) {
    g.Ok() && 0 <= s.seqNo < 256 && 0 <= s.pktNum && |s.buf| >= g.frameSize
  }

  // ---- the packet header ----

  predicate WellFormed(pkt: seq<Byte>) {
    |pkt| >= HEADER_LENGTH && pkt[0] == 0x52 && pkt[1] == 0x42
  }

  function FlagOf(pkt: seq<Byte>): Byte
    requires |pkt| >= HEADER_LENGTH
  {
    pkt[3]
  }

  function SeqOf(pkt: seq<Byte>): (r: int)
    requires |pkt| >= HEADER_LENGTH
    ensures 0 <= r < 256
  {
    pkt[5]
  }

  function TimestampOf(pkt: seq<Byte>): int
    requires |pkt| >= HEADER_LENGTH
  {
    pkt[8] as int + 0x100 * (pkt[9] as int) + 0x1_0000 * (pkt[10] as int) + 0x100_0000 * (pkt[11] as int)
  }

  function DataOf(pkt: seq<Byte>): seq<Byte>
    requires |pkt| >= HEADER_LENGTH
  {
    pkt[HEADER_LENGTH..]
  }

  /** What is read from a header is what struct pkt_hdr has in these places: the letters R and B, a flag, a
      sequence number and a time stamp; the payload starts behind twelve bytes. */
  lemma HeaderFields(pad: Byte, flag: Byte, unk1: Byte, seqNo: Byte, unk2: Byte, unk3: Byte, time: int, data: seq<Byte>)
    requires 0 <= time < 0x1_0000_0000
    ensures var pkt: seq<Byte> :=
              [0x52, 0x42, pad, flag, unk1, seqNo, unk2, unk3,
               time % 0x100, time / 0x100 % 0x100, time / 0x1_0000 % 0x100, time / 0x100_0000] + data;
            WellFormed(pkt) && FlagOf(pkt) == flag && SeqOf(pkt) == seqNo && TimestampOf(pkt) == time
            && DataOf(pkt) == data
  {
    assert time / 0x100 / 0x100 == time / 0x1_0000 && time / 0x1_0000 / 0x100 == time / 0x100_0000;
  }

  /** The time stamp of a packet whose bytes 8 to 11 are those of a time. */
  lemma StampIsTime(pkt: seq<Byte>, time: int)
    requires 0 <= time < 0x1_0000_0000 && |pkt| >= 12
    requires pkt[8] as int == time % 0x100 && pkt[9] as int == time / 0x100 % 0x100
    requires pkt[10] as int == time / 0x1_0000 % 0x100 && pkt[11] as int == time / 0x100_0000
    ensures TimestampOf(pkt) == time
  {
    assert time / 0x100 / 0x100 == time / 0x1_0000 && time / 0x1_0000 / 0x100 == time / 0x100_0000;
  }

  // ---- one packet, as a function ----

  function Sync(s: State, seqNo: int): State {
    if s.synced then s
    else s.(synced := true, seqNo := seqNo, pktNum := 0, validPkts := 0, gotPkts := 0)
  }

  /** Account for lost packets; the frame is reported early when its end was among them. */
  function SkipLost(g: Geometry, s: State, lost: int): (State, int) {
    if lost == 0 then (s, 0)
    else
      var t := s.(seqNo := (s.seqNo + lost) % 256);
      var left := g.pktsPerFrame - s.pktNum;
      if left <= lost then
        (t.(pktNum := lost - left, validPkts := s.gotPkts, gotPkts := 0,
            timestamp := s.lastTimestamp, validFrames := s.validFrames + 1), g.frameSize)
      else
        (t.(pktNum := s.pktNum + lost), 0)
  }

  predicate FlagExpected(g: Geometry, pktNum: int, flag: int) {
    if g.variableLength then
      (pktNum == 0 && flag == g.Sof()) || (pktNum < g.pktsPerFrame && (flag == g.Eof() || flag == g.Mof()))
    else
      || (pktNum == 0 && flag == g.Sof())
      || (pktNum == g.pktsPerFrame - 1 && flag == g.Eof())
      || (0 < pktNum < g.pktsPerFrame - 1 && flag == g.Mof())
  }

  datatype Verdict = Take | Drop | Resync

  function Judge(g: Geometry, pktNum: int, flag: int, size: int): Verdict {
    if !FlagExpected(g, pktNum, flag) then Resync
    else if size > g.SlotSize(pktNum) then (if g.variableLength then Resync else Drop)
    else if g.variableLength && size < g.SlotSize(pktNum) && flag != g.Eof() then Resync
    else Take
  }

  function Accept(g: Geometry, s: State, pkt: seq<Byte>, got: int): (State, int)
    requires Valid(g, s) && |pkt| >= HEADER_LENGTH && s.pktNum < g.pktsPerFrame
    requires |DataOf(pkt)| <= g.SlotSize(s.pktNum)
  {
    SlotBounds(g, s.pktNum);
    var at := s.pktNum * g.pktSize;
    var t := s.(buf := Overwrite(s.buf, at, DataOf(pkt)), seqNo := (s.seqNo + 1) % 256,
                lastTimestamp := TimestampOf(pkt));
    if FlagOf(pkt) == g.Eof() then
      (t.(pktNum := 0, validPkts := s.gotPkts + 1, gotPkts := 0, timestamp := TimestampOf(pkt),
          validFrames := s.validFrames + 1),
       at + if g.variableLength then |DataOf(pkt)| else g.lastPktSize)
    else
      (t.(pktNum := s.pktNum + 1, gotPkts := s.gotPkts + 1), got)
  }

  function LostBefore(s: State, pkt: seq<Byte>): (lost: int)
    requires |pkt| >= HEADER_LENGTH
    ensures 0 <= lost < 256
  {
    (SeqOf(pkt) - s.seqNo) % 256
  }

  /** The packet is looked at, and neither ignored nor the cause of a resync by its sequence number. */
  predicate Reaches(g: Geometry, s: State, pkt: seq<Byte>) {
    && WellFormed(pkt)
    && (s.synced || FlagOf(pkt) == g.Sof())
    && var lost := LostBefore(Sync(s, SeqOf(pkt)), pkt);
       lost == 0 || (lost <= MAX_LOST && !g.variableLength)
  }

  function Skipped(g: Geometry, s: State, pkt: seq<Byte>): (State, int)
    requires |pkt| >= HEADER_LENGTH
  {
    var t := Sync(s, SeqOf(pkt));
    SkipLost(g, t, LostBefore(t, pkt))
  }

  function VerdictOn(g: Geometry, s: State, pkt: seq<Byte>): Verdict
    requires |pkt| >= HEADER_LENGTH
  {
    Judge(g, Skipped(g, s, pkt).0.pktNum, FlagOf(pkt), |DataOf(pkt)|)
  }

  /** The packet's payload is copied into the frame buffer. */
  predicate Accepts(g: Geometry, s: State, pkt: seq<Byte>) {
    Reaches(g, s, pkt) && VerdictOn(g, s, pkt) == Take
  }

  function Step(g: Geometry, s: State, pkt: seq<Byte>): (r: (State, int))
    requires Valid(g, s)
    ensures Valid(g, r.0) && |r.0.buf| == |s.buf|
  {
    SlotsTileFrame(g);
    if !WellFormed(pkt) || (!s.synced && FlagOf(pkt) != g.Sof()) then (s, 0)
    else if !Reaches(g, s, pkt) then (Sync(s, SeqOf(pkt)).(synced := false), 0)
    else
      var (t, got) := Skipped(g, s, pkt);
      match VerdictOn(g, s, pkt)
      case Resync => (t.(synced := false), got)
      case Drop => (t, got)
      case Take => Accept(g, t, pkt, got)
  }

  lemma SkippedIsValid(g: Geometry, s: State, pkt: seq<Byte>)
    requires Valid(g, s) && Reaches(g, s, pkt)
    ensures Valid(g, Skipped(g, s, pkt).0) && Skipped(g, s, pkt).0.synced
    ensures LostBefore(Sync(s, SeqOf(pkt)), pkt) == 0 ==> Skipped(g, s, pkt) == (Sync(s, SeqOf(pkt)), 0)
    ensures VerdictOn(g, s, pkt) == Take ==>
              var pktNum := Skipped(g, s, pkt).0.pktNum;
              pktNum < g.pktsPerFrame && |DataOf(pkt)| <= g.SlotSize(pktNum)
  {
    SlotsTileFrame(g);
  }

  // ---- the receiver itself ----

  /** The struct packet_stream with split buffers: raw_buf belongs to the stream. */
  class PacketStream {
    const g: Geometry
    const rawBuf: array<Byte>
    var synced: bool
    var seqNo: int
    var gotPkts: int
    var pktNum: int
    var validPkts: int
    var validFrames: int
    var lastTimestamp: int
    var timestamp: int

    ghost function View(): State
      reads this, rawBuf
    {
      State(synced, seqNo, gotPkts, pktNum, validPkts, validFrames, lastTimestamp, timestamp, rawBuf[..])
    }

    /** stream_init for a stream whose raw buffer is rlen bytes long. */
    constructor (flag: Byte, variableLength: bool, pktSize: int, rlen: int)
      requires pktSize > 0 && rlen > 0
      ensures g == Geometry(flag, variableLength, pktSize, rlen,
                                   LastPacketSize(rlen, pktSize), PacketsPerFrame(rlen, pktSize))
      ensures Valid(g, View()) && !synced && fresh(rawBuf) && rawBuf.Length == rlen
    {
      validFrames, synced := 0, false;
      seqNo, gotPkts, pktNum, validPkts, lastTimestamp, timestamp := 0, 0, 0, 0, 0, 0;
      rawBuf := new Byte[rlen];
      var last := rlen % pktSize;
      if last == 0 {
        last := pktSize;
      }
      g := Geometry(flag, variableLength, pktSize, rlen, last, (rlen + pktSize - 1) / pktSize);
    }

    /** stream_process: the whole packet handler. */
    method Process(pkt: seq<Byte>) returns (got: int)
      requires Valid(g, View())
      modifies this, rawBuf
      ensures (View(), got) == Step(g, old(View()), pkt)
    {
      hide SkipLost, Judge, Accept, PacketsPerFrame, LastPacketSize, TimestampOf;
      got := 0;
      if |pkt| < HEADER_LENGTH {
        return;
      }
      if pkt[0] != 0x52 || pkt[1] != 0x42 {
        return;
      }
      ghost var before := View();
      if !synced {
        if pkt[3] != SetBit(g.flag, 1) {
          return;
        }
        synced, seqNo, pktNum, validPkts, gotPkts := true, pkt[5], 0, 0, 0;
      }
      assert View() == Sync(before, SeqOf(pkt));
      if seqNo != pkt[5] {
        var lost := (pkt[5] - seqNo) % 256;
        if lost > 5 || g.variableLength {
          synced := false;
          return;
        }
        got := CountLost(pkt[5], lost);
      }
      SkippedIsValid(g, before, pkt);
      assert (View(), got) == Skipped(g, before, pkt);
      var verdict := CheckHeader(pkt[3], |pkt| - HEADER_LENGTH);
      if verdict != Take {
        synced := verdict == Drop;
        return;
      }
      got := Store(pkt, got);
    }

    /** The lost-packet bookkeeping of stream_process. */
    method CountLost(hdrSeq: int, lost: int) returns (got: int)
      requires 0 < lost < 256 && hdrSeq == (seqNo + lost) % 256
      modifies this
      ensures (View(), got) == SkipLost(g, old(View()), lost)
    {
      got := 0;
      seqNo := hdrSeq;
      var left := g.pktsPerFrame - pktNum;
      if left <= lost {
        pktNum := lost - left;
        validPkts := gotPkts;
        gotPkts := 0;
        got := g.frameSize;
        timestamp := lastTimestamp;
        validFrames := validFrames + 1;
      } else {
        pktNum := pktNum + lost;
      }
    }

    /** The flag and length checks of stream_process. */
    method CheckHeader(hdrFlag: int, dataLen: int) returns (verdict: Verdict)
      ensures verdict == Judge(g, pktNum, hdrFlag, dataLen)
    {
      var sof, mof, eof := SetBit(g.flag, 1), SetBit(g.flag, 2), SetBit(SetBit(g.flag, 1), 4);
      var expectedPktSize := if pktNum == g.pktsPerFrame - 1 then g.lastPktSize else g.pktSize;
      if !g.variableLength {
        if !(pktNum == 0 && hdrFlag == sof) &&
           !(pktNum == g.pktsPerFrame - 1 && hdrFlag == eof) &&
           !(pktNum > 0 && pktNum < g.pktsPerFrame - 1 && hdrFlag == mof) {
          return Resync;
        }
        if dataLen > expectedPktSize {
          return Drop;
        }
      } else {
        if !(pktNum == 0 && hdrFlag == sof) &&
           !(pktNum < g.pktsPerFrame && (hdrFlag == eof || hdrFlag == mof)) {
          return Resync;
        }
        if dataLen > expectedPktSize {
          return Resync;
        }
        if dataLen < expectedPktSize && hdrFlag != eof {
          return Resync;
        }
      }
      return Take;
    }

    /** The accepting tail of stream_process. */
    method Store(pkt: seq<Byte>, soFar: int) returns (got: int)
      requires Valid(g, View()) && |pkt| >= HEADER_LENGTH && pktNum < g.pktsPerFrame
      requires |DataOf(pkt)| <= g.SlotSize(pktNum)
      modifies this, rawBuf
      ensures (View(), got) == Accept(g, old(View()), pkt, soFar)
    {
      got := soFar;
      SlotBounds(g, pktNum);
      var data := pkt[HEADER_LENGTH..];
      var dbuf := pktNum * g.pktSize;
      CopyIn(dbuf, data);
      pktNum := pktNum + 1;
      seqNo := (seqNo + 1) % 256;
      gotPkts := gotPkts + 1;
      lastTimestamp := TimestampOf(pkt);
      if pkt[3] == SetBit(SetBit(g.flag, 1), 4) {
        got := if g.variableLength then dbuf + |data| else dbuf + g.lastPktSize;
        pktNum := 0;
        validPkts := gotPkts;
        gotPkts := 0;
        timestamp := lastTimestamp;
        validFrames := validFrames + 1;
      }
    }

    /** The memcpy of one payload. */
    method CopyIn(at: int, data: seq<Byte>)
      requires 0 <= at && at + |data| <= rawBuf.Length
      modifies rawBuf
      ensures rawBuf[..] == Overwrite(old(rawBuf[..]), at, data)
    {
      forall i | 0 <= i < |data| {
        rawBuf[at + i] := data[i];
      }
    }
  }
}
