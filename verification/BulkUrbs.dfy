/** Bulk transfers over usbfs: a transfer is cut into URBs of at most 16 KB that are submitted all at
    once and reaped in order, and whose data must end up contiguous and be reported once. */
module BulkUrbs {
  import opened Bytes
  import opened Usbfs
  import opened Wrappers

  const MAX_BULK_BUFFER_LENGTH := 16384

  datatype UrbStatus =
    | Success | RemoteIo | NoEnt | ConnReset | Shutdown | Pipe | Overflow | Time | Proto | IlSeq | Other
  {
    /** Statuses after which handle_bulk_completion goes on to the length checks. */
    predicate Benign() { Success? || RemoteIo? || NoEnt? || ConnReset? }
    predicate Fault() { Shutdown? || Pipe? }
  }

  datatype Urb = Urb(offset: int, length: int, shortNotOk: bool, continuation: bool)

  /** What the kernel made of one URB. */
  datatype UrbResult = UrbResult(status: UrbStatus, data: seq<Byte>)

  // ---- cutting ----

  function NumUrbs(length: nat): (n: nat)
    ensures n >= 1
  {
    if length == 0 then 1
    else length / MAX_BULK_BUFFER_LENGTH + if length % MAX_BULK_BUFFER_LENGTH > 0 then 1 else 0
  }

  function UrbOffset(i: nat): nat { i * MAX_BULK_BUFFER_LENGTH }

  function UrbLength(length: nat, i: nat): int {
    if i == NumUrbs(length) - 1 && length % MAX_BULK_BUFFER_LENGTH > 0 then length % MAX_BULK_BUFFER_LENGTH
    else if length == 0 then 0
    else MAX_BULK_BUFFER_LENGTH
  }

  /** The URBs tile the buffer: contiguous, within the limit, full except for the last one, and as few
      as possible. */
  lemma UrbsTile(length: nat, i: nat)
    requires i < NumUrbs(length)
    ensures 0 <= UrbLength(length, i) <= MAX_BULK_BUFFER_LENGTH
    ensures UrbOffset(i) + UrbLength(length, i) == if i + 1 < NumUrbs(length) then UrbOffset(i + 1) else length
    ensures i + 1 < NumUrbs(length) ==> UrbLength(length, i) == MAX_BULK_BUFFER_LENGTH
    ensures length > 0 ==> UrbLength(length, i) > 0
    ensures length > 0 ==> (NumUrbs(length) - 1) * MAX_BULK_BUFFER_LENGTH < length
  {
  }

  // ---- the bookkeeping of one reaped URB ----

  datatype Control = Control(numUrbs: nat, numRetired: nat, action: ReapAction, reapStatus: TransferStatus,
                             transferred: nat)

  /** The label cancel_remaining. */
  function CancelRemaining(c: Control): (Control, bool) {
    var d := if c.action == Failing && c.reapStatus == Completed then c.(reapStatus := Error) else c;
    (d, d.numRetired == d.numUrbs)
  }

  /** handle_bulk_completion on the counters; true if the transfer is reported. */
  function Retire(c: Control, idx: nat, s: UrbStatus, actual: nat, length: int): (Control, bool) {
    var d := c.(numRetired := c.numRetired + 1, transferred := c.transferred + actual);
    if c.action != Normal then
      if d.numRetired == d.numUrbs then
        (if c.action != CompletedEarly && c.reapStatus == Completed then d.(reapStatus := Error) else d, true)
      else (d, false)
    else
      match s
      case Shutdown => CancelRemaining(d.(reapStatus := TransferStatus.NoDevice))
      case Pipe => CancelRemaining(if d.reapStatus == Completed then d.(reapStatus := Stall) else d)
      case Overflow => (if d.reapStatus == Completed then d.(reapStatus := TransferStatus.Overflow) else d, true)
      case Time | Proto | IlSeq | Other => CancelRemaining(d.(action := Failing))
      case Success | RemoteIo | NoEnt | ConnReset =>
        if idx == c.numUrbs - 1 then (d, true)
        else if actual < length then CancelRemaining(d.(action := CompletedEarly))
        else (d, false)
  }

  /** The transfer ends before its time with URBs still outstanding, which are then discarded: a fault, an error,
      or less data than asked for, and the mode was normal until now. */
  predicate CancelsRest(c: Control, idx: nat, s: UrbStatus, actual: nat, length: int) {
    && c.action == Normal && c.numRetired + 1 != c.numUrbs && !s.Overflow?
    && (s.Benign() ==> idx != c.numUrbs - 1 && actual < length)
  }

  ghost predicate Counted(c: Control, submitted: nat, reaped: nat) {
    && reaped < submitted <= c.numUrbs
    && c.numRetired == reaped + (c.numUrbs - submitted)
    && (c.action == Normal ==> submitted == c.numUrbs)
  }

  /** A transfer is reported with the reaping of its last outstanding URB, and not before. */
  lemma ReportedWithLastUrb(c: Control, submitted: nat, reaped: nat, s: UrbStatus, actual: nat, length: int)
    requires Counted(c, submitted, reaped)
    requires s.Overflow? ==> reaped == c.numUrbs - 1
    ensures var (d, done) := Retire(c, reaped, s, actual, length);
            && (done <==> d.numRetired == d.numUrbs) && (done <==> reaped + 1 == submitted)
            && (!done ==> Counted(d, submitted, reaped + 1))
  {
  }

  /** That overflow is confined to the last URB is needed: elsewhere it reports with URBs still outstanding. */
  lemma EarlyOverflowReportsTooSoon(c: Control, submitted: nat, reaped: nat, actual: nat, length: int)
    requires Counted(c, submitted, reaped) && c.action == Normal
    ensures var (d, done) := Retire(c, reaped, UrbStatus.Overflow, actual, length);
            done && (d.numRetired == d.numUrbs <==> reaped == c.numUrbs - 1)
  {
  }

  // ---- contiguity ----

  function Gathered(results: seq<UrbResult>): seq<Byte> {
    if results == [] then [] else Gathered(results[..|results| - 1]) + results[|results| - 1].data
  }

  /** The buffer after a reap: in an abnormal mode the data is moved down to close any gap. */
  ghost function Compacted(c: Control, idx: nat, r: UrbResult, buf: seq<Byte>): seq<Byte>
    requires c.transferred + |r.data| <= |buf|
  {
    if c.action == Normal then buf else Overwrite(buf, c.transferred, r.data)
  }

  /** The kernel's data in an URB that is not reaped yet is still where the kernel put it. */
  ghost predicate Intact(buf: seq<Byte>, i: nat, r: UrbResult) {
    UrbOffset(i) + |r.data| <= |buf| && buf[UrbOffset(i)..UrbOffset(i) + |r.data|] == r.data
  }

  /** In normal mode data is not moved; if it does not begin where the data so far ends, it is miscounted. */
  predicate LeavesGap(c: Control, idx: nat, r: UrbResult) {
    c.action == Normal && c.transferred < UrbOffset(idx) && r.data != []
  }

  /** The data of one URB continues the data so far, in the place where it is counted. */
  lemma DataContinues(c: Control, idx: nat, r: UrbResult, sofar: seq<Byte>, buf: seq<Byte>)
    requires |sofar| == c.transferred <= UrbOffset(idx) && Intact(buf, idx, r) && !LeavesGap(c, idx, r)
    ensures c.transferred + |r.data| <= |buf|
    ensures sofar <= buf ==> Compacted(c, idx, r, buf)[..c.transferred + |r.data|] == sofar + r.data
  {
    var t := c.transferred;
    if c.action == Normal {
      assert r.data == [] || buf[..t + |r.data|] == buf[..t] + buf[t..t + |r.data|];
    } else {
      assert Overwrite(buf, t, r.data)[..t + |r.data|] == buf[..t] + r.data;
    }
  }

  /** A buffer with the data so far, the data of URB idx in its place, and another byte in between. */
  ghost function Gapped(sofar: seq<Byte>, at: int, data: seq<Byte>, length: nat): (buf: seq<Byte>)
    requires |sofar| <= at && at + |data| <= length && data != []
    ensures |buf| == length
  {
    sofar + seq(at - |sofar|, _ => if data[0] == 0 then 1 else 0) + data + seq(length - at - |data|, _ => 0)
  }

  lemma GappedIsWrong(sofar: seq<Byte>, at: int, data: seq<Byte>, length: nat)
    requires |sofar| < at && at + |data| <= length && data != []
    ensures var buf := Gapped(sofar, at, data, length);
            && sofar <= buf && buf[at..at + |data|] == data
            && buf[|sofar|] != data[0] && buf[..|sofar| + |data|] != sofar + data
  {
    var buf := Gapped(sofar, at, data, length);
    assert buf[..|sofar| + |data|][|sofar|] == buf[|sofar|];
    assert (sofar + data)[|sofar|] == data[0];
  }

  /** Main result for one URB: whatever the buffer holds elsewhere, the data so far and the data of this URB end
      up one behind the other exactly if it leaves no gap in normal mode. */
  lemma ContiguousIff(c: Control, idx: nat, r: UrbResult, sofar: seq<Byte>, length: nat)
    requires |sofar| == c.transferred <= UrbOffset(idx) && UrbOffset(idx) + |r.data| <= length
    ensures (forall buf: seq<Byte> :: |buf| == length && sofar <= buf && Intact(buf, idx, r) ==>
               Compacted(c, idx, r, buf)[..c.transferred + |r.data|] == sofar + r.data)
            <==> !LeavesGap(c, idx, r)
  {
    if LeavesGap(c, idx, r) {
      var buf := Gapped(sofar, UrbOffset(idx), r.data, length);
      GappedIsWrong(sofar, UrbOffset(idx), r.data, length);
      assert |buf| == length && sofar <= buf && Intact(buf, idx, r);
    } else {
      forall buf: seq<Byte> | |buf| == length && sofar <= buf && Intact(buf, idx, r)
        ensures Compacted(c, idx, r, buf)[..c.transferred + |r.data|] == sofar + r.data
      {
        DataContinues(c, idx, r, sofar, buf);
      }
    }
  }

  /** How that comes about: a stall or a disconnect leaves the mode normal. If it cut its URB short, any data that
      still arrived in the next URB is miscounted. */
  lemma DataAfterShortFaultLeavesGap(length: nat, c: Control, idx: nat, s: UrbStatus, actual: nat, r: UrbResult)
    requires c.action == Normal && c.numUrbs == NumUrbs(length) && idx + 1 < c.numUrbs
    requires c.transferred <= UrbOffset(idx) && c.numRetired + 1 < c.numUrbs
    requires s.Fault() && actual < UrbLength(length, idx)
    ensures var (d, done) := Retire(c, idx, s, actual, UrbLength(length, idx));
            !done && d.action == Normal && (LeavesGap(d, idx + 1, r) <==> r.data != [])
  {
    UrbsTile(length, idx);
  }

  /** The first of two URBs stalls after five bytes, and the second one brings a byte: it is counted sixth, where
      the buffer has something else. */
  lemma StallAndByte(sofar: seq<Byte>, byte: Byte)
    requires |sofar| == 5
    ensures var (d, done) := Retire(Control(2, 0, Normal, Completed, 0), 0, Pipe, 5, UrbLength(32768, 0));
            var (r, buf) := (UrbResult(Success, [byte]), Gapped(sofar, UrbOffset(1), [byte], 32768));
            && !done && d.transferred == 5 && LeavesGap(d, 1, r)
            && sofar <= buf && Intact(buf, 1, r) && Compacted(d, 1, r, buf)[..6] != sofar + [byte]
  {
    GappedIsWrong(sofar, UrbOffset(1), [byte], 32768);
  }

  // ---- the invariant ----

  /** The kernel as the driver knows it: no URB is overfilled, and overflow ends the last URB. */
  ghost predicate KernelMayComplete(length: nat, results: seq<UrbResult>, r: UrbResult) {
    && |results| < NumUrbs(length) && |r.data| <= UrbLength(length, |results|)
    && (r.status.Overflow? ==> |results| == NumUrbs(length) - 1)
  }

  ghost predicate KernelOk(length: nat, results: seq<UrbResult>) {
    results == []
    || (KernelOk(length, results[..|results| - 1])
        && KernelMayComplete(length, results[..|results| - 1], results[|results| - 1]))
  }

  lemma {:induction false} KernelOkAt(length: nat, results: seq<UrbResult>, i: nat)
    requires KernelOk(length, results) && i < |results|
    ensures KernelMayComplete(length, results[..i], results[i])
  {
    if i < |results| - 1 {
      KernelOkAt(length, results[..|results| - 1], i);
      assert results[..|results| - 1][..i] == results[..i];
    }
  }

  /** One of these URBs was cut short by a stall or a disconnect. */
  predicate ShortFaulted(length: nat, results: seq<UrbResult>) {
    results != []
    && var m := |results| - 1;
       ShortFaulted(length, results[..m])
       || (results[m].status.Fault() && |results[m].data| < UrbLength(length, m))
  }

  ghost predicate AllIntact(buf: seq<Byte>, results: seq<UrbResult>, from: nat) {
    forall i :: from <= i < |results| ==> Intact(buf, i, results[i])
  }

  /** What holds of a live transfer: the driver's counters, the number of URBs submitted and reaped, what
      the kernel completed so far, whether a reap has left a gap, and the transfer buffer. */
  ghost predicate Inv(c: Control, submitted: nat, reaped: nat, results: seq<UrbResult>, whole: bool, buf: seq<Byte>) {
    && c.numUrbs == NumUrbs(|buf|) && Counted(c, submitted, reaped)
    && reaped <= |results| <= submitted && KernelOk(|buf|, results)
    && c.transferred <= UrbOffset(reaped) && c.transferred <= |buf|
    && |Gathered(results[..reaped])| == c.transferred
    && (whole ==> Gathered(results[..reaped]) <= buf)
    && (c.action == Normal ==> c.transferred == UrbOffset(reaped) || ShortFaulted(|buf|, results[..reaped]))
    && AllIntact(buf, results, reaped)
  }

  lemma StartInv(c: Control, submitted: nat, buf: seq<Byte>)
    requires c.numUrbs == NumUrbs(|buf|) && 0 < submitted <= c.numUrbs && c.numRetired == c.numUrbs - submitted
    requires c.transferred == 0 && (c.action == Normal ==> submitted == c.numUrbs)
    ensures Inv(c, submitted, 0, [], true, buf)
  {
  }

  /** An URB that ends before, or begins after, what is written stays intact. */
  lemma IntactElsewhere(buf: seq<Byte>, at: int, data: seq<Byte>, i: nat, r: UrbResult)
    requires 0 <= at && at + |data| <= |buf| && Intact(buf, i, r)
    requires UrbOffset(i) + |r.data| <= at || at + |data| <= UrbOffset(i)
    ensures Intact(Overwrite(buf, at, data), i, r)
  {
    OverwriteSlice(buf, at, data, UrbOffset(i), UrbOffset(i) + |r.data|);
    hide Overwrite;
  }

  lemma IntactWritten(buf: seq<Byte>, i: nat, r: UrbResult)
    requires UrbOffset(i) + |r.data| <= |buf|
    ensures Intact(Overwrite(buf, UrbOffset(i), r.data), i, r)
  {
    OverwriteSlice(buf, UrbOffset(i), r.data, UrbOffset(i), UrbOffset(i) + |r.data|);
    hide Overwrite;
  }

  /** Where the data of a completed URB ends. */
  lemma UrbEnds(length: nat, results: seq<UrbResult>, i: nat)
    requires KernelOk(length, results) && i < |results|
    ensures UrbOffset(i) + |results[i].data| <= length
    ensures forall j: nat :: i < j ==> UrbOffset(i) + |results[i].data| <= UrbOffset(j)
  {
    KernelOkAt(length, results, i);
    UrbsTile(length, i);
    hide NumUrbs;
  }

  /** Writing one URB's part of the buffer leaves the data so far and the other URBs alone. */
  lemma WriteKeepsOthers(reaped: nat, results: seq<UrbResult>, buf: seq<Byte>, r: UrbResult)
    requires KernelOk(|buf|, results) && KernelMayComplete(|buf|, results, r) && reaped <= |results|
    requires AllIntact(buf, results, reaped)
    ensures UrbOffset(|results|) + |r.data| <= |buf|
    ensures AllIntact(Overwrite(buf, UrbOffset(|results|), r.data), results + [r], reaped)
  {
    var all, n := results + [r], |results|;
    UrbsTile(|buf|, n);
    hide Overwrite, Intact, KernelOk, NumUrbs, UrbLength, UrbOffset;
    var buf' := Overwrite(buf, UrbOffset(n), r.data);
    forall i | reaped <= i < |all| ensures Intact(buf', i, all[i]) {
      if i < n {
        assert Intact(buf, i, results[i]);
        UrbEnds(|buf|, results, i);
        IntactElsewhere(buf, UrbOffset(n), r.data, i, results[i]);
      } else {
        IntactWritten(buf, n, r);
      }
    }
  }

  /** The kernel completes one more URB: it writes that URB's part of the buffer only. */
  lemma CompletionKeepsInv(c: Control, submitted: nat, reaped: nat, results: seq<UrbResult>, whole: bool,
                           buf: seq<Byte>, r: UrbResult)
    requires Inv(c, submitted, reaped, results, whole, buf) && |results| < submitted
    requires KernelMayComplete(|buf|, results, r)
    ensures UrbOffset(|results|) + |r.data| <= |buf|
    ensures Inv(c, submitted, reaped, results + [r], whole, Overwrite(buf, UrbOffset(|results|), r.data))
  {
    var all, n := results + [r], |results|;
    WriteKeepsOthers(reaped, results, buf, r);
    assert all[..n] == results && all[..reaped] == results[..reaped];
    OverwriteSlice(buf, UrbOffset(n), r.data, 0, c.transferred);
    hide AllIntact, Gathered, ShortFaulted, KernelMayComplete, Overwrite;
  }

  /** A reap moves data into the part of the buffer that has been reaped already, or not at all. */
  lemma CompactKeepsOthers(c: Control, reaped: nat, results: seq<UrbResult>, buf: seq<Byte>)
    requires KernelOk(|buf|, results) && reaped < |results| && c.transferred <= UrbOffset(reaped)
    requires AllIntact(buf, results, reaped)
    ensures Intact(buf, reaped, results[reaped]) && |results[reaped].data| <= UrbLength(|buf|, reaped)
    ensures c.transferred + |results[reaped].data| <= |buf|
    ensures AllIntact(Compacted(c, reaped, results[reaped], buf), results, reaped + 1)
  {
    var r := results[reaped];
    KernelOkAt(|buf|, results, reaped);
    UrbEnds(|buf|, results, reaped);
    assert Intact(buf, reaped, r);
    hide Overwrite, Intact, KernelOk, NumUrbs, UrbLength, UrbOffset;
    var buf' := Compacted(c, reaped, r, buf);
    forall i | reaped + 1 <= i < |results| ensures Intact(buf', i, results[i]) {
      assert Intact(buf, i, results[i]);
      if c.action != Normal {
        UrbsInOrder(reaped, i);
        IntactElsewhere(buf, c.transferred, r.data, i, results[i]);
      }
    }
  }

  lemma UrbStart(i: nat)
    ensures UrbOffset(i) >= 0
  {
  }

  lemma UrbsInOrder(i: nat, j: nat)
    requires i < j
    ensures UrbOffset(i) <= UrbOffset(j)
  {
  }

  lemma GatheredNext(results: seq<UrbResult>, i: nat)
    requires i < |results|
    ensures Gathered(results[..i + 1]) == Gathered(results[..i]) + results[i].data
    ensures forall length: nat :: ShortFaulted(length, results[..i + 1])
              <==> ShortFaulted(length, results[..i])
                   || (results[i].status.Fault() && |results[i].data| < UrbLength(length, i))
  {
    assert results[..i + 1][..i] == results[..i];
  }

  /** A gap is only ever left when data arrives behind an URB that a stall or disconnect has cut short. */
  lemma GapNeedsShortFault(c: Control, submitted: nat, reaped: nat, results: seq<UrbResult>, whole: bool,
                           buf: seq<Byte>)
    requires Inv(c, submitted, reaped, results, whole, buf) && reaped < |results|
    ensures LeavesGap(c, reaped, results[reaped]) ==> ShortFaulted(|buf|, results[..reaped])
  {
    hide AllIntact, Gathered, ShortFaulted;
  }

  /** The mode stays normal only behind a full URB, or one that a stall or disconnect has ended. */
  lemma RetireCounts(c: Control, idx: nat, s: UrbStatus, actual: nat, length: int)
    ensures var (d, done) := Retire(c, idx, s, actual, length);
            && d.transferred == c.transferred + actual && d.numUrbs == c.numUrbs
            && (!done && d.action == Normal && actual <= length ==>
                  c.action == Normal && (s.Fault() || actual == length))
  {
  }

  /** Main result: after every reap that leaves no gap the first `transferred` bytes are the data of the URBs
      reaped so far, in order; no URB still to be reaped is disturbed; and the transfer is reported exactly when
      its last outstanding URB is reaped. */
  lemma ReapKeepsInv(c: Control, submitted: nat, reaped: nat, results: seq<UrbResult>, whole: bool, buf: seq<Byte>)
    requires reaped < |results|
    ensures Inv(c, submitted, reaped, results, whole, buf) ==>
              var r := results[reaped];
              var (d, done) := Retire(c, reaped, r.status, |r.data|, UrbLength(|buf|, reaped));
              && c.transferred <= UrbOffset(reaped) && Intact(buf, reaped, r) && UrbOffset(reaped) + |r.data| <= |buf|
              && d.transferred == c.transferred + |r.data| == |Gathered(results[..reaped + 1])| <= |buf|
              && var buf' := Compacted(c, reaped, r, buf);
              && (whole && !LeavesGap(c, reaped, r) ==> Gathered(results[..reaped + 1]) <= buf')
              && (done <==> d.numRetired == d.numUrbs) && (done <==> reaped + 1 == submitted)
              && (!done ==> Inv(d, submitted, reaped + 1, results, whole && !LeavesGap(c, reaped, r), buf'))
  {
    if Inv(c, submitted, reaped, results, whole, buf) {
      var r := results[reaped];
      var length := UrbLength(|buf|, reaped);
      CompactKeepsOthers(c, reaped, results, buf);
      KernelOkAt(|buf|, results, reaped);
      UrbsTile(|buf|, reaped);
      ReportedWithLastUrb(c, submitted, reaped, r.status, |r.data|, length);
      RetireCounts(c, reaped, r.status, |r.data|, length);
      GatheredNext(results, reaped);
      if whole && !LeavesGap(c, reaped, r) {
        DataContinues(c, reaped, r, Gathered(results[..reaped]), buf);
      }
      hide AllIntact, Gathered, ShortFaulted, KernelOk, Overwrite, NumUrbs, UrbLength, Intact, Retire, Compacted,
           LeavesGap;
    }
  }

  // ---- what a transfer is reported as ----

  /** Reaping these URBs, from the first one on. */
  function ReapAll(c: Control, length: nat, results: seq<UrbResult>): Control {
    if results == [] then c
    else
      var m := |results| - 1;
      Retire(ReapAll(c, length, results[..m]), m, results[m].status, |results[m].data|, UrbLength(length, m)).0
  }

  /** An URB that ends normal reaping: it has a low-level error, or is short without being the last. */
  predicate Ends(length: nat, i: nat, r: UrbResult) {
    match r.status
    case Time | Proto | IlSeq | Other => true
    case Success | RemoteIo | NoEnt | ConnReset => i + 1 < NumUrbs(length) && |r.data| < UrbLength(length, i)
    case Shutdown | Pipe | Overflow => false
  }

  predicate NormalTo(length: nat, results: seq<UrbResult>) {
    results == []
    || (NormalTo(length, results[..|results| - 1]) && !Ends(length, |results| - 1, results[|results| - 1]))
  }

  /** One of these URBs, not behind one that ended normal reaping, has the status. */
  predicate Saw(length: nat, results: seq<UrbResult>, status: UrbStatus) {
    results != []
    && var m := |results| - 1;
       Saw(length, results[..m], status) || (NormalTo(length, results[..m]) && results[m].status == status)
  }

  /** A device that has gone prevails over a stall, a stall over an overflow, and all of them over an error. */
  function Verdict(length: nat, results: seq<UrbResult>): TransferStatus {
    if Saw(length, results, Shutdown) then TransferStatus.NoDevice
    else if Saw(length, results, Pipe) then Stall
    else if Saw(length, results, UrbStatus.Overflow) then TransferStatus.Overflow
    else if Saw(length, results, Time) || Saw(length, results, Proto) || Saw(length, results, IlSeq)
            || Saw(length, results, Other) then Error
    else Completed
  }

  lemma {:induction false} NoEarlyOverflow(length: nat, results: seq<UrbResult>)
    requires KernelOk(length, results) && |results| < NumUrbs(length)
    ensures !Saw(length, results, UrbStatus.Overflow)
  {
    if results != [] {
      NoEarlyOverflow(length, results[..|results| - 1]);
    }
  }

  /** An error that has been seen has ended normal reaping. */
  lemma {:induction false} ErrorEnds(length: nat, results: seq<UrbResult>, status: UrbStatus)
    requires status.Time? || status.Proto? || status.IlSeq? || status.Other?
    ensures Saw(length, results, status) ==> !NormalTo(length, results)
  {
    if results != [] {
      ErrorEnds(length, results[..|results| - 1], status);
    }
  }

  /** Main result: what a fully submitted transfer that nobody cancels is reported as, from what the kernel made of
      its URBs; and when normal reaping has ended. */
  lemma {:induction false} ReapedVerdict(length: nat, results: seq<UrbResult>)
    requires KernelOk(length, results)
    ensures var c := ReapAll(Control(NumUrbs(length), 0, Normal, Completed, 0), length, results);
            && c.numUrbs == NumUrbs(length) && c.numRetired == |results| <= c.numUrbs
            && c.reapStatus == Verdict(length, results)
            && (c.action == Normal <==> NormalTo(length, results))
            && (c.action == Normal || c.action == CompletedEarly || c.action == Failing)
            && (c.action == Failing ==> c.reapStatus != Completed)
  {
    if results != [] {
      var m := |results| - 1;
      ReapedVerdict(length, results[..m]);
      NoEarlyOverflow(length, results[..m]);
      ErrorEnds(length, results[..m], Time);
      ErrorEnds(length, results[..m], Proto);
      ErrorEnds(length, results[..m], IlSeq);
      ErrorEnds(length, results[..m], Other);
      hide NumUrbs, UrbLength;
    }
  }

  /** Nor does reaping get back to normal, so that a cancelled transfer is reported as that. A transfer of which
      an URB was refused is an error in the end, unless it was just that its data had ended early. */
  lemma {:induction false} AbnormalVerdict(c: Control, length: nat, results: seq<UrbResult>)
    requires c.action != Normal && c.numRetired + |results| <= c.numUrbs
    ensures var d := ReapAll(c, length, results);
            && d.action == c.action && d.numUrbs == c.numUrbs && d.numRetired == c.numRetired + |results|
            && (c.reapStatus == Completed && c.numRetired < c.numUrbs ==>
                  d.reapStatus == if d.numRetired == d.numUrbs && c.action != CompletedEarly then Error else Completed)
            && (c.reapStatus != Completed ==> d.reapStatus == c.reapStatus)
  {
    if results != [] {
      AbnormalVerdict(c, length, results[..|results| - 1]);
      hide NumUrbs, UrbLength;
    }
  }

  lemma AllSubmitted(c: Control, submitted: nat, reaped: nat, results: seq<UrbResult>, whole: bool, buf: seq<Byte>)
    ensures Inv(c, submitted, reaped, results, whole, buf) && c.action == Normal ==> submitted == c.numUrbs
    ensures Inv(c, submitted, reaped, results, whole, buf) ==> reaped < submitted
  {
  }

  lemma IsOverwrite(buf: seq<Byte>, at: int, data: seq<Byte>, after: seq<Byte>)
    requires 0 <= at && at + |data| <= |buf| == |after|
    requires forall k :: 0 <= k < |buf| ==> after[k] == if at <= k < at + |data| then data[k - at] else buf[k]
    ensures after == Overwrite(buf, at, data)
  {
  }

  lemma OverwriteSame(buf: seq<Byte>, at: int, data: seq<Byte>)
    requires 0 <= at && at + |data| <= |buf|
    ensures data == [] || buf[at..at + |data|] == data ==> Overwrite(buf, at, data) == buf
  {
  }

  // ---- the driver ----

  /** The URBs discarded at a reap: all later ones, last one first, but those the kernel cancels by itself. */
  function Discards(c: Control, idx: nat, s: UrbStatus, actual: nat, length: int, continuation: bool): seq<int> {
    if CancelsRest(c, idx, s, actual, length) && !continuation then Downward(c.numUrbs - 1, idx + 1) else []
  }

  /** What is discarded at a reap: if the transfer leaves its normal mode, or the device has gone or stalls, and it is
      not over with that, all later URBs, last one first, unless the kernel cancels them by itself. */
  lemma DiscardsAre(c: Control, idx: nat, s: UrbStatus, actual: nat, length: int, continuation: bool, k: nat)
    requires idx < c.numUrbs
    ensures var r := Discards(c, idx, s, actual, length, continuation);
            var (d, done) := Retire(c, idx, s, actual, length);
            && |r| == (if c.action == Normal && !done && !continuation
                          && (d.action != Normal || s == Shutdown || s == Pipe)
                       then c.numUrbs - 1 - idx else 0)
            && (k < |r| ==> r[k] == c.numUrbs - 1 - k)
  {
    DownwardAt(c.numUrbs - 1, idx + 1, k);
  }

  /** What a SUBMITURB call answers: accepted, or one of the errors ENODEV, EREMOTEIO and any other. */
  datatype SubmitResult = Accepted | NoDevice | EarlyCompletion | Refused

  /** How many URBs are submitted before the first refusal. */
  function FirstRefusal(answers: seq<SubmitResult>): (n: nat)
    ensures n <= |answers|
    ensures forall k :: 0 <= k < n ==> answers[k] == Accepted
    ensures n < |answers| ==> answers[n] != Accepted
  {
    if answers == [] || answers[0] != Accepted then 0 else 1 + FirstRefusal(answers[1..])
  }

  function ActionAfter(answers: seq<SubmitResult>): ReapAction {
    var n := FirstRefusal(answers);
    if n == |answers| then Normal else if answers[n] == EarlyCompletion then CompletedEarly else SubmitFailed
  }

  lemma SubmittedCounts(answers: seq<SubmitResult>)
    ensures ActionAfter(answers) == Normal ==> FirstRefusal(answers) == |answers|
  {
  }

  /** What a refusal that is no early completion has discarded: all URBs before it, last one first. */
  function RefusalDiscards(answers: seq<SubmitResult>): seq<int> {
    if ActionAfter(answers) == SubmitFailed then Downward(FirstRefusal(answers) - 1, 0) else []
  }

  /** The first n URBs of a transfer. */
  function CutUrbs(length: nat, n: nat, shortNotOk: bool, continuation: bool): (urbs: seq<Urb>)
    ensures |urbs| == n
  {
    if n == 0 then []
    else CutUrbs(length, n - 1, shortNotOk, continuation)
         + [Urb(UrbOffset(n - 1), UrbLength(length, n - 1), shortNotOk, n - 1 > 0 && continuation)]
  }

  lemma {:induction false} CutUrbsAt(length: nat, n: nat, shortNotOk: bool, continuation: bool, i: nat)
    requires i < n
    ensures CutUrbs(length, n, shortNotOk, continuation)[i]
         == Urb(UrbOffset(i), UrbLength(length, i), shortNotOk, i > 0 && continuation)
  {
    if i < n - 1 {
      CutUrbsAt(length, n - 1, shortNotOk, continuation, i);
    }
  }

  /** URB i begins where the one before it ends, the first one at the start of the buffer; it takes at most 16 KB,
      and all of that if another one follows; and it has the continuation flag if it is not the first and the
      kernel supports that. */
  predicate UrbFits(urbs: seq<Urb>, i: nat, length: nat, isOut: bool, bulkContinuation: bool)
    requires i < |urbs|
  {
    && urbs[i].offset == (if i == 0 then 0 else urbs[i - 1].offset + urbs[i - 1].length)
    && 0 <= urbs[i].length <= 16384 && urbs[i].offset + urbs[i].length <= length
    && (i + 1 < |urbs| ==> urbs[i].length == 16384)
    && (urbs[i].shortNotOk <==> bulkContinuation && !isOut)
    && (urbs[i].continuation <==> bulkContinuation && i != 0)
  }

  ghost predicate Tiles(urbs: seq<Urb>, length: nat, isOut: bool, bulkContinuation: bool) {
    forall i :: 0 <= i < |urbs| ==> UrbFits(urbs, i, length, isOut, bulkContinuation)
  }

  /** The URBs given to the kernel cover the buffer, all of it if none is refused. */
  lemma CutUrbsTile(length: nat, n: nat, isOut: bool, bulkContinuation: bool)
    requires 0 < n <= NumUrbs(length)
    ensures var urbs := CutUrbs(length, n, bulkContinuation && !isOut, bulkContinuation);
            && Tiles(urbs, length, isOut, bulkContinuation)
            && (n == NumUrbs(length) ==> urbs[n - 1].offset + urbs[n - 1].length == length)
  {
    var urbs := CutUrbs(length, n, bulkContinuation && !isOut, bulkContinuation);
    CutUrbsAt(length, n, bulkContinuation && !isOut, bulkContinuation, n - 1);
    UrbsTile(length, n - 1);
    forall i | 0 <= i < |urbs| ensures UrbFits(urbs, i, length, isOut, bulkContinuation) {
      CutUrbsAt(length, n, bulkContinuation && !isOut, bulkContinuation, i);
      UrbsTile(length, i);
      UrbEndsInside(length, i);
      if i > 0 {
        CutUrbsAt(length, n, bulkContinuation && !isOut, bulkContinuation, i - 1);
        UrbsTile(length, i - 1);
      }
    }
  }

  lemma UrbEndsInside(length: nat, i: nat)
    requires i < NumUrbs(length)
    ensures UrbOffset(i) + UrbLength(length, i) <= length
  {
  }

  /** A bulk or interrupt transfer with its usbfs private part. The ghost fields say what the kernel holds. */
  class BulkTransfer {
    const buffer: array<Byte>
    const isOut: bool
    const bulkContinuation: bool
    var live: bool  // the urbs pointer is not NULL
    var urbs: seq<Urb>
    var numUrbs: nat
    var numRetired: nat
    var action: ReapAction
    var reapStatus: TransferStatus
    var transferred: nat
    ghost var submitted: nat
    ghost var reaped: nat
    ghost var results: seq<UrbResult>  // completed by the kernel; the first `reaped` of them are reaped
    ghost var whole: bool  // no reap has left a gap

    ghost function View(): Control
      reads this
    {
      Control(numUrbs, numRetired, action, reapStatus, transferred)
    }

    ghost predicate Valid()
      reads this, buffer
    {
      live ==>
        && Inv(View(), submitted, reaped, results, whole, buffer[..])
        && urbs == CutUrbs(buffer.Length, submitted, bulkContinuation && !isOut, bulkContinuation)
    }

    constructor (buffer: array<Byte>, isOut: bool, bulkContinuation: bool)
      ensures Valid() && !live && this.buffer == buffer
    {
      this.buffer, this.isOut, this.bulkContinuation := buffer, isOut, bulkContinuation;
      live, urbs, numUrbs, numRetired, action, reapStatus, transferred := false, [], 0, 0, Normal, Completed, 0;
      submitted, reaped, results, whole := 0, 0, [], true;
    }

    /** submit_bulk_transfer, after libusb_submit_transfer has reset the byte count. The argument is what
        the successive SUBMITURB calls answer; the second result is the DISCARDURB calls made. */
    method Submit(answers: seq<SubmitResult>) returns (r: int, discarded: seq<int>)
      requires Valid() && |answers| == NumUrbs(buffer.Length)
      modifies this
      ensures Valid()
      ensures old(live) ==> r == LIBUSB_ERROR_BUSY && live && View() == old(View()) && discarded == []
      ensures !old(live) && FirstRefusal(answers) == 0 ==>
                !live && r == (if answers[0].NoDevice? then LIBUSB_ERROR_NO_DEVICE else LIBUSB_ERROR_IO)
                && discarded == []
      ensures !old(live) && FirstRefusal(answers) > 0 ==>
                && r == 0 && live && submitted == FirstRefusal(answers) <= |answers|
                && reaped == 0 && results == [] && whole
                && numUrbs == |answers| && numRetired == |answers| - submitted && transferred == 0
                && reapStatus == Completed
                && action == (if submitted == |answers| then Normal
                              else if answers[submitted].EarlyCompletion? then CompletedEarly
                              else SubmitFailed)
                && Tiles(urbs, buffer.Length, isOut, bulkContinuation) && |urbs| == submitted
                && (submitted == |answers| ==> urbs[submitted - 1].offset + urbs[submitted - 1].length == buffer.Length)
                && |discarded| == (if action == SubmitFailed then submitted else 0)
                && forall k :: 0 <= k < |discarded| ==> discarded[k] == submitted - 1 - k
    {
      hide Inv, CutUrbs, NumUrbs, Tiles;
      if live {
        return LIBUSB_ERROR_BUSY, [];
      }
      transferred := 0;
      r, discarded := SubmitIdle(answers);
      if r == 0 {
        SubmittedCounts(answers);
        StartInv(View(), submitted, buffer[..]);
        CutUrbsTile(buffer.Length, submitted, isOut, bulkContinuation);
        forall k: nat ensures k < |discarded| ==> discarded[k] == submitted - 1 - k {
          DownwardAt(submitted - 1, 0, k);
        }
        DownwardAt(submitted - 1, 0, 0);
      }
    }

    /** The same for a transfer that is not live. */
    method SubmitIdle(answers: seq<SubmitResult>) returns (r: int, discarded: seq<int>)
      requires !live && |answers| == NumUrbs(buffer.Length) && transferred == 0
      modifies this
      ensures FirstRefusal(answers) == 0 ==>
                !live && r == (if answers[0].NoDevice? then LIBUSB_ERROR_NO_DEVICE else LIBUSB_ERROR_IO)
                && discarded == []
      ensures FirstRefusal(answers) > 0 ==>
                && r == 0 && live && submitted == FirstRefusal(answers) <= |answers|
                && reaped == 0 && results == [] && whole
                && View() == Control(|answers|, |answers| - submitted, ActionAfter(answers), Completed, 0)
                && urbs == CutUrbs(buffer.Length, submitted, bulkContinuation && !isOut, bulkContinuation)
                && discarded == RefusalDiscards(answers)
    {
      hide Inv, UrbOffset, UrbLength, CutUrbs, Downward, NumUrbs;
      var lastUrbPartial;
      numUrbs, lastUrbPartial := CountUrbs(buffer.Length);
      numRetired, action, reapStatus := 0, Normal, Completed;
      results, reaped, whole := [], 0, true;
      var i := SubmitUrbs(answers, lastUrbPartial);
      submitted := i;
      discarded, r := [], 0;
      if i < numUrbs {
        if i == 0 {
          return if answers[i].NoDevice? then LIBUSB_ERROR_NO_DEVICE else LIBUSB_ERROR_IO, [];
        }
        discarded := Refused(i, answers[i]);
      }
      live := true;
    }

    /** URB i, not the first one, was refused: it and the rest count as retired. */
    method Refused(i: nat, answer: SubmitResult) returns (discarded: seq<int>)
      requires i <= numUrbs
      modifies this`action, this`numRetired
      ensures action == if answer == EarlyCompletion then CompletedEarly else SubmitFailed
      ensures numRetired == old(numRetired) + (numUrbs - i)
      ensures discarded == if action == SubmitFailed then Downward(i - 1, 0) else []
    {
      action := if answer == EarlyCompletion then CompletedEarly else SubmitFailed;
      numRetired := numRetired + (numUrbs - i);
      discarded := [];
      if action == SubmitFailed {
        discarded := DiscardDown(i - 1, 0);
      }
    }

    /** How many URBs are needed, and whether the last one is not full. */
    static method CountUrbs(length: nat) returns (n: nat, lastUrbPartial: bool)
      ensures n == NumUrbs(length) && (lastUrbPartial <==> length % MAX_BULK_BUFFER_LENGTH > 0)
    {
      n := length / MAX_BULK_BUFFER_LENGTH;
      lastUrbPartial := false;
      if length == 0 {
        n := 1;
      } else if length % MAX_BULK_BUFFER_LENGTH > 0 {
        lastUrbPartial := true;
        n := n + 1;
      }
    }

    /** The loop that fills in and submits the URBs, up to the first refusal. */
    method SubmitUrbs(answers: seq<SubmitResult>, lastUrbPartial: bool) returns (i: nat)
      requires numUrbs == NumUrbs(buffer.Length) == |answers|
      requires lastUrbPartial <==> buffer.Length % MAX_BULK_BUFFER_LENGTH > 0
      modifies this`urbs
      ensures i == FirstRefusal(answers)
      ensures urbs == CutUrbs(buffer.Length, i, bulkContinuation && !isOut, bulkContinuation)
    {
      var length := buffer.Length;
      urbs := [];
      i := 0;
      while i < numUrbs
        invariant 0 <= i <= FirstRefusal(answers) && numUrbs == |answers|
        invariant urbs == CutUrbs(length, i, bulkContinuation && !isOut, bulkContinuation)
      {
        var urbLength := if i == numUrbs - 1 && lastUrbPartial then length % MAX_BULK_BUFFER_LENGTH
                         else if length == 0 then 0
                         else MAX_BULK_BUFFER_LENGTH;
        if answers[i] != Accepted {
          break;
        }
        urbs := urbs + [Urb(i * MAX_BULK_BUFFER_LENGTH, urbLength, bulkContinuation && !isOut,
                            i > 0 && bulkContinuation)];
        i := i + 1;
      }
    }

    /** The kernel completes the next URB in submission order and writes its data where the URB points. */
    method KernelComplete(idx: nat, status: UrbStatus, data: seq<Byte>)
      requires Valid() && live && idx == |results| < submitted
      requires KernelMayComplete(buffer.Length, results, UrbResult(status, data))
      modifies this`results, buffer
      ensures Valid() && results == old(results) + [UrbResult(status, data)]
      ensures |urbs| == submitted && 0 <= urbs[idx].offset && urbs[idx].offset + |data| <= buffer.Length
      ensures buffer[..] == Overwrite(old(buffer[..]), urbs[idx].offset, data)
    {
      hide Inv, KernelMayComplete, Overwrite, UrbOffset, UrbLength, CutUrbs;
      CompletionKeepsInv(View(), submitted, reaped, results, whole, buffer[..], UrbResult(status, data));
      CutUrbsAt(buffer.Length, submitted, bulkContinuation && !isOut, bulkContinuation, idx);
      UrbStart(idx);
      WriteAt(urbs[idx].offset, data);
      results := results + [UrbResult(status, data)];
    }

    method WriteAt(at: int, data: seq<Byte>)
      requires 0 <= at && at + |data| <= buffer.Length
      modifies buffer
      ensures buffer[..] == Overwrite(old(buffer[..]), at, data)
    {
      hide Overwrite;
      forall k | 0 <= k < |data| {
        buffer[at + k] := data[k];
      }
      IsOverwrite(old(buffer[..]), at, data, buffer[..]);
    }

    /** cancel_bulk_transfer. */
    method Cancel() returns (r: int, discarded: seq<int>)
      requires Valid()
      modifies this`action
      ensures Valid()
      ensures !live ==> r == LIBUSB_ERROR_NOT_FOUND && action == old(action) && discarded == []
      ensures live ==> r == 0 && discarded == Downward(numUrbs - 1, 0)
                       && action == if old(action) == Failing then Failing else ReapAction.Cancelled
    {
      if !live {
        return LIBUSB_ERROR_NOT_FOUND, [];
      }
      if action != Failing {
        action := ReapAction.Cancelled;
      }
      discarded := DiscardDown(numUrbs - 1, 0);
      r := 0;
    }

    /** handle_bulk_completion for the next URB to be reaped. The first result is the status reported to
        the user, if the transfer ends here; the second is the DISCARDURB calls made. */
    method Reap(urbIdx: nat, status: UrbStatus, actual: nat)
      returns (report: Option<TransferStatus>, discarded: seq<int>)
      requires Valid() && live && urbIdx == reaped < |results|
      requires status == results[reaped].status && actual == |results[reaped].data|
      modifies `live, `numRetired, `action, `reapStatus, `transferred, `reaped, `whole, buffer
      ensures Valid() && reaped == old(reaped) + 1
      ensures whole == (old(whole) && !LeavesGap(old(View()), urbIdx, results[urbIdx]))
      ensures transferred == |Gathered(results[..reaped])| <= buffer.Length
      ensures whole ==> Gathered(results[..reaped]) <= buffer[..]
      ensures (View(), report.Some?) == Retire(old(View()), urbIdx, status, actual, UrbLength(buffer.Length, urbIdx))
      ensures report.Some? <==> reaped == submitted
      ensures live <==> report.None?
      ensures report.Some? ==>
                report.value == if action == ReapAction.Cancelled then TransferStatus.Cancelled else reapStatus
      ensures discarded
           == Discards(old(View()), urbIdx, status, actual, UrbLength(buffer.Length, urbIdx), bulkContinuation)
    {
      hide Inv, Retire, Gathered, UrbLength, NumUrbs, UrbOffset, Compacted, Discards, Intact, LeavesGap, CutUrbs;
      ghost var r, w := results[urbIdx], whole && !LeavesGap(View(), urbIdx, results[urbIdx]);
      ReapKeepsInv(View(), submitted, reaped, results, whole, buffer[..]);
      AllSubmitted(View(), submitted, reaped, results, whole, buffer[..]);
      forall i: nat | i < submitted
        ensures urbs[i] == Urb(UrbOffset(i), UrbLength(buffer.Length, i), bulkContinuation && !isOut,
                               i > 0 && bulkContinuation)
      {
        CutUrbsAt(buffer.Length, submitted, bulkContinuation && !isOut, bulkContinuation, i);
      }
      var done;
      done, discarded := RetireUrb(urbIdx, status, actual, r);
      reaped, whole := reaped + 1, w;
      report := None;
      if done {
        live := false;
        report := Some(if action == ReapAction.Cancelled then TransferStatus.Cancelled else reapStatus);
      }
    }

    method RetireUrb(urbIdx: nat, status: UrbStatus, actual: nat, ghost r: UrbResult)
      returns (done: bool, discarded: seq<int>)
      requires actual == |r.data| && transferred <= UrbOffset(urbIdx) && UrbOffset(urbIdx) + actual <= buffer.Length
      requires urbIdx < |urbs| && urbs[urbIdx].offset == UrbOffset(urbIdx)
      requires urbs[urbIdx].length == UrbLength(buffer.Length, urbIdx)
      requires action == Normal ==> Continued()
      modifies `numRetired, `transferred, `action, `reapStatus, buffer
      ensures (View(), done) == Retire(old(View()), urbIdx, status, actual, UrbLength(buffer.Length, urbIdx))
      ensures discarded
           == Discards(old(View()), urbIdx, status, actual, UrbLength(buffer.Length, urbIdx), bulkContinuation)
      ensures old(Intact(buffer[..], urbIdx, r)) ==> buffer[..] == Compacted(old(View()), urbIdx, r, old(buffer[..]))
    {
      hide Retire, UrbLength, Compacted, Discards, Intact;
      Compact(urbIdx, actual, r);
      done, discarded := CountReaped(urbIdx, status, actual);
    }

    /** The counters and modes of handle_bulk_completion. */
    method CountReaped(urbIdx: nat, status: UrbStatus, actual: nat) returns (done: bool, discarded: seq<int>)
      requires urbIdx < |urbs| && (action == Normal ==> Continued())
      modifies this`numRetired, this`transferred, this`action, this`reapStatus
      ensures (View(), done) == Retire(old(View()), urbIdx, status, actual, urbs[urbIdx].length)
      ensures discarded == Discards(old(View()), urbIdx, status, actual, urbs[urbIdx].length, bulkContinuation)
    {
      hide Downward, CancelRemaining, Continued;
      var cancelRemaining := false;
      done, discarded := false, [];
      numRetired := numRetired + 1;
      transferred := transferred + actual;
      if action != Normal {
        if numRetired == numUrbs {
          if action != CompletedEarly && reapStatus == Completed {
            reapStatus := Error;
          }
          done := true;
        }
        return;
      }
      match status {
        case Success | RemoteIo | NoEnt | ConnReset =>
          if urbIdx == numUrbs - 1 {
            done := true;
          } else if actual < urbs[urbIdx].length {
            action := CompletedEarly;
            cancelRemaining := true;
          }
        case Shutdown =>
          reapStatus := TransferStatus.NoDevice;
          cancelRemaining := true;
        case Pipe =>
          if reapStatus == Completed {
            reapStatus := Stall;
          }
          cancelRemaining := true;
        case Overflow =>
          if reapStatus == Completed {
            reapStatus := TransferStatus.Overflow;
          }
          done := true;
        case Time | Proto | IlSeq | Other =>
          action := Failing;
          cancelRemaining := true;
      }
      if cancelRemaining {
        done, discarded := CancelOutstanding(urbIdx);
      }
    }

    /** The label cancel_remaining. */
    method CancelOutstanding(urbIdx: nat) returns (done: bool, discarded: seq<int>)
      requires Continued()
      modifies this`reapStatus
      ensures (View(), done) == CancelRemaining(old(View()))
      ensures discarded == if numRetired == numUrbs || bulkContinuation then [] else Downward(numUrbs - 1, urbIdx + 1)
    {
      done, discarded := false, [];
      if action == Failing && reapStatus == Completed {
        reapStatus := Error;
      }
      if numRetired == numUrbs {
        done := true;
      } else {
        discarded := DiscardRest(urbIdx);
      }
    }

    /** In an abnormal mode, the memmove of surplus data to the end of the data received so far. */
    method Compact(urbIdx: nat, actual: nat, ghost r: UrbResult)
      requires actual == |r.data| && transferred <= UrbOffset(urbIdx) && UrbOffset(urbIdx) + actual <= buffer.Length
      requires urbIdx < |urbs| && urbs[urbIdx].offset == UrbOffset(urbIdx)
      modifies buffer
      ensures old(Intact(buffer[..], urbIdx, r)) ==> buffer[..] == Compacted(View(), urbIdx, r, old(buffer[..]))
    {
      hide Overwrite;
      if action != Normal {
        ghost var part := buffer[..][UrbOffset(urbIdx)..UrbOffset(urbIdx) + actual];
        if actual == 0 || UrbOffset(urbIdx) == transferred {
          OverwriteSame(buffer[..], transferred, part);
        }
        if actual > 0 && urbs[urbIdx].offset != transferred {
          MoveDown(urbs[urbIdx].offset, transferred, actual);
        }
      }
    }

    /** memmove to a lower offset. */
    method MoveDown(source: int, target: int, n: nat)
      requires 0 <= target <= source && source + n <= buffer.Length
      modifies buffer
      ensures buffer[..] == Overwrite(old(buffer[..]), target, old(buffer[source..source + n]))
    {
      hide Overwrite;
      forall k | 0 <= k < n {
        buffer[target + k] := buffer[source + k];
      }
      IsOverwrite(old(buffer[..]), target, old(buffer[source..source + n]), buffer[..]);
    }

    /** All URBs have been submitted, and all but the first have the continuation flag, if any has. */
    ghost predicate Continued()
      reads `urbs, `numUrbs
    {
      |urbs| == numUrbs && forall i :: 0 < i < |urbs| ==> (urbs[i].continuation <==> bulkContinuation)
    }

    /** Discard the URBs after urbIdx, last one first; those with the continuation flag are left to the kernel. */
    method DiscardRest(urbIdx: nat) returns (discarded: seq<int>)
      requires Continued()
      ensures discarded == if bulkContinuation then [] else Downward(numUrbs - 1, urbIdx + 1)
    {
      discarded := [];
      var i := numUrbs - 1;
      while i > urbIdx
        invariant bulkContinuation ==> discarded == []
        invariant !bulkContinuation ==> discarded + Downward(i, urbIdx + 1) == Downward(numUrbs - 1, urbIdx + 1)
      {
        if !urbs[i].continuation {
          assert discarded + Downward(i, urbIdx + 1) == discarded + [i] + Downward(i - 1, urbIdx + 1);
          discarded := discarded + [i];
        }
        i := i - 1;
      }
      assert discarded + [] == discarded;
    }
  }
}
