/** Isochronous transfers over usbfs: the packets of a transfer are packed, in order, into URBs of at
    most 32 KB. One pass counts the URBs, a second one fills them. */
module IsoUrbs {
  import opened Bytes
  import opened Usbfs
  import opened Wrappers

  const MAX_ISO_BUFFER_LENGTH := 32768

  type Lengths = seq<UInt32>

  function Sum(lens: Lengths): nat {
    if lens == [] then 0 else lens[0] + Sum(lens[1..])
  }

  /** How many leading packets fit into the space. */
  function Fit(lens: Lengths, space: int): (n: nat)
    ensures n <= |lens|
  {
    if lens == [] || lens[0] > space then 0 else 1 + Fit(lens[1..], space - lens[0])
  }

  lemma {:induction false} FitFits(lens: Lengths, space: nat)
    ensures Sum(lens[..Fit(lens, space)]) <= space
    ensures Fit(lens, space) < |lens| ==> Sum(lens[..Fit(lens, space)]) + lens[Fit(lens, space)] > space
  {
    if lens != [] && lens[0] <= space {
      FitFits(lens[1..], space - lens[0]);
      var n := Fit(lens, space);
      assert lens[..n][0] == lens[0] && lens[..n][1..] == lens[1..][..n - 1];
    }
  }

  /** No segment that fits is longer than the greedy one. */
  lemma {:induction false} FitIsLongest(lens: Lengths, space: nat, k: nat)
    requires k <= |lens| && Sum(lens[..k]) <= space
    ensures k <= Fit(lens, space)
  {
    if k > 0 {
      assert lens[..k][0] == lens[0] && lens[..k][1..] == lens[1..][..k - 1];
      FitIsLongest(lens[1..], space - lens[0], k - 1);
    }
  }

  /** The counting pass, with `used` bytes in the current URB: how many URBs from the current one on.
      The space left is compared as an unsigned number. */
  function Count(lens: Lengths, used: int): (n: nat)
    ensures n >= 1
  {
    if lens == [] then 1
    else if lens[0] > (MAX_ISO_BUFFER_LENGTH - used) % TWO_32 then 1 + Count(lens[1..], lens[0])
    else Count(lens[1..], used + lens[0])
  }

  datatype IsoUrb = IsoUrb(offset: int, lengths: Lengths)

  /** The filling pass: n URBs, the first one at the given offset. */
  function Fill(lens: Lengths, n: nat, offset: int): (urbs: seq<IsoUrb>)
    ensures |urbs| == n
    decreases n
  {
    if n == 0 then []
    else
      var f := Fit(lens, MAX_ISO_BUFFER_LENGTH);
      [IsoUrb(offset, lens[..f])] + Fill(lens[f..], n - 1, offset + Sum(lens[..f]))
  }

  ghost predicate Small(lens: Lengths) {
    forall i :: 0 <= i < |lens| ==> lens[i] <= MAX_ISO_BUFFER_LENGTH
  }

  /** The counting pass counts greedy segments. */
  lemma {:induction false} CountIsGreedy(lens: Lengths, used: nat)
    requires Small(lens) && used <= MAX_ISO_BUFFER_LENGTH
    ensures var f := Fit(lens, MAX_ISO_BUFFER_LENGTH - used);
            Count(lens, used) == if f == |lens| then 1 else 1 + Count(lens[f..], 0)
  {
    if lens != [] {
      if lens[0] <= MAX_ISO_BUFFER_LENGTH - used {
        CountIsGreedy(lens[1..], used + lens[0]);
        var f := Fit(lens, MAX_ISO_BUFFER_LENGTH - used);
        assert lens[f..] == lens[1..][f - 1..];
      } else {
        assert lens[0..] == lens;
      }
    }
  }

  function AllLengths(urbs: seq<IsoUrb>): Lengths {
    if urbs == [] then [] else urbs[0].lengths + AllLengths(urbs[1..])
  }

  lemma {:induction false} SumConcat(a: Lengths, b: Lengths)
    ensures Sum(a + b) == Sum(a) + Sum(b)
  {
    if a == [] {
      assert a + b == b;
    } else {
      assert (a + b)[0] == a[0] && (a + b)[1..] == a[1..] + b;
      SumConcat(a[1..], b);
    }
  }

  /** Each URB starts where the previous one ended, and none is over the limit. */
  ghost predicate LaidOut(urbs: seq<IsoUrb>, offset: int) {
    urbs == []
    || (&& urbs[0].offset == offset && Sum(urbs[0].lengths) <= 32768
        && LaidOut(urbs[1..], offset + Sum(urbs[0].lengths)))
  }

  lemma LaidOutCons(urb: IsoUrb, rest: seq<IsoUrb>)
    requires Sum(urb.lengths) <= MAX_ISO_BUFFER_LENGTH && LaidOut(rest, urb.offset + Sum(urb.lengths))
    ensures LaidOut([urb] + rest, urb.offset) && AllLengths([urb] + rest) == urb.lengths + AllLengths(rest)
  {
    assert ([urb] + rest)[1..] == rest;
  }

  lemma FillUnfold(lens: Lengths, n: nat, offset: int)
    ensures n == 0 ==> Fill(lens, n, offset) == [] && LaidOut([], offset) && AllLengths([]) == []
    ensures n > 0 ==>
              var f := Fit(lens, MAX_ISO_BUFFER_LENGTH);
              Fill(lens, n, offset)
              == [IsoUrb(offset, lens[..f])] + Fill(lens[f..], n - 1, offset + Sum(lens[..f]))
  {
  }

  lemma {:induction false} FillRespectsLimit(lens: Lengths, n: nat, offset: int)
    ensures LaidOut(Fill(lens, n, offset), offset)
    ensures AllLengths(Fill(lens, n, offset)) <= lens
    decreases n
  {
    hide Fill, Fit, Sum, LaidOut, AllLengths;
    FillUnfold(lens, n, offset);
    if n > 0 {
      var f := Fit(lens, MAX_ISO_BUFFER_LENGTH);
      var rest := Fill(lens[f..], n - 1, offset + Sum(lens[..f]));
      FitFits(lens, MAX_ISO_BUFFER_LENGTH);
      FillRespectsLimit(lens[f..], n - 1, offset + Sum(lens[..f]));
      LaidOutCons(IsoUrb(offset, lens[..f]), rest);
      PrefixJoin(lens, f, AllLengths(rest));
    }
  }

  lemma PrefixJoin(lens: Lengths, f: nat, more: Lengths)
    requires f <= |lens| && more <= lens[f..]
    ensures lens[..f] + more <= lens
  {
    assert lens == lens[..f] + lens[f..];
  }

  lemma FillOnce(lens: Lengths, n: nat, offset: int)
    requires n > 0
    ensures var f := Fit(lens, MAX_ISO_BUFFER_LENGTH);
            AllLengths(Fill(lens, n, offset)) == lens[..f] + AllLengths(Fill(lens[f..], n - 1, offset + Sum(lens[..f])))
  {
  }

  lemma FitTakesOne(lens: Lengths)
    requires Small(lens) && lens != []
    ensures Fit(lens, MAX_ISO_BUFFER_LENGTH) > 0
  {
  }

  /** The two passes agree: as many URBs as were counted hold every packet, and no packet is left out. */
  lemma {:induction false} FillPlacesAll(lens: Lengths, offset: int)
    requires Small(lens)
    ensures AllLengths(Fill(lens, Count(lens, 0), offset)) == lens
    decreases |lens|
  {
    hide Fill, Count, AllLengths, Fit, Sum;
    var f := Fit(lens, MAX_ISO_BUFFER_LENGTH);
    CountIsGreedy(lens, 0);
    FillOnce(lens, Count(lens, 0), offset);
    if f < |lens| {
      FitTakesOne(lens);
      FillPlacesAll(lens[f..], offset + Sum(lens[..f]));
      assert lens == lens[..f] + lens[f..];
    } else {
      FillUnfold(lens[f..], 0, offset + Sum(lens[..f]));
      assert lens[..f] + [] == lens;
    }
  }

  /** The filling pass, given as many URBs as the counting pass found, places every packet exactly if no
      packet is longer than an URB may be. */
  lemma AllPlacedIffSmall(lens: Lengths)
    ensures AllLengths(Fill(lens, Count(lens, 0), 0)) == lens
       <==> forall i :: 0 <= i < |lens| ==> lens[i] <= 32768
  {
    var urbs := Fill(lens, Count(lens, 0), 0);
    if Small(lens) {
      FillPlacesAll(lens, 0);
    } else if AllLengths(urbs) == lens {
      FillRespectsLimit(lens, Count(lens, 0), 0);
      PlacedIsSmall(urbs, 0);
    }
  }

  /** One byte too many: a packet of 32769 bytes is not placed. */
  lemma OversizedPacketIsNotPlaced(lens: Lengths)
    requires lens == [32769]
    ensures AllLengths(Fill(lens, Count(lens, 0), 0)) != lens
  {
    AllPlacedIffSmall(lens);
    assert lens[0] > MAX_ISO_BUFFER_LENGTH;
  }

  lemma {:induction false} MemberAtMostSum(lens: Lengths, i: nat)
    requires i < |lens|
    ensures lens[i] <= Sum(lens)
  {
    if i > 0 {
      MemberAtMostSum(lens[1..], i - 1);
    }
  }

  lemma {:induction false} PlacedIsSmall(urbs: seq<IsoUrb>, offset: int)
    requires LaidOut(urbs, offset)
    ensures Small(AllLengths(urbs))
  {
    if urbs != [] {
      PlacedIsSmall(urbs[1..], offset + Sum(urbs[0].lengths));
      var a := urbs[0].lengths;
      forall i | 0 <= i < |a| ensures a[i] <= MAX_ISO_BUFFER_LENGTH {
        MemberAtMostSum(a, i);
      }
    }
  }

  // ---- minimality ----

  /** A way to cut the packets into consecutive segments that each fit into an URB. */
  ghost predicate Partition(lens: Lengths, sizes: seq<nat>)
    decreases |sizes|
  {
    if sizes == [] then lens == []
    else
      && sizes[0] <= |lens| && Sum(lens[..sizes[0]]) <= MAX_ISO_BUFFER_LENGTH
      && Partition(lens[sizes[0]..], sizes[1..])
  }

  /** Leaving out leading packets needs no more segments. */
  lemma {:induction false} DropPackets(lens: Lengths, sizes: seq<nat>, d: nat) returns (less: seq<nat>)
    requires Partition(lens, sizes) && d <= |lens|
    ensures Partition(lens[d..], less) && |less| == |sizes|
    decreases |sizes|
  {
    if sizes == [] {
      less := [];
    } else if d <= sizes[0] {
      var k := sizes[0] - d;
      less := [k] + sizes[1..];
      assert lens[d..][..k] == lens[..sizes[0]][d..];
      assert lens[..sizes[0]] == lens[..sizes[0]][..d] + lens[..sizes[0]][d..];
      SumConcat(lens[..sizes[0]][..d], lens[..sizes[0]][d..]);
      assert lens[d..][k..] == lens[sizes[0]..];
    } else {
      var tail := DropPackets(lens[sizes[0]..], sizes[1..], d - sizes[0]);
      less := [0] + tail;
      assert lens[sizes[0]..][d - sizes[0]..] == lens[d..];
      assert lens[d..][0..] == lens[d..] && lens[d..][..0] == [];
    }
  }

  /** Main result: no partition into consecutive segments that fit uses fewer URBs than were counted. */
  lemma {:induction false} CountIsMinimal(lens: Lengths, sizes: seq<nat>)
    requires Small(lens) && Partition(lens, sizes) && sizes != []
    ensures Count(lens, 0) <= |sizes|
    decreases |sizes|
  {
    var f := Fit(lens, MAX_ISO_BUFFER_LENGTH);
    CountIsGreedy(lens, 0);
    if f < |lens| {
      FitIsLongest(lens, MAX_ISO_BUFFER_LENGTH, sizes[0]);
      var less := DropPackets(lens[sizes[0]..], sizes[1..], f - sizes[0]);
      assert lens[sizes[0]..][f - sizes[0]..] == lens[f..];
      CountIsMinimal(lens[f..], less);
    }
  }

  // ---- the driver ----

  datatype PacketResult = PacketResult(actualLength: UInt32, status: UInt32)
  datatype PacketDesc = PacketDesc(length: UInt32, result: PacketResult)

  function LengthsOf(descs: seq<PacketDesc>): (lens: Lengths)
    ensures |lens| == |descs|
  {
    if descs == [] then [] else [descs[0].length] + LengthsOf(descs[1..])
  }

  function ResultsOf(descs: seq<PacketDesc>): (results: seq<PacketResult>)
    ensures |results| == |descs|
  {
    if descs == [] then [] else ResultsOf(descs[..|descs| - 1]) + [descs[|descs| - 1].result]
  }

  lemma {:induction false} LengthsOfAt(descs: seq<PacketDesc>, i: nat)
    requires i < |descs|
    ensures LengthsOf(descs)[i] == descs[i].length
  {
    if i > 0 {
      LengthsOfAt(descs[1..], i - 1);
    }
  }

  lemma {:induction false} ResultsOfAt(descs: seq<PacketDesc>, i: nat)
    requires i < |descs|
    ensures ResultsOf(descs)[i] == descs[i].result
  {
    if i < |descs| - 1 {
      ResultsOfAt(descs[..|descs| - 1], i);
    }
  }

  lemma Advance(lens: Lengths, i: nat)
    requires i < |lens|
    ensures lens[i..] != [] && lens[i..][0] == lens[i] && lens[i..][1..] == lens[i + 1..]
  {
  }

  /** The loop that calculates how many URBs are needed. */
  method CountUrbs(lens: Lengths) returns (numUrbs: nat)
    ensures numUrbs == Count(lens, 0)
  {
    numUrbs := 1;
    var thisUrbLen: int := 0;
    assert lens[0..] == lens;
    for i := 0 to |lens|
      invariant numUrbs - 1 + Count(lens[i..], thisUrbLen) == Count(lens, 0)
    {
      Advance(lens, i);
      var spaceRemaining := (MAX_ISO_BUFFER_LENGTH - thisUrbLen) % TWO_32;
      if lens[i] > spaceRemaining {
        numUrbs := numUrbs + 1;
        thisUrbLen := lens[i];
      } else {
        thisUrbLen := thisUrbLen + lens[i];
      }
    }
  }

  /** The loop that swallows up all the packets that fit into one URB. */
  method SwallowPackets(lens: Lengths, first: nat) returns (packetOffset: nat, size: nat)
    requires first <= |lens|
    ensures packetOffset == first + Fit(lens[first..], MAX_ISO_BUFFER_LENGTH)
    ensures packetOffset <= |lens| && size == Sum(lens[first..packetOffset])
  {
    packetOffset, size := first, 0;
    var spaceRemaining := MAX_ISO_BUFFER_LENGTH;
    assert lens[first..first] == [];
    while packetOffset < |lens|
      invariant first <= packetOffset <= |lens| && size == Sum(lens[first..packetOffset])
      invariant first + Fit(lens[first..], MAX_ISO_BUFFER_LENGTH)
             == packetOffset + Fit(lens[packetOffset..], spaceRemaining)
    {
      Advance(lens, packetOffset);
      var packetLen := lens[packetOffset];
      if packetLen <= spaceRemaining {
        assert lens[first..packetOffset + 1] == lens[first..packetOffset] + [packetLen];
        SumConcat(lens[first..packetOffset], [packetLen]);
        packetOffset := packetOffset + 1;
        spaceRemaining := spaceRemaining - packetLen;
        size := size + packetLen;
      } else {
        break;
      }
    }
  }

  /** The loop that fills in the URBs. */
  method FillUrbs(lens: Lengths, numUrbs: nat) returns (urbs: seq<IsoUrb>)
    ensures urbs == Fill(lens, numUrbs, 0)
  {
    hide Fill, Fit, Sum;
    ghost var whole := Fill(lens, numUrbs, 0);
    urbs := [];
    var packetOffset, urbBuffer := 0, 0;
    assert lens[0..] == lens;
    for i := 0 to numUrbs
      invariant packetOffset <= |lens|
      invariant urbs + Fill(lens[packetOffset..], numUrbs - i, urbBuffer) == whole
    {
      var first := packetOffset;
      var size;
      packetOffset, size := SwallowPackets(lens, first);
      FillStep(lens, first, packetOffset, numUrbs - i, urbBuffer);
      var urb := IsoUrb(urbBuffer, lens[first..packetOffset]);
      ghost var rest := Fill(lens[packetOffset..], numUrbs - i - 1, urbBuffer + size);
      assert urbs + ([urb] + rest) == urbs + [urb] + rest;
      urbs := urbs + [urb];
      urbBuffer := urbBuffer + size;
    }
    assert urbs == whole;
  }

  lemma FillStep(lens: Lengths, first: nat, next: nat, n: nat, offset: int)
    requires n > 0 && first <= next <= |lens| && next == first + Fit(lens[first..], MAX_ISO_BUFFER_LENGTH)
    ensures Fill(lens[first..], n, offset)
         == [IsoUrb(offset, lens[first..next])] + Fill(lens[next..], n - 1, offset + Sum(lens[first..next]))
  {
    hide Fill, Fit, Sum;
    FillUnfold(lens[first..], n, offset);
    assert lens[first..][..next - first] == lens[first..next] && lens[first..][next - first..] == lens[next..];
  }

  lemma {:induction false} AllLengthsStep(urbs: seq<IsoUrb>, i: nat)
    requires i < |urbs|
    ensures AllLengths(urbs[..i + 1]) == AllLengths(urbs[..i]) + urbs[i].lengths <= AllLengths(urbs)
  {
    assert urbs[..i + 1][0] == urbs[0] && urbs[..i + 1][1..] == urbs[1..][..i];
    if i == 0 {
      assert urbs[1..][..0] == [] && urbs[..0] == [];
    } else {
      assert urbs[..i][0] == urbs[0] && urbs[..i][1..] == urbs[1..][..i - 1];
      AllLengthsStep(urbs[1..], i - 1);
    }
  }

  /** The j-th packet of URB i is the packet of the transfer that in-order reaping counts it as. */
  lemma PacketPosition(lens: Lengths, n: nat, i: nat, j: nat)
    requires i < n && j < |Fill(lens, n, 0)[i].lengths|
    ensures var k := |AllLengths(Fill(lens, n, 0)[..i])| + j;
            k < |lens| && lens[k] == Fill(lens, n, 0)[i].lengths[j]
  {
    FillRespectsLimit(lens, n, 0);
    AllLengthsStep(Fill(lens, n, 0), i);
    hide Fill, AllLengths;
    InPrefix(AllLengths(Fill(lens, n, 0)[..i]), Fill(lens, n, 0)[i].lengths, AllLengths(Fill(lens, n, 0)), lens, j);
  }

  lemma InPrefix(a: Lengths, b: Lengths, c: Lengths, whole: Lengths, j: nat)
    requires a + b <= c <= whole && j < |b|
    ensures |a| + j < |whole| && whole[|a| + j] == b[j]
  {
    assert (a + b)[|a| + j] == b[j];
  }

  lemma NextUrbFits(lens: Lengths, n: nat, i: nat)
    requires i < n
    ensures var urbs := Fill(lens, n, 0);
            |AllLengths(urbs[..i + 1])| == |AllLengths(urbs[..i])| + |urbs[i].lengths| <= |lens|
  {
    FillRespectsLimit(lens, n, 0);
    AllLengthsStep(Fill(lens, n, 0), i);
    hide Fill, AllLengths;
  }

  /** An isochronous transfer with its usbfs private part. */
  class IsoTransfer {
    const descs: array<PacketDesc>
    var live: bool
    var urbs: seq<IsoUrb>
    var numUrbs: nat
    var numRetired: nat
    var action: ReapAction
    var packetOffset: nat
    ghost var submitted: nat
    ghost var reaped: nat
    ghost var answers: seq<PacketResult>  // what the kernel returned for the packets reaped so far, in order

    /** Everything that belongs to a live transfer. */
    ghost function View(): (bool, seq<IsoUrb>, nat, ReapAction, nat, nat)
      reads this
    {
      (live, urbs, numRetired, action, submitted, reaped)
    }

    ghost predicate Valid()
      reads this, descs
    {
      live ==>
        && numUrbs == |urbs| == Count(LengthsOf(descs[..]), 0) && urbs == Fill(LengthsOf(descs[..]), numUrbs, 0)
        && reaped < submitted <= numUrbs && numRetired == reaped + (numUrbs - submitted)
        && (action == Normal ==> submitted == numUrbs)
        && packetOffset == |AllLengths(urbs[..reaped])| <= descs.Length
        && ResultsOf(descs[..packetOffset]) == answers
    }

    constructor (descs: array<PacketDesc>)
      ensures Valid() && !live && this.descs == descs
    {
      this.descs := descs;
      live, urbs, numUrbs, numRetired, action, packetOffset := false, [], 0, 0, Normal, 0;
      submitted, reaped, answers := 0, 0, [];
    }

    /** submit_iso_transfer; `accepted` of the SUBMITURB calls succeed before the first refusal, if any, and
        noDevice says whether that is ENODEV. The second result is the DISCARDURB calls made. */
    method Submit(accepted: nat, noDevice: bool) returns (r: int, discarded: seq<int>)
      requires Valid() && accepted <= Count(LengthsOf(descs[..]), 0)
      modifies this
      ensures Valid()
      ensures old(live) ==> r == LIBUSB_ERROR_BUSY && View() == old(View()) && discarded == []
      ensures !old(live) && accepted == 0 ==>
                && r == (if noDevice then LIBUSB_ERROR_NO_DEVICE else LIBUSB_ERROR_IO)
                && !live && discarded == []
      ensures !old(live) && accepted > 0 ==>
                && r == 0 && live && submitted == accepted && reaped == 0 && packetOffset == 0 && answers == []
                && action == (if submitted == numUrbs then Normal else SubmitFailed)
                && discarded == if submitted == numUrbs then [] else Downward(submitted - 1, 0)
    {
      hide Fill, Count, AllLengths, LengthsOf, ResultsOf, Downward;
      if live {
        return LIBUSB_ERROR_BUSY, [];
      }
      var lens := LengthsOf(descs[..]);
      numUrbs := CountUrbs(lens);
      urbs := FillUrbs(lens, numUrbs);
      numRetired, action, packetOffset, answers, reaped := 0, Normal, 0, [], 0;
      submitted := accepted;
      r, discarded := 0, [];
      if accepted < numUrbs {
        if accepted == 0 {
          return if noDevice then LIBUSB_ERROR_NO_DEVICE else LIBUSB_ERROR_IO, [];
        }
        action := SubmitFailed;
        numRetired := numUrbs - accepted;
        discarded := DiscardDown(accepted - 1, 0);
      }
      live := true;
      NothingReaped(urbs, descs[..]);
    }

    /** cancel_iso_transfer. */
    method Cancel() returns (r: int, discarded: seq<int>)
      requires Valid()
      modifies this`action
      ensures Valid()
      ensures !live ==> r == LIBUSB_ERROR_NOT_FOUND && action == old(action) && discarded == []
      ensures live ==> r == 0 && action == ReapAction.Cancelled && discarded == Downward(numUrbs - 1, 0)
    {
      if !live {
        return LIBUSB_ERROR_NOT_FOUND, [];
      }
      action := ReapAction.Cancelled;
      discarded := DiscardDown(numUrbs - 1, 0);
      r := 0;
    }

    /** handle_iso_completion for the next URB, with what the kernel put into its packet descriptors. */
    method Reap(urbIdx: nat, deviceGone: bool, results: seq<PacketResult>) returns (report: Option<TransferStatus>)
      requires Valid() && live && urbIdx == reaped && |results| == |urbs[urbIdx].lengths|
      modifies this, descs
      ensures Valid() && reaped == old(reaped) + 1 && submitted == old(submitted) && action == old(action)
      ensures answers == old(answers) + results && packetOffset == |answers| <= descs.Length
      ensures ResultsOf(descs[..packetOffset]) == answers
      ensures forall k :: packetOffset <= k < descs.Length ==> descs[k] == old(descs[k])
      ensures LengthsOf(descs[..]) == old(LengthsOf(descs[..]))
      ensures report.Some? <==> reaped == submitted
      ensures live <==> report.None?
      ensures report.Some? ==>
                report.value == if action == ReapAction.Cancelled then TransferStatus.Cancelled
                                else if action != Normal then Error
                                else if deviceGone then TransferStatus.NoDevice
                                else Completed
    {
      hide Fill, Count, AllLengths, LengthsOf, ResultsOf;
      NextUrbFits(LengthsOf(descs[..]), numUrbs, urbIdx);
      WriteBack(results);
      reaped := reaped + 1;
      answers := answers + results;
      report := CountReaped(urbIdx, deviceGone);
    }

    /** The counters and the verdict of handle_iso_completion. */
    method CountReaped(urbIdx: nat, deviceGone: bool) returns (report: Option<TransferStatus>)
      requires live
      modifies this`numRetired, this`live
      ensures numRetired == old(numRetired) + 1 && (live <==> report.None?)
      ensures report.Some? <==> if action != Normal then numRetired == numUrbs else urbIdx + 1 == numUrbs
      ensures report.Some? ==>
                report.value == if action == ReapAction.Cancelled then TransferStatus.Cancelled
                                else if action != Normal then Error
                                else if deviceGone then TransferStatus.NoDevice
                                else Completed
    {
      numRetired := numRetired + 1;
      report := None;
      if action != Normal {
        if numRetired == numUrbs {
          live := false;
          report := Some(if action == ReapAction.Cancelled then TransferStatus.Cancelled else Error);
        }
        return;
      }
      if urbIdx + 1 == numUrbs {
        live := false;
        report := Some(if deviceGone then TransferStatus.NoDevice else Completed);
      }
    }

    /** Copy isochronous results back in. */
    method WriteBack(results: seq<PacketResult>)
      requires packetOffset + |results| <= descs.Length
      modifies this`packetOffset, descs
      ensures packetOffset == old(packetOffset) + |results|
      ensures LengthsOf(descs[..]) == old(LengthsOf(descs[..]))
      ensures ResultsOf(descs[..packetOffset]) == old(ResultsOf(descs[..packetOffset])) + results
      ensures forall k :: packetOffset <= k < descs.Length ==> descs[k] == old(descs[k])
    {
      ghost var first := packetOffset;
      ghost var before := ResultsOf(descs[..packetOffset]);
      for i := 0 to |results|
        invariant packetOffset == first + i
        invariant forall k :: 0 <= k < descs.Length ==> descs[k].length == old(descs[k]).length
        invariant ResultsOf(descs[..packetOffset]) == before + results[..i]
        invariant forall k :: first + i <= k < descs.Length ==> descs[k] == old(descs[k])
      {
        ghost var was := descs[..packetOffset];
        descs[packetOffset] := descs[packetOffset].(result := results[i]);
        assert descs[..packetOffset + 1][..packetOffset] == was;
        packetOffset := packetOffset + 1;
      }
      assert results[..|results|] == results;
      SameLengths(descs[..], old(descs[..]));
    }
  }

  lemma NothingReaped(urbs: seq<IsoUrb>, descs: seq<PacketDesc>)
    ensures AllLengths(urbs[..0]) == [] && ResultsOf(descs[..0]) == []
  {
  }

  lemma SameLengths(a: seq<PacketDesc>, b: seq<PacketDesc>)
    requires |a| == |b| && forall k :: 0 <= k < |a| ==> a[k].length == b[k].length
    ensures LengthsOf(a) == LengthsOf(b)
  {
    forall k | 0 <= k < |a| ensures LengthsOf(a)[k] == LengthsOf(b)[k] {
      LengthsOfAt(a, k);
      LengthsOfAt(b, k);
    }
  }
}
