/** The list of flying transfers, kept sorted by deadline with the infinite ones last, and the scans that
    stop early because it is. */
module FlyingList {
  import opened Wrappers
  import opened Timeouts
  import opened IntrusiveList

  /** What the caller of libusb_submit_transfer fills in. */
  datatype Request = Request(id: nat, handle: nat, ms: nat, length: int, control: bool, shortNotOk: bool)

  /** A transfer in flight; timeoutCancels counts the cancellations made for its timeout. */
  datatype Transfer = Transfer(request: Request, submittedAt: TimeSpec, timeout: TimeVal, transferred: int,
                               timedOut: bool, osHandled: bool, timeoutCancels: nat)
  {
    predicate Unhandled() { !timedOut && !osHandled }
  }

  /** a may stand anywhere in front of b. */
  predicate Precedes(a: Transfer, b: Transfer) {
    !b.timeout.IsSet() || (a.timeout.IsSet() && !After(a.timeout, b.timeout))
  }

  ghost predicate Sorted(s: seq<Transfer>) {
    forall i, j :: 0 <= i < j < |s| ==> Precedes(s[i], s[j])
  }

  // ---- insertion ----

  function FirstLater(s: seq<Transfer>, d: TimeVal): (k: nat)
    ensures k <= |s|
  {
    if s == [] || !s[0].timeout.IsSet() || After(s[0].timeout, d) then 0 else 1 + FirstLater(s[1..], d)
  }

  /** Where a transfer is put: at the end if its timeout is infinite, else before the first later one. */
  function Place(s: seq<Transfer>, t: Transfer): (k: nat)
    ensures k <= |s|
  {
    if t.timeout.IsSet() then FirstLater(s, t.timeout) else |s|
  }

  function Insert(s: seq<Transfer>, t: Transfer): seq<Transfer> {
    InsertAt(s, Place(s, t), t)
  }

  lemma {:induction false} FirstLaterIsFirst(s: seq<Transfer>, d: TimeVal)
    ensures var k := FirstLater(s, d);
            && (forall i :: 0 <= i < k ==> s[i].timeout.IsSet() && !After(s[i].timeout, d))
            && (k < |s| ==> !s[k].timeout.IsSet() || After(s[k].timeout, d))
  {
    if s != [] && s[0].timeout.IsSet() && !After(s[0].timeout, d) {
      FirstLaterIsFirst(s[1..], d);
      forall i | 0 <= i < FirstLater(s, d) ensures s[i].timeout.IsSet() && !After(s[i].timeout, d) {
        if i > 0 {
          assert s[i] == s[1..][i - 1];
        }
      }
    }
  }

  /** Main result: a new transfer goes right behind all those that may stand in front of it, so that of two
      transfers with the same deadline the earlier submitted one comes first. */
  lemma PlaceIsStable(s: seq<Transfer>, t: Transfer, i: nat)
    requires Sorted(s) && i < |s|
    ensures i < Place(s, t) <==> Precedes(s[i], t)
  {
    if t.timeout.IsSet() {
      FirstLaterIsFirst(s, t.timeout);
      var k := FirstLater(s, t.timeout);
      if k < i {
        assert Precedes(s[k], s[i]);
      }
    }
  }

  lemma InsertKeepsSorted(s: seq<Transfer>, t: Transfer)
    requires Sorted(s)
    ensures Sorted(Insert(s, t))
  {
    var k := Place(s, t);
    var r := Insert(s, t);
    forall i, j | 0 <= i < j < |r| ensures Precedes(r[i], r[j]) {
      var (i', j') := (if i < k then i else i - 1, if j < k then j else j - 1);
      if i == k {
        PlaceIsStable(s, t, j');
      } else if j == k {
        PlaceIsStable(s, t, i);
      } else {
        assert r[i] == s[i'] && r[j] == s[j'];
      }
    }
  }

  /** The order of the others is untouched. */
  lemma RemoveKeepsSorted(s: seq<Transfer>, k: nat)
    requires Sorted(s) && k < |s|
    ensures Sorted(RemoveAt(s, k))
  {
    var r := RemoveAt(s, k);
    forall i, j | 0 <= i < j < |r| ensures Precedes(r[i], r[j]) {
      assert r[i] == s[if i < k then i else i + 1] && r[j] == s[if j < k then j else j + 1];
    }
  }

  // ---- handling timeouts ----

  /** Is finite and has expired without anyone having dealt with it. */
  predicate Due(t: Transfer, now: TimeSpec) {
    t.timeout.IsSet() && t.Unhandled() && Expired(t.timeout, now)
  }

  /** handle_timeout marks a transfer and asks for its cancellation. */
  function TimeOut(t: Transfer): Transfer {
    t.(timedOut := true, timeoutCancels := t.timeoutCancels + 1)
  }

  function Scanned(t: Transfer, now: TimeSpec): Transfer {
    if Due(t, now) then TimeOut(t) else t
  }

  /** The full scan: every due transfer, wherever it stands, is timed out, and no other is touched. */
  function Scan(s: seq<Transfer>, now: TimeSpec): (r: seq<Transfer>)
    ensures |r| == |s|
  {
    if s == [] then [] else [Scanned(s[0], now)] + Scan(s[1..], now)
  }

  lemma {:induction false} ScanAt(s: seq<Transfer>, now: TimeSpec, i: nat)
    requires i < |s|
    ensures Scan(s, now)[i] == Scanned(s[i], now)
  {
    if i > 0 {
      ScanAt(s[1..], now, i - 1);
    }
  }

  /** Main result: a scan times out exactly the transfers with a finite deadline not after the clock in whole
      microseconds, which have not been timed out yet and which the system does not watch by itself; each is
      marked and cancelled once more, and nothing else changes. */
  lemma ScanTimesOutIff(s: seq<Transfer>, now: TimeSpec, i: nat)
    requires i < |s| && now.Ok() && s[i].timeout.Almost()
    ensures var (t, t', d) := (s[i], Scan(s, now)[i], s[i].timeout);
            && t'.(timedOut := t.timedOut, timeoutCancels := t.timeoutCancels) == t
            && (t'.timedOut != t.timedOut <==>
                  (d.sec != 0 || d.usec != 0) && !t.timedOut && !t.osHandled && d.Us() <= now.Ns() / 1000)
            && t'.timeoutCancels == t.timeoutCancels + if t'.timedOut != t.timedOut then 1 else 0
  {
    ScanAt(s, now, i);
    ExpiryIsExact(s[i].timeout, now);
  }

  lemma ScanKeepsSorted(s: seq<Transfer>, now: TimeSpec)
    requires Sorted(s)
    ensures Sorted(Scan(s, now))
  {
    forall i, j | 0 <= i < j < |s| ensures Precedes(Scan(s, now)[i], Scan(s, now)[j]) {
      ScanAt(s, now, i);
      ScanAt(s, now, j);
      assert Precedes(s[i], s[j]);
    }
  }

  /** Behind an infinite or an unexpired transfer nothing is due. */
  lemma NothingDueBehind(s: seq<Transfer>, now: TimeSpec, k: nat, i: nat)
    requires Sorted(s) && k <= i < |s|
    requires !s[k].timeout.IsSet() || !Expired(s[k].timeout, now)
    ensures !Due(s[i], now)
  {
    if k < i {
      assert Precedes(s[k], s[i]);
    }
  }

  // ---- the next timeout ----

  /** d is the earliest finite deadline that still has to be watched. */
  ghost predicate IsNextDeadline(s: seq<Transfer>, d: TimeVal) {
    && d.IsSet()
    && (exists i :: 0 <= i < |s| && !s[i].timedOut && !s[i].osHandled && s[i].timeout == d)
    && (forall i :: 0 <= i < |s| && !s[i].timedOut && !s[i].osHandled && s[i].timeout.IsSet() ==>
          !After(d, s[i].timeout))
  }

  ghost predicate Watched(s: seq<Transfer>) {
    exists i :: 0 <= i < |s| && !s[i].timedOut && !s[i].osHandled && s[i].timeout.IsSet()
  }

  /** Main result: whoever polls for the time that was reported finds, when poll returns, that the scan
      times a transfer out; it never has to wait for that a second time. */
  lemma WaitingServesNextDeadline(s: seq<Transfer>, d: TimeVal, now: TimeSpec, later: TimeSpec)
    requires IsNextDeadline(s, d) && d.Almost() && now.Ok() && later.Ok()
    requires later.Ns() >= now.Ns() + PollMs(Remaining(d, now)) * 1_000_000
    ensures exists i :: 0 <= i < |s| && s[i].timeout == d && !s[i].timedOut && Scan(s, later)[i].timedOut
  {
    var i :| 0 <= i < |s| && s[i].Unhandled() && s[i].timeout == d;
    if Expired(d, now) {
      ExpiryIsExact(d, now);
      RemainingIsDifference(d, now);
      PollMsRoundsUp(Remaining(d, now));
      ExpiryIsExact(d, later);
    } else {
      SleepReachesDeadline(d, now, later);
    }
    ScanAt(s, later, i);
  }

  /** Scanning again later comes to the same as scanning once then: nothing is timed out twice. */
  lemma {:induction false} ScansCompose(s: seq<Transfer>, now: TimeSpec, later: TimeSpec)
    requires now.Ok() && later.Ok() && now.Ns() <= later.Ns()
    requires forall i :: 0 <= i < |s| ==> s[i].timeout.Almost()
    ensures Scan(Scan(s, now), later) == Scan(s, later)
  {
    if s != [] {
      ExpiryIsExact(s[0].timeout, now);
      ExpiryIsExact(s[0].timeout, later);
      ScansCompose(s[1..], now, later);
      assert Scan(s, now)[1..] == Scan(s[1..], now);
    }
  }

  // ---- on the ring ----

  type Node = ListNode<Transfer>

  ghost function Datas(r: seq<Node>): (s: seq<Transfer>)
    reads r`data
    ensures |s| == |r|
  {
    if r == [] then [] else [r[0].data] + Datas(r[1..])
  }

  /** The transfers on a ring, whose node 0 is the head. */
  ghost function Contents(r: seq<Node>): (s: seq<Transfer>)
    requires |r| >= 1
    reads r`data
    ensures |s| == |r| - 1
  {
    Datas(r[1..])
  }

  lemma {:induction false} DatasAt(r: seq<Node>, i: nat)
    requires i < |r|
    ensures Datas(r)[i] == r[i].data
  {
    if i > 0 {
      DatasAt(r[1..], i - 1);
    }
  }

  lemma ContentsAt(r: seq<Node>, k: nat)
    requires 1 <= k < |r|
    ensures Contents(r)[k - 1] == r[k].data
  {
    DatasAt(r[1..], k - 1);
  }

  lemma PlaceOnEmpty(t: Transfer)
    ensures Place([], t) == 0
  {
  }

  lemma PlaceOfInfinite(s: seq<Transfer>, t: Transfer)
    requires !t.timeout.IsSet()
    ensures Place(s, t) == |s|
  {
  }

  /** All before k may stand in front of a finite t, and k may not. */
  lemma PlaceIs(s: seq<Transfer>, t: Transfer, k: nat)
    requires k <= |s| && t.timeout.IsSet()
    requires forall i :: 0 <= i < k ==> Precedes(s[i], t)
    requires k == |s| || !Precedes(s[k], t)
    ensures Place(s, t) == k
  {
    FirstLaterIsFirst(s, t.timeout);
  }

  /** add_to_flying_list. */
  method AddToFlyingList(head: Node, entry: Node, ghost r: seq<Node>) returns (first: bool, ghost r': seq<Node>)
    requires Ring(r) && r[0] == head && entry !in r
    modifies r`next, r`prev, entry`next, entry`prev
    ensures r' == InsertAt(r, Place(Contents(r), entry.data) + 1, entry)
    ensures Ring(r') && r'[0] == head
    ensures first <==> entry.data.timeout.IsSet() && r'[1] == entry
  {
    hide Place, Contents;
    var empty := ListEmpty(head, r);
    ghost var s, t := Contents(r), entry.data;
    forall i | 0 <= i < |s| ensures s[i] == r[i + 1].data {
      ContentsAt(r, i + 1);
    }
    if empty {
      PlaceOnEmpty(t);
      ListAdd(entry, head, r, 0);
      return entry.data.timeout.IsSet(), InsertAt(r, 1, entry);
    }
    if !entry.data.timeout.IsSet() {
      PlaceOfInfinite(s, t);
      ListAddTail(entry, head, r, 0);
      return false, InsertAt(r, |r|, entry);
    }
    assert head.next == Following(r, 0);
    var cur := head.next;
    ghost var k := 1;
    first := true;
    while cur != head
      invariant 1 <= k <= |r| && cur == (if k == |r| then head else r[k])
      invariant first <==> k == 1
      invariant forall i :: 0 <= i < k - 1 ==> Precedes(s[i], t)
      decreases |r| - k
    {
      if !cur.data.timeout.IsSet() || After(cur.data.timeout, entry.data.timeout) {
        PlaceIs(s, t, k - 1);
        ListAddTail(entry, cur, r, k);
        return first, InsertAt(r, k, entry);
      }
      first := false;
      assert r[k].next == Following(r, k);
      cur, k := cur.next, k + 1;
    }
    PlaceIs(s, t, |r| - 1);
    ListAddTail(entry, head, r, 0);
    return false, InsertAt(r, |r|, entry);
  }

  /** The list when its first k transfers have been scanned. */
  function ScannedTo(s: seq<Transfer>, now: TimeSpec, k: nat): (r: seq<Transfer>)
    requires k <= |s|
    ensures |r| == |s|
  {
    Scan(s[..k], now) + s[k..]
  }

  lemma ScannedToNone(s: seq<Transfer>, now: TimeSpec)
    ensures ScannedTo(s, now, 0) == s
  {
  }

  /** Scanning the next transfer, given by the code's own tests. */
  lemma ScannedToNext(s: seq<Transfer>, now: TimeSpec, k: nat)
    requires k < |s|
    ensures var (r, t) := (ScannedTo(s, now, k), s[k]);
            && r[k] == t
            && (t.timeout.IsSet() ==>
                  ScannedTo(s, now, k + 1)
                  == if t.Unhandled() && !After(t.timeout, ToTimeVal(now)) then r[k := TimeOut(t)] else r)
  {
    var r, r' := ScannedTo(s, now, k), ScannedTo(s, now, k + 1);
    forall i | 0 <= i < |s| ensures r'[i] == if i == k then Scanned(s[k], now) else r[i] {
      if i <= k {
        ScanAt(s[..k + 1], now, i);
      }
      if i < k {
        ScanAt(s[..k], now, i);
      }
    }
    assert r' == r[k := Scanned(s[k], now)];
    assert r == r[k := s[k]];
  }

  /** Once an infinite or unexpired unhandled transfer is reached, or the end, all that is due is done. */
  lemma ScannedAll(s: seq<Transfer>, now: TimeSpec, k: nat)
    requires k <= |s|
    requires k == |s| || !s[k].timeout.IsSet() || (s[k].Unhandled() && After(s[k].timeout, ToTimeVal(now)))
    ensures Sorted(s) ==> ScannedTo(s, now, k) == Scan(s, now)
  {
    if Sorted(s) {
      forall i | 0 <= i < |s| ensures ScannedTo(s, now, k)[i] == Scan(s, now)[i] {
        ScanAt(s, now, i);
        if k <= i {
          NothingDueBehind(s, now, k, i);
        } else {
          ScanAt(s[..k], now, i);
        }
      }
    }
  }

  /** handle_timeout, for the k-th node of a ring. */
  method HandleTimeout(transfer: Node, ghost r: seq<Node>, ghost k: nat)
    requires 1 <= k < |r| && r[k] == transfer
    modifies transfer`data
    ensures Distinct(r) ==> Contents(r) == old(Contents(r))[k - 1 := TimeOut(old(transfer.data))]
  {
    ghost var was := Contents(r);
    forall i | 0 <= i < |was| ensures was[i] == r[i + 1].data {
      ContentsAt(r, i + 1);
    }
    transfer.data := TimeOut(transfer.data);
    ghost var marked := Contents(r);
    forall i | Distinct(r) && 0 <= i < |marked| ensures marked[i] == was[k - 1 := transfer.data][i] {
      ContentsAt(r, i + 1);
    }
  }

  lemma RingFollowing(r: seq<Node>, k: nat)
    requires k < |r|
    ensures Ring(r) ==> Distinct(r) && r[k].next == Following(r, k)
  {
  }

  /** handle_timeouts_locked: stops at the first infinite or unexpired transfer, and yet does what the full
      scan does; if the clock cannot be read it does nothing. */
  method HandleTimeouts(head: Node, clock: Option<TimeSpec>, ghost r: seq<Node>) returns (ok: bool)
    requires Ring(r) && r[0] == head && Sorted(Contents(r))
    modifies r`data
    ensures ok <==> clock.Some? || r == [head]
    ensures Contents(r) == if clock.Some? then Scan(old(Contents(r)), clock.value) else old(Contents(r))
  {
    hide Sorted, Scan, ScannedTo, TimeOut, After, Contents, Ring, Distinct;
    ghost var s := Contents(r);
    if clock.Some? {
      ScannedToNone(s, clock.value);
    }
    var empty := ListEmpty(head, r);
    if empty {
      if clock.Some? {
        ScannedAll(s, clock.value, 0);
      }
      return true;
    }
    if clock.None? {
      return false;
    }
    var now := clock.value;
    RingFollowing(r, 0);
    var cur := head.next;
    ghost var k := 1;
    while cur != head
      invariant 1 <= k <= |r| && cur == (if k == |r| then head else r[k])
      invariant Ring(r)
      invariant Contents(r) == ScannedTo(s, now, k - 1)
      decreases |r| - k
    {
      ScannedToNext(s, now, k - 1);
      ContentsAt(r, k);
      if !cur.data.timeout.IsSet() {
        break;
      }
      if !cur.data.timedOut && !cur.data.osHandled {
        if After(cur.data.timeout, ToTimeVal(now)) {
          break;
        }
        RingFollowing(r, k);
        HandleTimeout(cur, r, k);
      }
      RingFollowing(r, k);
      cur, k := cur.next, k + 1;
    }
    ScannedAll(s, now, k - 1);
    ok := true;
  }

  /** The first unhandled transfer carries the next deadline; there is none if its timeout is infinite. */
  lemma FirstUnhandledIsNext(s: seq<Transfer>, k: nat)
    requires k < |s| && s[k].Unhandled()
    requires forall i :: 0 <= i < k ==> !s[i].Unhandled()
    ensures Sorted(s) ==> (Watched(s) <==> s[k].timeout.IsSet())
    ensures Sorted(s) && s[k].timeout.IsSet() ==> IsNextDeadline(s, s[k].timeout)
  {
    if Sorted(s) {
      forall i | 0 <= i < |s| && s[i].Unhandled() && s[i].timeout.IsSet()
        ensures s[k].timeout.IsSet() && !After(s[k].timeout, s[i].timeout)
      {
        if k < i {
          assert Precedes(s[k], s[i]);
        }
      }
    }
  }

  datatype NextTimeout = NoTimeout | ClockFailed | In(wait: TimeVal)

  /** libusb_get_next_timeout. */
  method GetNextTimeout(head: Node, clock: Option<TimeSpec>, ghost r: seq<Node>) returns (t: NextTimeout)
    requires Ring(r) && r[0] == head && Sorted(Contents(r))
    ensures t.NoTimeout? <==> !Watched(Contents(r))
    ensures t.ClockFailed? <==> Watched(Contents(r)) && clock.None?
    ensures t.In? ==> exists d :: IsNextDeadline(Contents(r), d) && t.wait == Remaining(d, clock.value)
  {
    hide Sorted, IsNextDeadline, Remaining, Contents;
    ghost var s := Contents(r);
    var empty := ListEmpty(head, r);
    if empty {
      return NoTimeout;
    }
    assert head.next == Following(r, 0);
    var cur := head.next;
    ghost var k := 1;
    while cur != head && (cur.data.timedOut || cur.data.osHandled)
      invariant 1 <= k <= |r| && cur == (if k == |r| then head else r[k])
      invariant forall i :: 0 <= i < k - 1 ==> !s[i].Unhandled()
      decreases |r| - k
    {
      ContentsAt(r, k);
      assert r[k].next == Following(r, k);
      cur, k := cur.next, k + 1;
    }
    if cur == head {
      return NoTimeout;
    }
    ContentsAt(r, k);
    FirstUnhandledIsNext(s, k - 1);
    if !cur.data.timeout.IsSet() {
      return NoTimeout;
    }
    if clock.None? {
      return ClockFailed;
    }
    return In(Remaining(cur.data.timeout, clock.value));
  }
}
