/** The life of a transfer from submission to its callback: nothing is lost or reported twice, timeouts
    are never reported early, and a disconnect ends exactly the transfers of its device handle. */
module Completions {
  import opened Timeouts
  import opened IntrusiveList
  import opened FlyingList
  import opened Usbfs

  const SETUP_SIZE := 8

  datatype Report = Report(transfer: Transfer, status: TransferStatus, at: TimeSpec)

  /** The context: the clock, the flying list, every submission that succeeded and every callback made. */
  datatype State = State(now: TimeSpec, flying: seq<Transfer>, submitted: seq<nat>, reports: seq<Report>)

  /** A call of libusb_submit_transfer, and what the backend answers. */
  datatype Submission = Submission(request: Request, osHandled: bool, ok: bool)

  datatype Event =
    | Tick(now: TimeSpec)
    | Submit(submission: Submission)
    | HandleTimeouts
    | Receive(k: nat, n: nat)
    | Complete(k: nat, status: TransferStatus)
    | CancelDone(k: nat)

  /** A fresh transfer; a zero timeout leaves the deadline of the structure as it was allocated, all zero. */
  function Fresh(x: Submission, now: TimeSpec): Transfer {
    Transfer(x.request, now, if x.request.ms == 0 then TimeVal(0, 0) else Deadline(now, x.request.ms), 0,
             false, x.osHandled, 0)
  }

  /** A submission the backend refuses leaves nothing behind. */
  function SubmitStep(s: State, x: Submission): State {
    if x.ok then
      s.(flying := Insert(s.flying, Fresh(x, s.now)), submitted := s.submitted + [x.request.id])
    else s
  }

  /** What the callback is told: a short transfer may count as an error. */
  function FinalStatus(t: Transfer, status: TransferStatus): TransferStatus {
    var rqlen := t.request.length - if t.request.control then SETUP_SIZE else 0;
    if status == Completed && t.request.shortNotOk && rqlen != t.transferred then Error else status
  }

  function CompleteStep(s: State, k: nat, status: TransferStatus): State
    requires k < |s.flying|
  {
    var t := s.flying[k];
    s.(flying := RemoveAt(s.flying, k), reports := s.reports + [Report(t, FinalStatus(t, status), s.now)])
  }

  predicate Allowed(s: State, e: Event) {
    match e
    case Tick(now) => now.Ok() && s.now.Ns() <= now.Ns()
    case Submit(x) => x.ok ==> Flights(s.flying, x.request.id) == 0
    case HandleTimeouts => true
    case Receive(k, n) => k < |s.flying|
    case Complete(k, status) => k < |s.flying| && status != TimedOut
    case CancelDone(k) => k < |s.flying|
  }

  function Step(s: State, e: Event): State
    requires Allowed(s, e)
  {
    match e
    case Tick(now) => s.(now := now)
    case Submit(x) => SubmitStep(s, x)
    case HandleTimeouts => s.(flying := Scan(s.flying, s.now))
    case Receive(k, n) =>
      var t := s.flying[k];
      s.(flying := s.flying[k := t.(transferred := t.transferred + n)])
    case Complete(k, status) => CompleteStep(s, k, status)
    case CancelDone(k) => CompleteStep(s, k, if s.flying[k].timedOut then TimedOut else TransferStatus.Cancelled)
  }

  // ---- accounting ----

  /** How often a transfer is on the list, among the submissions, and among the callbacks. */
  function Flights(s: seq<Transfer>, id: nat): nat {
    if s == [] then 0 else (if s[0].request.id == id then 1 else 0) + Flights(s[1..], id)
  }

  function Submissions(s: seq<nat>, id: nat): nat {
    if s == [] then 0 else (if s[|s| - 1] == id then 1 else 0) + Submissions(s[..|s| - 1], id)
  }

  function Callbacks(s: seq<Report>, id: nat): nat {
    if s == [] then 0
    else (if s[|s| - 1].transfer.request.id == id then 1 else 0) + Callbacks(s[..|s| - 1], id)
  }

  lemma {:induction false} FlightsInsert(s: seq<Transfer>, k: nat, t: Transfer, id: nat)
    requires k <= |s|
    ensures Flights(InsertAt(s, k, t), id) == Flights(s, id) + if t.request.id == id then 1 else 0
  {
    var r := InsertAt(s, k, t);
    if k == 0 {
      assert r[1..] == s;
    } else {
      FlightsInsert(s[1..], k - 1, t, id);
      assert r[1..] == InsertAt(s[1..], k - 1, t);
    }
  }

  lemma FlightsRemove(s: seq<Transfer>, k: nat, id: nat)
    requires k < |s|
    ensures Flights(s, id) == Flights(RemoveAt(s, k), id) + if s[k].request.id == id then 1 else 0
  {
    FlightsInsert(RemoveAt(s, k), k, s[k], id);
    assert InsertAt(RemoveAt(s, k), k, s[k]) == s;
  }

  lemma {:induction false} SameFlights(s: seq<Transfer>, r: seq<Transfer>, id: nat)
    requires |s| == |r| && forall i :: 0 <= i < |s| ==> s[i].request == r[i].request
    ensures Flights(s, id) == Flights(r, id)
  {
    if s != [] {
      SameFlights(s[1..], r[1..], id);
    }
  }

  /** Every submission of the transfer is still in flight or has been reported. */
  predicate Accounted(s: State, id: nat) {
    Submissions(s.submitted, id) == Callbacks(s.reports, id) + Flights(s.flying, id)
  }

  lemma SubmitAccounts(s: State, x: Submission, id: nat)
    ensures Accounted(s, id) ==> Accounted(SubmitStep(s, x), id)
    ensures Flights(SubmitStep(s, x).flying, id)
            == Flights(s.flying, id) + if x.ok && x.request.id == id then 1 else 0
  {
    hide Place, InsertAt;
    if x.ok {
      var t := Fresh(x, s.now);
      FlightsInsert(s.flying, Place(s.flying, t), t, id);
      assert SubmitStep(s, x).submitted[..|s.submitted|] == s.submitted;
    }
  }

  lemma CompleteAccounts(s: State, k: nat, status: TransferStatus, id: nat)
    requires k < |s.flying|
    ensures var s' := CompleteStep(s, k, status);
            && (Accounted(s, id) ==> Accounted(s', id))
            && Flights(s'.flying, id) <= Flights(s.flying, id)
  {
    FlightsRemove(s.flying, k, id);
    var s' := CompleteStep(s, k, status);
    assert s'.reports[..|s.reports|] == s.reports;
  }

  lemma ScanFlights(s: seq<Transfer>, now: TimeSpec, id: nat)
    ensures Flights(Scan(s, now), id) == Flights(s, id)
  {
    forall i | 0 <= i < |s| ensures s[i].request == Scan(s, now)[i].request {
      ScanAt(s, now, i);
    }
    SameFlights(s, Scan(s, now), id);
  }

  lemma StepAccounts(s: State, e: Event, id: nat)
    requires Allowed(s, e)
    ensures Accounted(s, id) ==> Accounted(Step(s, e), id)
    ensures Flights(s.flying, id) <= 1 ==> Flights(Step(s, e).flying, id) <= 1
  {
    hide Flights, Scan, CompleteStep, SubmitStep;
    match e
    case Tick(_) =>
    case Submit(x) => SubmitAccounts(s, x, id);
    case HandleTimeouts => ScanFlights(s.flying, s.now, id);
    case Receive(k, n) => SameFlights(s.flying, Step(s, e).flying, id);
    case Complete(k, status) => CompleteAccounts(s, k, status, id);
    case CancelDone(k) =>
      CompleteAccounts(s, k, if s.flying[k].timedOut then TimedOut else TransferStatus.Cancelled, id);
  }

  // ---- timeouts over a run ----

  function DueNs(t: Transfer): int {
    t.submittedAt.Ns() + t.request.ms * 1_000_000
  }

  /** A flying transfer carries its own deadline, and it has been timed out, once, only if that is past and nobody
      else watches it. */
  predicate TransferOk(t: Transfer, now: TimeSpec) {
    && t.submittedAt.Ok() && t.submittedAt.Ns() <= now.Ns()
    && t.timeout == (if t.request.ms == 0 then TimeVal(0, 0) else Deadline(t.submittedAt, t.request.ms))
    && (t.timedOut ==> t.request.ms > 0 && DueNs(t) - now.Ns() < 1000 && !t.osHandled)
    && t.timeoutCancels == if t.timedOut then 1 else 0
  }

  /** No callback is told of a timeout before it was due (the clock being cut to microseconds), nor of a
      completion that was short where the caller forbade it. */
  predicate ReportOk(r: Report) {
    && (r.status == TimedOut ==> r.transfer.request.ms > 0 && DueNs(r.transfer) - r.at.Ns() < 1000)
    && (r.status == Completed && r.transfer.request.shortNotOk ==>
          r.transfer.transferred + (if r.transfer.request.control then SETUP_SIZE else 0) == r.transfer.request.length)
  }

  ghost predicate Inv(s: State) {
    && s.now.Ok()
    && Sorted(s.flying)
    && (forall i :: 0 <= i < |s.flying| ==> TransferOk(s.flying[i], s.now))
    && (forall i :: 0 <= i < |s.reports| ==> ReportOk(s.reports[i]))
  }

  /** A transfer starts with nothing received and nothing done about its timeout, which falls due as many
      milliseconds after its submission as was asked for; none asked for never falls due. */
  lemma FreshIsDueLater(x: Submission, now: TimeSpec)
    requires now.Ok()
    ensures var t := Fresh(x, now);
            && t.request == x.request && t.submittedAt == now && t.osHandled == x.osHandled
            && t.transferred == 0 && !t.timedOut && t.timeoutCancels == 0
            && (t.timeout.IsSet() <==> x.request.ms > 0)
            && (x.request.ms > 0 ==> t.timeout.Us() == (now.Ns() + x.request.ms * 1_000_000) / 1000)
  {
    if x.request.ms > 0 {
      DeadlineIsDueTime(now, x.request.ms);
    }
  }

  lemma FreshIsOk(x: Submission, now: TimeSpec)
    requires now.Ok()
    ensures TransferOk(Fresh(x, now), now)
  {
  }

  lemma ScannedIsOk(t: Transfer, now: TimeSpec)
    requires now.Ok() && TransferOk(t, now)
    ensures TransferOk(Scanned(t, now), now)
  {
    if Due(t, now) {
      NeverEarlyNeverMissed(t.submittedAt, t.request.ms, now);
    }
  }

  lemma ScanKeepsInv(s: State)
    requires Inv(s)
    ensures Inv(Step(s, HandleTimeouts))
  {
    hide TransferOk, Scan, Sorted;
    forall i | 0 <= i < |s.flying| ensures TransferOk(Scan(s.flying, s.now)[i], s.now) {
      ScanAt(s.flying, s.now, i);
      ScannedIsOk(s.flying[i], s.now);
    }
    ScanKeepsSorted(s.flying, s.now);
  }

  lemma SubmitKeepsInv(s: State, x: Submission)
    requires Inv(s)
    ensures Inv(SubmitStep(s, x))
  {
    hide TransferOk, Place, Sorted, Fresh;
    FreshIsOk(x, s.now);
    InsertKeepsSorted(s.flying, Fresh(x, s.now));
  }

  lemma CompleteKeepsInv(s: State, k: nat, status: TransferStatus)
    requires Inv(s) && k < |s.flying| && (status == TimedOut ==> s.flying[k].timedOut)
    ensures Inv(CompleteStep(s, k, status))
  {
    hide Sorted, Deadline;
    RemoveKeepsSorted(s.flying, k);
  }

  lemma StepKeepsInv(s: State, e: Event)
    requires Inv(s) && Allowed(s, e)
    ensures Inv(Step(s, e))
  {
    match e
    case Tick(_) =>
    case Submit(x) => SubmitKeepsInv(s, x);
    case HandleTimeouts => ScanKeepsInv(s);
    case Receive(k, n) =>
    case Complete(k, status) => CompleteKeepsInv(s, k, status);
    case CancelDone(k) => CompleteKeepsInv(s, k, if s.flying[k].timedOut then TimedOut else TransferStatus.Cancelled);
  }

  // ---- runs ----

  predicate Init(s: State) {
    s.now.Ok() && s.flying == [] && s.submitted == [] && s.reports == []
  }

  predicate CanRun(s: State, es: seq<Event>)
    decreases |es|
  {
    es == [] || (Allowed(s, es[0]) && CanRun(Step(s, es[0]), es[1..]))
  }

  function Run(s: State, es: seq<Event>): State
    requires CanRun(s, es)
    decreases |es|
  {
    if es == [] then s else Run(Step(s, es[0]), es[1..])
  }

  /** Main result: in every run each submission of a transfer is either still in flight, at most once, or
      has had exactly one callback. */
  lemma {:induction false} RunAccounts(s: State, es: seq<Event>, id: nat)
    requires CanRun(s, es) && Accounted(s, id) && Flights(s.flying, id) <= 1
    ensures Accounted(Run(s, es), id) && Flights(Run(s, es).flying, id) <= 1
    decreases |es|
  {
    if es != [] {
      hide Accounted, Step, Allowed;
      StepAccounts(s, es[0], id);
      RunAccounts(Step(s, es[0]), es[1..], id);
    }
  }

  /** Main result: in every run the flying list is sorted, each transfer is timed out at most once and only
      when due, and every report is truthful. */
  lemma {:induction false} RunKeepsInv(s: State, es: seq<Event>)
    requires CanRun(s, es) && Inv(s)
    ensures Inv(Run(s, es))
    decreases |es|
  {
    if es != [] {
      hide Inv, Step, Allowed;
      StepKeepsInv(s, es[0]);
      RunKeepsInv(Step(s, es[0]), es[1..]);
    }
  }

  /** All submissions together. */
  predicate Balanced(s: State) {
    |s.submitted| == |s.reports| + |s.flying|
  }

  lemma {:induction false} RunBalances(s: State, es: seq<Event>)
    requires CanRun(s, es) && Balanced(s)
    ensures Balanced(Run(s, es))
    decreases |es|
  {
    if es != [] {
      RunBalances(Step(s, es[0]), es[1..]);
    }
  }

  /** From an empty context: the submissions are as many as the callbacks and the flying transfers, of each
      transfer and altogether. */
  lemma EverySubmissionIsAccountedFor(s: State, es: seq<Event>, id: nat)
    requires Init(s) && CanRun(s, es)
    ensures Accounted(Run(s, es), id) && Balanced(Run(s, es))
    ensures Inv(Run(s, es))
  {
    RunAccounts(s, es, id);
    RunBalances(s, es);
    RunKeepsInv(s, es);
  }

  // ---- what the callbacks are told ----

  /** What the backend has to say about a transfer: how it ended, or that its cancellation is through. */
  datatype Answer = Ended(status: TransferStatus) | Discarded

  /** The backend's answers in the order of a run. */
  function Answers(s: State, es: seq<Event>): seq<Answer>
    requires CanRun(s, es)
    decreases |es|
  {
    if es == [] then []
    else
      var rest := Answers(Step(s, es[0]), es[1..]);
      match es[0]
      case Complete(_, status) => [Ended(status)] + rest
      case CancelDone(_) => [Discarded] + rest
      case _ => rest
  }

  /** The payload asked for: a control transfer begins with a setup packet of eight bytes. */
  function Payload(r: Request): int {
    if r.control then r.length - 8 else r.length
  }

  /** A callback is told the very answer of the backend, but that a completed transfer is an error exactly if it
      forbids short data and has not the payload asked for; and that a cancellation is a timeout exactly if
      the timeout has asked for it. */
  predicate Truthful(r: Report, a: Answer) {
    match a
    case Ended(status) =>
      var short := r.transfer.request.shortNotOk && r.transfer.transferred != Payload(r.transfer.request);
      && (status != Completed ==> r.status == status)
      && (status == Completed ==> r.status == Completed || r.status == Error)
      && (status == Completed ==> (r.status == Error <==> short))
    case Discarded =>
      && (r.status == TimedOut || r.status == TransferStatus.Cancelled)
      && (r.status == TimedOut <==> r.transfer.timedOut)
  }

  lemma StepTells(s: State, e: Event)
    requires Allowed(s, e)
    ensures var rs := Step(s, e).reports;
            && (e.Complete? ==> |rs| == |s.reports| + 1 && Truthful(rs[|s.reports|], Ended(e.status)))
            && (e.CancelDone? ==> |rs| == |s.reports| + 1 && Truthful(rs[|s.reports|], Discarded))
            && (!e.Complete? && !e.CancelDone? ==> |rs| == |s.reports|)
            && rs[..|s.reports|] == s.reports
  {
  }

  /** Main result: over every run each answer of the backend makes one callback, in this order, and each
      callback is told the truth. */
  lemma {:induction false} RunTells(s: State, es: seq<Event>)
    requires CanRun(s, es)
    ensures var (said, rs) := (Answers(s, es), Run(s, es).reports);
            && |rs| == |s.reports| + |said| && rs[..|s.reports|] == s.reports
            && forall i :: 0 <= i < |said| ==> Truthful(rs[|s.reports| + i], said[i])
    decreases |es|
  {
    if es != [] {
      hide Step, Allowed, Truthful;
      var s' := Step(s, es[0]);
      StepTells(s, es[0]);
      RunTells(s', es[1..]);
      var said, rs := Answers(s, es), Run(s, es).reports;
      assert rs[..|s.reports|] == rs[..|s'.reports|][..|s.reports|];
      forall i | 0 <= i < |said| ensures Truthful(rs[|s.reports| + i], said[i]) {
        var made := |s'.reports| - |s.reports|;
        if i < made {
          assert rs[|s.reports|] == rs[..|s'.reports|][|s.reports|];
        } else {
          assert said[i] == Answers(s', es[1..])[i - made];
        }
      }
    }
  }

  // ---- the bytes received ----

  function InFlight(s: seq<Transfer>, id: nat): int {
    if s == [] then 0 else (if s[0].request.id == id then s[0].transferred else 0) + InFlight(s[1..], id)
  }

  function Reported(s: seq<Report>, id: nat): int {
    if s == [] then 0
    else (if s[|s| - 1].transfer.request.id == id then s[|s| - 1].transfer.transferred else 0)
         + Reported(s[..|s| - 1], id)
  }

  /** What the backend has received for a transfer during a run. */
  function Received(s: State, es: seq<Event>, id: nat): int
    requires CanRun(s, es)
    decreases |es|
  {
    if es == [] then 0
    else
      (if es[0].Receive? && s.flying[es[0].k].request.id == id then es[0].n else 0)
      + Received(Step(s, es[0]), es[1..], id)
  }

  lemma {:induction false} InFlightInsert(s: seq<Transfer>, k: nat, t: Transfer, id: nat)
    requires k <= |s|
    ensures InFlight(InsertAt(s, k, t), id) == InFlight(s, id) + if t.request.id == id then t.transferred else 0
  {
    var r := InsertAt(s, k, t);
    if k == 0 {
      assert r[1..] == s;
    } else {
      InFlightInsert(s[1..], k - 1, t, id);
      assert r[1..] == InsertAt(s[1..], k - 1, t);
    }
  }

  lemma InFlightRemove(s: seq<Transfer>, k: nat, id: nat)
    requires k < |s|
    ensures InFlight(s, id) == InFlight(RemoveAt(s, k), id) + if s[k].request.id == id then s[k].transferred else 0
  {
    InFlightInsert(RemoveAt(s, k), k, s[k], id);
    assert InsertAt(RemoveAt(s, k), k, s[k]) == s;
  }

  lemma {:induction false} InFlightUpdate(s: seq<Transfer>, k: nat, t: Transfer, id: nat)
    requires k < |s| && t.request.id == s[k].request.id
    ensures InFlight(s[k := t], id)
         == InFlight(s, id) + if t.request.id == id then t.transferred - s[k].transferred else 0
  {
    if k == 0 {
      assert s[k := t][1..] == s[1..];
    } else {
      InFlightUpdate(s[1..], k - 1, t, id);
      assert s[k := t][1..] == s[1..][k - 1 := t];
    }
  }

  lemma {:induction false} SameInFlight(s: seq<Transfer>, r: seq<Transfer>, id: nat)
    requires |s| == |r|
    requires forall i :: 0 <= i < |s| ==> s[i].request == r[i].request && s[i].transferred == r[i].transferred
    ensures InFlight(s, id) == InFlight(r, id)
  {
    if s != [] {
      SameInFlight(s[1..], r[1..], id);
    }
  }

  lemma CompleteBytes(s: State, k: nat, status: TransferStatus, id: nat)
    requires k < |s.flying|
    ensures var s' := CompleteStep(s, k, status);
            InFlight(s'.flying, id) + Reported(s'.reports, id) == InFlight(s.flying, id) + Reported(s.reports, id)
  {
    InFlightRemove(s.flying, k, id);
    var s' := CompleteStep(s, k, status);
    assert s'.reports[..|s.reports|] == s.reports;
  }

  lemma StepBytes(s: State, e: Event, id: nat)
    requires Allowed(s, e)
    ensures var s' := Step(s, e);
            InFlight(s'.flying, id) + Reported(s'.reports, id)
            == InFlight(s.flying, id) + Reported(s.reports, id)
               + if e.Receive? && s.flying[e.k].request.id == id then e.n else 0
  {
    hide InFlight, Reported, Scan, CompleteStep, Place, InsertAt;
    match e
    case Tick(_) =>
    case Submit(x) =>
      if x.ok {
        InFlightInsert(s.flying, Place(s.flying, Fresh(x, s.now)), Fresh(x, s.now), id);
      }
    case HandleTimeouts =>
      forall i | 0 <= i < |s.flying|
        ensures s.flying[i].request == Scan(s.flying, s.now)[i].request
        ensures s.flying[i].transferred == Scan(s.flying, s.now)[i].transferred
      {
        ScanAt(s.flying, s.now, i);
      }
      SameInFlight(s.flying, Scan(s.flying, s.now), id);
    case Receive(k, n) => InFlightUpdate(s.flying, k, Step(s, e).flying[k], id);
    case Complete(k, status) => CompleteBytes(s, k, status, id);
    case CancelDone(k) =>
      CompleteBytes(s, k, if s.flying[k].timedOut then TimedOut else TransferStatus.Cancelled, id);
  }

  /** Main result: every byte received for a transfer is told to a callback of that transfer, or belongs to one
      still in flight. */
  lemma {:induction false} RunAccountsBytes(s: State, es: seq<Event>, id: nat)
    requires CanRun(s, es)
    ensures var s' := Run(s, es);
            InFlight(s'.flying, id) + Reported(s'.reports, id)
            == InFlight(s.flying, id) + Reported(s.reports, id) + Received(s, es, id)
    decreases |es|
  {
    if es != [] {
      hide InFlight, Reported, Step, Allowed;
      StepBytes(s, es[0], id);
      RunAccountsBytes(Step(s, es[0]), es[1..], id);
    }
  }

  // ---- disconnecting ----

  /** The transfers of a device handle, and the others, in list order. */
  function On(s: seq<Transfer>, h: nat): seq<Transfer> {
    if s == [] then [] else (if s[0].request.handle == h then [s[0]] else []) + On(s[1..], h)
  }

  function Off(s: seq<Transfer>, h: nat): seq<Transfer> {
    if s == [] then [] else (if s[0].request.handle == h then [] else [s[0]]) + Off(s[1..], h)
  }

  function FirstOn(s: seq<Transfer>, h: nat): (k: nat)
    requires On(s, h) != []
    ensures k < |s| && s[k].request.handle == h
  {
    if s[0].request.handle == h then 0 else 1 + FirstOn(s[1..], h)
  }

  /** The transfers of a handle and the others are all there are, and which is which. */
  lemma {:induction false} OnAndOff(s: seq<Transfer>, h: nat)
    ensures multiset(s) == multiset(On(s, h)) + multiset(Off(s, h))
    ensures forall t <- On(s, h) :: t.request.handle == h
    ensures forall t <- Off(s, h) :: t.request.handle != h
  {
    if s != [] {
      OnAndOff(s[1..], h);
      assert s == [s[0]] + s[1..];
    }
  }

  function NoDeviceReports(s: seq<Transfer>, at: TimeSpec): seq<Report> {
    if s == [] then [] else [Report(s[0], NoDevice, at)] + NoDeviceReports(s[1..], at)
  }

  /** One report for each transfer, in their order. */
  lemma {:induction false} NoDeviceReportAt(s: seq<Transfer>, at: TimeSpec, i: nat)
    ensures |NoDeviceReports(s, at)| == |s|
    ensures i < |s| ==>
              var r := NoDeviceReports(s, at)[i];
              r.transfer == s[i] && r.status == TransferStatus.NoDevice && r.at == at
  {
    if s != [] {
      NoDeviceReportAt(s[1..], at, if i == 0 then 0 else i - 1);
    }
  }

  lemma {:induction false} FirstOnIsFirst(s: seq<Transfer>, h: nat)
    requires On(s, h) != []
    ensures var k := FirstOn(s, h);
            On(s, h) == [s[k]] + On(RemoveAt(s, k), h) && Off(RemoveAt(s, k), h) == Off(s, h)
  {
    var (k, a, u) := (FirstOn(s, h), s[0], s[1..]);
    assert s == [a] + u;
    OnCons(a, u, h);
    OffCons(a, u, h);
    hide On, Off;
    if k == 0 {
      assert RemoveAt(s, 0) == u;
      assert a.request.handle == h && [] + Off(u, h) == Off(u, h);
    } else {
      FirstOnIsFirst(u, h);
      assert RemoveAt(s, k) == [a] + RemoveAt(u, k - 1);
      OnCons(a, RemoveAt(u, k - 1), h);
      OffCons(a, RemoveAt(u, k - 1), h);
    }
  }

  lemma OnCons(a: Transfer, s: seq<Transfer>, h: nat)
    ensures On([a] + s, h) == if a.request.handle == h then [a] + On(s, h) else On(s, h)
  {
    assert ([a] + s)[1..] == s;
  }

  lemma {:induction false} OnInsertAt(s: seq<Transfer>, k: nat, t: Transfer, h: nat)
    requires k <= |s| && t.request.handle != h
    ensures On(InsertAt(s, k, t), h) == On(s, h)
  {
    var r := InsertAt(s, k, t);
    if k == 0 {
      assert r[1..] == s;
    } else {
      OnInsertAt(s[1..], k - 1, t, h);
      assert r[1..] == InsertAt(s[1..], k - 1, t);
    }
  }

  lemma {:induction false} OffStartsLater(s: seq<Transfer>, t: Transfer, h: nat)
    requires t.timeout.IsSet() && forall i :: 0 <= i < |s| ==> !Precedes(s[i], t)
    ensures Place(Off(s, h), t) == 0
  {
    if s != [] && s[0].request.handle == h {
      OffStartsLater(s[1..], t, h);
    }
  }

  lemma InsertBehind(a: Transfer, s: seq<Transfer>, t: Transfer)
    requires Precedes(a, t)
    ensures Insert([a] + s, t) == [a] + Insert(s, t)
  {
    assert ([a] + s)[1..] == s;
    assert Place([a] + s, t) == 1 + Place(s, t);
  }

  lemma OffCons(a: Transfer, s: seq<Transfer>, h: nat)
    ensures Off([a] + s, h) == (if a.request.handle == h then [] else [a]) + Off(s, h)
  {
    assert ([a] + s)[1..] == s;
  }

  /** Inserting a transfer of another handle commutes with taking out those of this one. */
  lemma {:induction false} OffInsert(s: seq<Transfer>, t: Transfer, h: nat)
    requires Sorted(s) && t.request.handle != h
    ensures Off(Insert(s, t), h) == Insert(Off(s, h), t)
  {
    if s == [] {
    } else if Precedes(s[0], t) {
      var (a, u) := (s[0], s[1..]);
      assert s == [a] + u;
      OffInsert(u, t, h);
      hide Insert, Off, Precedes;
      InsertBehind(a, u, t);
      InsertBehind(a, Off(u, h), t);
      OffCons(a, u, h);
      OffCons(a, Insert(u, t), h);
      if a.request.handle == h {
        assert Off(s, h) == Off(u, h);
      }
    } else {
      PlaceIsStable(s, t, 0);
      forall i | 0 <= i < |s| ensures !Precedes(s[i], t) {
        PlaceIsStable(s, t, i);
      }
      OffStartsLater(s, t, h);
      OffCons(t, s, h);
      assert Insert(s, t) == [t] + s;
    }
  }

  // What the callbacks do: any number of submissions each, those on the dead handle being refused.

  function SubmitAll(s: State, xs: seq<Submission>): State
    decreases |xs|
  {
    if xs == [] then s else SubmitAll(SubmitStep(s, xs[0]), xs[1..])
  }

  predicate Playable(s: State, h: nat, xs: seq<Submission>)
    decreases |xs|
  {
    || xs == []
    || (Allowed(s, Submit(xs[0])) && (xs[0].ok ==> xs[0].request.handle != h)
        && Playable(SubmitStep(s, xs[0]), h, xs[1..]))
  }

  function InsertAll(s: seq<Transfer>, xs: seq<Submission>, now: TimeSpec): seq<Transfer>
    decreases |xs|
  {
    if xs == [] then s
    else InsertAll(if xs[0].ok then Insert(s, Fresh(xs[0], now)) else s, xs[1..], now)
  }

  lemma {:induction false} CallbackLeavesHandleAlone(s: State, h: nat, xs: seq<Submission>)
    requires Inv(s) && Playable(s, h, xs)
    ensures var s' := SubmitAll(s, xs);
            && Inv(s') && s'.now == s.now && s'.reports == s.reports
            && On(s'.flying, h) == On(s.flying, h)
            && Off(s'.flying, h) == InsertAll(Off(s.flying, h), xs, s.now)
    decreases |xs|
  {
    if xs != [] {
      hide Inv, On, Off, Insert, Fresh;
      var x := xs[0];
      SubmitKeepsInv(s, x);
      SubmitOffHandle(s, h, x);
      CallbackLeavesHandleAlone(SubmitStep(s, x), h, xs[1..]);
    }
  }

  lemma SubmitOffHandle(s: State, h: nat, x: Submission)
    requires Inv(s) && (x.ok ==> x.request.handle != h)
    ensures var s' := SubmitStep(s, x);
            && On(s'.flying, h) == On(s.flying, h)
            && Off(s'.flying, h) == if x.ok then Insert(Off(s.flying, h), Fresh(x, s.now)) else Off(s.flying, h)
  {
    hide On, Off, Place, Sorted;
    if x.ok {
      var t := Fresh(x, s.now);
      OnInsertAt(s.flying, Place(s.flying, t), t, h);
      OffInsert(s.flying, t, h);
    }
  }

  // The loop of usbi_handle_disconnect. Round n ends the first transfer of the handle, and then its callback
  // does what callbacks[n] says, or nothing.

  function Head(callbacks: seq<seq<Submission>>): seq<Submission> {
    if callbacks == [] then [] else callbacks[0]
  }

  function Tail(callbacks: seq<seq<Submission>>): seq<seq<Submission>> {
    if callbacks == [] then [] else callbacks[1..]
  }

  function EndFirst(s: State, h: nat): State
    requires On(s.flying, h) != []
  {
    CompleteStep(s, FirstOn(s.flying, h), NoDevice)
  }

  lemma EndFirstEndsOne(s: State, h: nat)
    requires On(s.flying, h) != []
    ensures var s' := EndFirst(s, h);
            && s'.now == s.now && s'.submitted == s.submitted
            && s'.reports == s.reports + [Report(On(s.flying, h)[0], NoDevice, s.now)]
            && On(s'.flying, h) == On(s.flying, h)[1..]
            && Off(s'.flying, h) == Off(s.flying, h)
            && (Inv(s) ==> Inv(s'))
  {
    FirstOnIsFirst(s.flying, h);
    if Inv(s) {
      CompleteKeepsInv(s, FirstOn(s.flying, h), NoDevice);
    }
    hide Inv, On, Off;
  }

  /** In every round the callback submits nothing on the dead handle that the backend accepts. */
  predicate AllPlayable(s: State, h: nat, n: nat, callbacks: seq<seq<Submission>>)
    decreases n
  {
    n == 0
    || (On(s.flying, h) != [] && Playable(EndFirst(s, h), h, Head(callbacks))
        && AllPlayable(SubmitAll(EndFirst(s, h), Head(callbacks)), h, n - 1, Tail(callbacks)))
  }

  function Concat(n: nat, callbacks: seq<seq<Submission>>): seq<Submission> {
    if n == 0 then [] else Head(callbacks) + Concat(n - 1, Tail(callbacks))
  }

  lemma {:induction false} InsertAllAppend(s: seq<Transfer>, xs: seq<Submission>, ys: seq<Submission>, now: TimeSpec)
    ensures InsertAll(s, xs + ys, now) == InsertAll(InsertAll(s, xs, now), ys, now)
    decreases |xs|
  {
    if xs == [] {
      assert xs + ys == ys;
    } else {
      hide Insert, Fresh;
      InsertAllAppend(if xs[0].ok then Insert(s, Fresh(xs[0], now)) else s, xs[1..], ys, now);
      assert (xs + ys)[1..] == xs[1..] + ys;
    }
  }

  lemma {:induction false} OffAll(s: seq<Transfer>, h: nat)
    requires On(s, h) == []
    ensures Off(s, h) == s
  {
    if s != [] {
      OffAll(s[1..], h);
    }
  }

  lemma InsertNone(s: seq<Transfer>, callbacks: seq<seq<Submission>>, now: TimeSpec)
    ensures InsertAll(s, Concat(0, callbacks), now) == s
  {
  }

  lemma ReportsShift(reports: seq<Report>, on: seq<Transfer>, at: TimeSpec)
    requires on != []
    ensures reports + NoDeviceReports(on, at) == reports + [Report(on[0], NoDevice, at)] + NoDeviceReports(on[1..], at)
  {
  }

  /** One round ends one transfer and keeps the sum of what has been and what remains to be done. */
  lemma RoundKeepsPromise(s: State, h: nat, callbacks: seq<seq<Submission>>)
    requires Inv(s) && On(s.flying, h) != [] && AllPlayable(s, h, |On(s.flying, h)|, callbacks)
    ensures var (n, s') := (|On(s.flying, h)|, SubmitAll(EndFirst(s, h), Head(callbacks)));
            && Inv(s') && s'.now == s.now
            && |On(s'.flying, h)| == n - 1 && AllPlayable(s', h, n - 1, Tail(callbacks))
            && s.reports + NoDeviceReports(On(s.flying, h), s.now)
               == s'.reports + NoDeviceReports(On(s'.flying, h), s.now)
            && InsertAll(Off(s.flying, h), Concat(n, callbacks), s.now)
               == InsertAll(Off(s'.flying, h), Concat(n - 1, Tail(callbacks)), s.now)
  {
    hide Inv, On, Off, EndFirst, Playable, SubmitAll, InsertAll, Head, Tail, NoDeviceReports;
    EndFirstEndsOne(s, h);
    ReportsShift(s.reports, On(s.flying, h), s.now);
    CallbackLeavesHandleAlone(EndFirst(s, h), h, Head(callbacks));
    InsertAllAppend(Off(s.flying, h), Head(callbacks), Concat(|On(s.flying, h)| - 1, Tail(callbacks)), s.now);
  }

  // ---- the context object ----

  class Context {
    var now: TimeSpec
    var flying: seq<Transfer>
    var reports: seq<Report>
    ghost var submitted: seq<nat>

    ghost function Value(): State
      reads this
    {
      State(now, flying, submitted, reports)
    }

    /** libusb_submit_transfer: put on the list before the backend sees it, taken off if that refuses. */
    method Submit(x: Submission)
      modifies `flying, `submitted
      ensures Value() == SubmitStep(old(Value()), x)
    {
      var t := Fresh(x, now);
      var k := Place(flying, t);
      flying := InsertAt(flying, k, t);
      if !x.ok {
        RemoveInverts(old(flying), k, t);
        flying := RemoveAt(flying, k);
      } else {
        submitted := submitted + [x.request.id];
      }
    }

    /** The user's callback. */
    method Callback(xs: seq<Submission>)
      modifies `flying, `submitted
      ensures Value() == SubmitAll(old(Value()), xs)
    {
      hide SubmitStep;
      var i := 0;
      while i < |xs|
        invariant 0 <= i <= |xs|
        invariant SubmitAll(old(Value()), xs) == SubmitAll(Value(), xs[i..])
        invariant now == old(now) && reports == old(reports)
      {
        Submit(xs[i]);
        assert xs[i..][1..] == xs[i + 1..];
        i := i + 1;
      }
    }

    /** usbi_handle_transfer_completion. */
    method HandleCompletion(k: nat, status: TransferStatus, callback: seq<Submission>)
      requires k < |flying|
      modifies this
      ensures Value() == SubmitAll(CompleteStep(old(Value()), k, status), callback)
    {
      var t := flying[k];
      flying := RemoveAt(flying, k);
      reports := reports + [Report(t, FinalStatus(t, status), now)];
      assert Value() == CompleteStep(old(Value()), k, status);
      hide *;
      Callback(callback);
    }

    /** usbi_handle_transfer_cancellation. */
    method HandleCancellation(k: nat, callback: seq<Submission>)
      requires k < |flying|
      modifies this
      ensures Value() == SubmitAll(Step(old(Value()), CancelDone(k)), callback)
    {
      hide CompleteStep, SubmitAll;
      if flying[k].timedOut {
        HandleCompletion(k, TimedOut, callback);
      } else {
        HandleCompletion(k, TransferStatus.Cancelled, callback);
      }
    }

    /** The first transfer of the handle on the list, if there is one. */
    method FindOn(h: nat) returns (k: nat)
      ensures On(flying, h) == [] ==> k == |flying|
      ensures On(flying, h) != [] ==> k == FirstOn(flying, h)
    {
      k := 0;
      while k < |flying| && flying[k].request.handle != h
        invariant k <= |flying|
        invariant On(flying, h) == On(flying[k..], h)
        invariant On(flying, h) != [] ==> FirstOn(flying, h) == k + FirstOn(flying[k..], h)
      {
        assert flying[k..][1..] == flying[k + 1..];
        k := k + 1;
      }
    }

    /** usbi_handle_disconnect. Main result: every transfer of the handle is told, in list order and once,
        that there is no device; the others stay in flight in their order, with what the callbacks submit
        put in its place; and if no callback gets a transfer accepted on the dead handle, the loop ends. */
    method HandleDisconnect(h: nat, callbacks: seq<seq<Submission>>)
      requires Inv(Value()) && AllPlayable(Value(), h, |On(flying, h)|, callbacks)
      modifies this
      ensures Inv(Value()) && now == old(now)
      ensures reports == old(reports) + NoDeviceReports(On(old(flying), h), now)
      ensures On(flying, h) == []
      ensures flying == InsertAll(Off(old(flying), h), Concat(|On(old(flying), h)|, callbacks), now)
    {
      hide Inv, InsertAll, Off, SubmitAll, CompleteStep, AllPlayable, Head, Tail;
      var rest := callbacks;
      while true
        invariant Inv(Value()) && now == old(now)
        invariant AllPlayable(Value(), h, |On(flying, h)|, rest)
        invariant old(reports) + NoDeviceReports(On(old(flying), h), now)
                  == reports + NoDeviceReports(On(flying, h), now)
        invariant InsertAll(Off(old(flying), h), Concat(|On(old(flying), h)|, callbacks), now)
                  == InsertAll(Off(flying, h), Concat(|On(flying, h)|, rest), now)
        decreases |On(flying, h)|
      {
        var k := FindOn(h);
        if k == |flying| {
          break;
        }
        RoundKeepsPromise(Value(), h, rest);
        HandleCompletion(k, NoDevice, Head(rest));
        rest := Tail(rest);
      }
      OffAll(flying, h);
      InsertNone(flying, rest, now);
    }
  }
}
