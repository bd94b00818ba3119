/** Reference counts of devices: who holds a reference, when a device is destroyed, and what listing the
    devices does to the counts. */
module DeviceRefs {
  import opened Wrappers

  /** A device goes by its session number, which finds it again in the context's list. */
  type Device = nat

  /** refcnt has the devices that exist. A holder is the application itself, a device list it was given, an
      unfinished discovery, or an open handle; its sequence has one entry for every reference it holds. */
  datatype State = State(refcnt: map<Device, int>, usbDevs: seq<Device>, holders: seq<seq<Device>>)

  function Occurrences(s: seq<Device>, d: Device): nat {
    if s == [] then 0 else (if s[0] == d then 1 else 0) + Occurrences(s[1..], d)
  }

  function Total(holders: seq<seq<Device>>, d: Device): nat {
    if holders == [] then 0 else Occurrences(holders[0], d) + Total(holders[1..], d)
  }

  function RefOf(s: State, d: Device): int {
    if d in s.refcnt then s.refcnt[d] else 0
  }

  function Without(s: seq<Device>, d: Device): seq<Device> {
    if s == [] then [] else if s[0] == d then s[1..] else [s[0]] + Without(s[1..], d)
  }

  function Removed(s: seq<Device>, k: nat): seq<Device>
    requires k < |s|
  {
    s[..k] + s[k + 1..]
  }

  // ---- the primitive steps ----

  datatype Event =
    | Ref(h: nat, d: Device)
    | Unref(h: nat, k: nat)
    | Alloc(h: nat, d: Device)
    | NewHolder
    | Pass(h: nat, to: nat)

  /** Only a device that exists can be referenced, and only its holder gives a reference up. */
  predicate Enabled(s: State, e: Event) {
    match e
    case Ref(h, d) => h < |s.holders| && d in s.refcnt
    case Unref(h, k) => h < |s.holders| && k < |s.holders[h]| && s.holders[h][k] in s.refcnt
    case Alloc(h, d) => h < |s.holders| && d !in s.refcnt
    case NewHolder => true
    case Pass(h, to) => h < |s.holders| && to < |s.holders| && h != to
  }

  /** libusb_unref_device: at zero the device is taken off the list and freed. */
  function Drop(s: State, d: Device): State
    requires d in s.refcnt
  {
    var n := s.refcnt[d] - 1;
    if n == 0 then s.(refcnt := s.refcnt - {d}, usbDevs := Without(s.usbDevs, d))
    else s.(refcnt := s.refcnt[d := n])
  }

  function Hold(s: State, h: nat, devices: seq<Device>): State
    requires h < |s.holders|
  {
    s.(holders := s.holders[h := devices])
  }

  function Step(s: State, e: Event): State
    requires Enabled(s, e)
  {
    match e
    case Ref(h, d) => Hold(s.(refcnt := s.refcnt[d := s.refcnt[d] + 1]), h, s.holders[h] + [d])
    case Unref(h, k) => Hold(Drop(s, s.holders[h][k]), h, Removed(s.holders[h], k))
    case Alloc(h, d) =>
      Hold(s.(refcnt := s.refcnt[d := 1], usbDevs := [d] + s.usbDevs), h, s.holders[h] + [d])
    case NewHolder => s.(holders := s.holders + [[]])
    case Pass(h, to) => s.(holders := s.holders[to := s.holders[to] + s.holders[h]][h := []])
  }

  // ---- the invariant ----

  /** The count is the number of references held; the device exists, and is on the list, once, while there
      are any. */
  predicate Counted(s: State, d: Device) {
    && RefOf(s, d) == Total(s.holders, d)
    && (d in s.refcnt <==> Total(s.holders, d) > 0)
    && Occurrences(s.usbDevs, d) == if d in s.refcnt then 1 else 0
  }

  ghost predicate Inv(s: State) {
    forall d: Device :: Counted(s, d)
  }

  lemma {:induction false} OccurrencesAppend(s: seq<Device>, t: seq<Device>, d: Device)
    ensures Occurrences(s + t, d) == Occurrences(s, d) + Occurrences(t, d)
  {
    if s == [] {
      assert s + t == t;
    } else {
      OccurrencesAppend(s[1..], t, d);
      assert (s + t)[1..] == s[1..] + t;
    }
  }

  lemma OccurrencesRemoved(s: seq<Device>, k: nat, d: Device)
    requires k < |s|
    ensures Occurrences(Removed(s, k), d) == Occurrences(s, d) - if s[k] == d then 1 else 0
    ensures s[k] == d ==> Occurrences(s, d) > 0
  {
    OccurrencesAppend(s[..k], s[k + 1..], d);
    OccurrencesAppend(s[..k], s[k..], d);
    assert s == s[..k] + s[k..];
    assert s[k..][1..] == s[k + 1..];
  }

  lemma {:induction false} OccurrencesWithout(s: seq<Device>, d: Device, d': Device)
    ensures Occurrences(Without(s, d), d')
            == Occurrences(s, d') - if d == d' && Occurrences(s, d) > 0 then 1 else 0
  {
    if s != [] && s[0] != d {
      OccurrencesWithout(s[1..], d, d');
    }
  }

  lemma {:induction false} TotalUpdate(holders: seq<seq<Device>>, h: nat, devices: seq<Device>, d: Device)
    requires h < |holders|
    ensures Total(holders[h := devices], d) == Total(holders, d) - Occurrences(holders[h], d) + Occurrences(devices, d)
    ensures Occurrences(holders[h], d) <= Total(holders, d)
  {
    var r := holders[h := devices];
    if h == 0 {
      assert r[1..] == holders[1..];
    } else {
      TotalUpdate(holders[1..], h - 1, devices, d);
      assert r[1..] == holders[1..][h - 1 := devices];
    }
  }

  lemma {:induction false} TotalAppend(holders: seq<seq<Device>>, devices: seq<Device>, d: Device)
    ensures Total(holders + [devices], d) == Total(holders, d) + Occurrences(devices, d)
  {
    if holders != [] {
      TotalAppend(holders[1..], devices, d);
      assert (holders + [devices])[1..] == holders[1..] + [devices];
    }
  }

  /** How a step changes the references to one device. */
  function Gain(s: State, e: Event, d: Device): int
    requires Enabled(s, e)
  {
    match e
    case Ref(_, x) => if x == d then 1 else 0
    case Unref(h, k) => if s.holders[h][k] == d then -1 else 0
    case Alloc(_, x) => if x == d then 1 else 0
    case NewHolder => 0
    case Pass(_, _) => 0
  }

  lemma StepTotal(s: State, e: Event, d: Device)
    requires Enabled(s, e)
    ensures Total(Step(s, e).holders, d) == Total(s.holders, d) + Gain(s, e, d)
  {
    match e
    case Ref(h, x) =>
      TotalUpdate(s.holders, h, s.holders[h] + [x], d);
      OccurrencesAppend(s.holders[h], [x], d);
    case Unref(h, k) =>
      TotalUpdate(s.holders, h, Removed(s.holders[h], k), d);
      OccurrencesRemoved(s.holders[h], k, d);
    case Alloc(h, x) =>
      TotalUpdate(s.holders, h, s.holders[h] + [x], d);
      OccurrencesAppend(s.holders[h], [x], d);
    case NewHolder => TotalAppend(s.holders, [], d);
    case Pass(h, to) =>
      var holders := s.holders[to := s.holders[to] + s.holders[h]];
      TotalUpdate(s.holders, to, s.holders[to] + s.holders[h], d);
      OccurrencesAppend(s.holders[to], s.holders[h], d);
      TotalUpdate(holders, h, [], d);
  }

  /** Main result, one step and one device at a time. */
  lemma StepKeepsCounted(s: State, e: Event, d: Device)
    requires Enabled(s, e) && Counted(s, d)
    ensures Counted(Step(s, e), d)
    ensures RefOf(Step(s, e), d) == RefOf(s, d) + Gain(s, e, d)
  {
    StepTotal(s, e, d);
    hide Total;
    if e.Unref? {
      OccurrencesWithout(s.usbDevs, s.holders[e.h][e.k], d);
    }
  }

  lemma StepKeepsInv(s: State, e: Event)
    requires Inv(s) && Enabled(s, e)
    ensures Inv(Step(s, e))
  {
    hide Counted, Step, Enabled;
    forall d: Device ensures Counted(Step(s, e), d) {
      assert Counted(s, d);
      StepKeepsCounted(s, e, d);
    }
  }

  /** Whoever holds a reference holds a device that still exists. */
  lemma HeldDevicesExist(s: State, h: nat, k: nat)
    requires Inv(s) && h < |s.holders| && k < |s.holders[h]|
    ensures s.holders[h][k] in s.refcnt && Enabled(s, Unref(h, k))
  {
    var d := s.holders[h][k];
    OccurrencesRemoved(s.holders[h], k, d);
    TotalUpdate(s.holders, h, [], d);
    assert Counted(s, d);
  }

  /** The holders determine every count. */
  lemma CountsFollowHolders(s: State, d: Device)
    requires Inv(s)
    ensures RefOf(s, d) == Total(s.holders, d) && (d in s.refcnt <==> RefOf(s, d) > 0)
    ensures d in s.usbDevs <==> d in s.refcnt
  {
    assert Counted(s, d);
    OccursIff(s.usbDevs, d);
  }

  lemma {:induction false} OccursIff(s: seq<Device>, d: Device)
    ensures d in s <==> Occurrences(s, d) > 0
  {
    if s != [] {
      OccursIff(s[1..], d);
    }
  }

  // ---- runs ----

  predicate CanRun(s: State, es: seq<Event>)
    decreases |es|
  {
    es == [] || (Enabled(s, es[0]) && CanRun(Step(s, es[0]), es[1..]))
  }

  function Run(s: State, es: seq<Event>): State
    requires CanRun(s, es)
    decreases |es|
  {
    if es == [] then s else Run(Step(s, es[0]), es[1..])
  }

  predicate Init(s: State) {
    s == State(map[], [], [[]])
  }

  lemma InitInv(s: State)
    requires Init(s)
    ensures Inv(s)
  {
    forall d: Device ensures Counted(s, d) {
      assert s.holders[1..] == [];
    }
  }

  lemma {:induction false} RunKeepsInv(s: State, es: seq<Event>)
    requires Inv(s) && CanRun(s, es)
    ensures Inv(Run(s, es))
    decreases |es|
  {
    if es != [] {
      hide Inv, Step, Enabled;
      StepKeepsInv(s, es[0]);
      RunKeepsInv(Step(s, es[0]), es[1..]);
    }
  }

  /** Main result: in every reachable state the count of a device is the number of references to it that the
      application, device lists, discoveries and open handles hold, and the device is on the context's list
      exactly if that is positive. */
  lemma CountIsHolders(s: State, es: seq<Event>, d: Device)
    requires Init(s) && CanRun(s, es)
    ensures var s' := Run(s, es);
            && RefOf(s', d) == Total(s'.holders, d)
            && (d in s'.usbDevs <==> RefOf(s', d) > 0)
            && (d in s'.usbDevs <==> d in s'.refcnt)
  {
    InitInv(s);
    RunKeepsInv(s, es);
    CountsFollowHolders(Run(s, es), d);
  }

  // ---- growing collections ----

  const SIZE_STEP := 8

  /** The room a collection of n devices has: as much as it was allocated with, or as many steps as it takes. */
  function RoomFor(n: nat): nat {
    if n == 0 then SIZE_STEP else (n + SIZE_STEP - 1) / SIZE_STEP * SIZE_STEP
  }

  /** discovered_devs: a block of memory with room for some devices. Growing it moves it to another block, and
      frees the old one. */
  class DiscoveredDevs {
    const capacity: nat
    const devices: array<Device>
    var len: nat
    ghost var freed: bool

    ghost predicate Valid()
      reads this
    {
      len <= capacity == devices.Length && capacity == RoomFor(len)
    }

    ghost function Contents(): (c: seq<Device>)
      requires Valid()
      reads this, devices
      ensures |c| == len
    {
      devices[..len]
    }

    /** discovered_devs_alloc. */
    constructor ()
      ensures Valid() && Contents() == [] && fresh(devices) && !freed
    {
      len, capacity := 0, SIZE_STEP;
      devices := new Device[SIZE_STEP];
      freed := false;
    }

    /** A bigger block with the contents of another one. */
    constructor Grown(other: DiscoveredDevs)
      requires other.Valid() && other.len == other.capacity
      ensures capacity == other.capacity + SIZE_STEP && devices.Length == capacity && len == other.len
      ensures devices[..len] == other.Contents() && fresh(devices) && !freed
    {
      capacity := other.capacity + SIZE_STEP;
      devices := new Device[other.capacity + SIZE_STEP];
      len := other.len;
      freed := false;
      new;
      for i := 0 to len
        invariant devices[..i] == other.devices[..i]
        modifies devices
      {
        devices[i] := other.devices[i];
      }
    }

    /** The part of discovered_devs_append that stores a device: in this block if there is room, else in a
        bigger one that takes its place. */
    method Store(d: Device) returns (r: DiscoveredDevs)
      requires Valid() && !freed
      modifies this, devices
      ensures r.Valid() && !r.freed && r.Contents() == old(Contents()) + [d]
      ensures r == this || (fresh(r) && fresh(r.devices))
      ensures freed <==> r != this
      ensures r != this <==> RoomFor(old(len) + 1) != capacity
    {
      if len < capacity {
        devices[len] := d;
        len := len + 1;
        return this;
      }
      r := new DiscoveredDevs.Grown(this);
      freed := true;
      r.devices[r.len] := d;
      r.len := r.len + 1;
    }
  }

  /** Always room for all, in steps of eight, and never eight places too many but at the beginning. */
  lemma RoomIsEnough(n: nat)
    ensures n <= RoomFor(n) && RoomFor(n) % 8 == 0 && RoomFor(n) < (if n == 0 then 1 else n) + 8
  {
    if n > 0 {
      var q := (n + 7) / 8;
      assert q * 8 % 8 == 0;
    }
  }

  lemma RoomGrows(m: nat, n: nat)
    requires m <= n
    ensures RoomFor(m) <= RoomFor(n)
  {
  }

  // ---- the context object ----

  /** A device the backend comes across; initOk says whether a new one passes its checks. */
  datatype Found = Found(session: Device, initOk: bool)

  function Sessions(found: seq<Found>): (s: seq<Device>)
    ensures |s| == |found|
  {
    if found == [] then [] else [found[0].session] + Sessions(found[1..])
  }

  /** How many of the devices found are enumerated before the first that fails: one that is not known and does
      not pass its checks. */
  function Reached(found: seq<Found>, known: seq<Device>): (n: nat)
    ensures n <= |found|
  {
    if found == [] || (found[0].session !in known && !found[0].initOk) then 0
    else 1 + Reached(found[1..], known + [found[0].session])
  }

  lemma {:induction false} SessionsNext(found: seq<Found>, n: nat)
    requires n < |found|
    ensures Sessions(found[..n + 1]) == Sessions(found[..n]) + [found[n].session]
  {
    if n > 0 {
      SessionsNext(found[1..], n - 1);
      assert found[..n + 1][1..] == found[1..][..n] && found[..n][1..] == found[1..][..n - 1];
    }
  }

  /** One more device is reached if it is known by then, or passes its checks. */
  lemma {:induction false} ReachedNext(found: seq<Found>, known: seq<Device>, n: nat)
    requires n < |found| && n <= Reached(found, known)
    ensures n < Reached(found, known)
       <==> found[n].session in known || found[n].session in Sessions(found[..n]) || found[n].initOk
  {
    if n > 0 {
      ReachedNext(found[1..], known + [found[0].session], n - 1);
      assert found[..n][1..] == found[1..][..n - 1];
    }
  }

  /** What membership in the known devices decides does not depend on how they are listed. */
  lemma {:induction false} ReachedSame(found: seq<Found>, known: seq<Device>, known': seq<Device>)
    requires forall d: Device :: d in known <==> d in known'
    ensures Reached(found, known) == Reached(found, known')
  {
    if found != [] {
      ReachedSame(found[1..], known + [found[0].session], known' + [found[0].session]);
    }
  }

  /** Scanning one part after the other. */
  lemma {:induction false} ReachedAppend(a: seq<Found>, b: seq<Found>, known: seq<Device>)
    ensures var n := Reached(a, known);
            Reached(a + b, known) == if n < |a| then n else |a| + Reached(b, known + Sessions(a))
  {
    if a == [] {
      assert a + b == b && known + Sessions(a) == known;
    } else {
      var f := a[0];
      ReachedAppend(a[1..], b, known + [f.session]);
      assert (a + b)[0] == f && (a + b)[1..] == a[1..] + b;
      assert known + [f.session] + Sessions(a[1..]) == known + Sessions(a);
    }
  }

  lemma {:induction false} SessionsAppend(a: seq<Found>, b: seq<Found>)
    ensures Sessions(a + b) == Sessions(a) + Sessions(b)
  {
    if a == [] {
      assert a + b == b;
    } else {
      var (first, rest, behind) := ([a[0].session], Sessions(a[1..]), Sessions(b));
      SessionsAppend(a[1..], b);
      assert (a + b)[0] == a[0] && (a + b)[1..] == a[1..] + b;
      assert Sessions(a) == first + rest && Sessions(a + b) == first + (rest + behind);
      hide Sessions;
      assert first + (rest + behind) == first + rest + behind;
    }
  }

  /** The devices of several buses, and where the bus of the n-th of them begins. */
  function Flatten(buses: seq<seq<Found>>): seq<Found> {
    if buses == [] then [] else buses[0] + Flatten(buses[1..])
  }

  function BusStart(buses: seq<seq<Found>>, n: nat): (start: nat)
    ensures start <= n
  {
    if buses == [] || n < |buses[0]| then 0 else |buses[0]| + BusStart(buses[1..], n - |buses[0]|)
  }

  /** The collection has grown on the bus of the n-th device. */
  predicate GrewOnBus(buses: seq<seq<Found>>, n: nat) {
    RoomFor(BusStart(buses, n)) != RoomFor(n)
  }

  /** On a single bus that is when more devices than were allowed for came before the one that fails. */
  lemma SingleBusGrewIff(bus: seq<Found>, known: seq<Device>)
    requires Reached(bus, known) < |bus|
    ensures GrewOnBus([bus], Reached(bus, known)) <==> Reached(bus, known) > 8
  {
  }

  lemma {:induction false} AllReached(found: seq<Found>, known: seq<Device>)
    requires forall i :: 0 <= i < |found| ==> found[i].initOk
    ensures Reached(found, known) == |found|
  {
    if found != [] {
      AllReached(found[1..], known + [found[0].session]);
    }
  }

  lemma {:induction false} InSessions(found: seq<Found>, d: Device)
    ensures d in Sessions(found) ==> exists i :: 0 <= i < |found| && found[i].session == d
  {
    if found != [] {
      InSessions(found[1..], d);
    }
  }

  /** Nine new devices that pass their checks and a tenth that does not are such a bus. */
  lemma TenthDeviceFails(bus: seq<Found>)
    requires |bus| == 10 && forall i :: 0 <= i < 10 ==> bus[i] == Found(i, i < 9)
    ensures Reached(bus, []) == 9 && GrewOnBus([bus], 9)
  {
    assert bus == bus[..9] + [bus[9]];
    AllReached(bus[..9], []);
    ReachedAppend(bus[..9], [bus[9]], []);
    InSessions(bus[..9], 9);
    assert [bus[9]][0] == Found(9, false);
    SingleBusGrewIff(bus, []);
  }

  lemma FirstBus(buses: seq<seq<Found>>, b: nat)
    requires b < |buses|
    ensures Flatten(buses[b..]) == buses[b] + Flatten(buses[b + 1..])
    ensures forall n: nat :: n < |buses[b]| ==> BusStart(buses[b..], n) == 0
    ensures forall n: nat :: n >= |buses[b]| ==>
              BusStart(buses[b..], n) == |buses[b]| + BusStart(buses[b + 1..], n - |buses[b]|)
  {
    assert buses[b..][0] == buses[b] && buses[b..][1..] == buses[b + 1..];
  }

  lemma NoSessions()
    ensures Sessions([]) == []
  {
  }

  /** While a collection is being filled, the devices known are those of before and those added to it. */
  lemma KnownDevices(before: State, s: State, h: nat, added: seq<Device>, d: Device)
    requires Inv(before) && Inv(s) && h < |before.holders|
    requires s.holders == before.holders[h := before.holders[h] + added]
    ensures d in s.usbDevs <==> d in before.usbDevs || d in added
  {
    CountsFollowHolders(before, d);
    CountsFollowHolders(s, d);
    TotalUpdate(before.holders, h, before.holders[h] + added, d);
    OccurrencesAppend(before.holders[h], added, d);
    OccursIff(added, d);
  }

  /** A new list among the holders adds one to the count of a device for each time it is listed. */
  lemma NetOnePerEntry(before: State, s: State, list: seq<Device>)
    requires Inv(before) && Inv(s) && s.holders == before.holders + [[], [], list]
    ensures forall d: Device :: RefOf(s, d) == RefOf(before, d) + Occurrences(list, d)
  {
    hide Inv;
    forall d: Device ensures RefOf(s, d) == RefOf(before, d) + Occurrences(list, d) {
      CountsFollowHolders(before, d);
      CountsFollowHolders(s, d);
      TotalAppend(before.holders, [], d);
      TotalAppend(before.holders + [[]], [], d);
      TotalAppend(before.holders + [[]] + [[]], list, d);
      assert before.holders + [[]] + [[]] + [list] == s.holders;
    }
  }

  /** Where the devices are read from, and what is found there. */
  datatype Backend = Sysfs(found: seq<Found>) | Usbfs(buses: seq<seq<Found>>)
  {
    function All(): seq<Found> {
      if Sysfs? then found else Flatten(buses)
    }
  }

  lemma AllOf(backend: Backend)
    ensures backend.All() == if backend.Sysfs? then backend.found else Flatten(backend.buses)
  {
  }

  datatype Listing = Listed(list: seq<Device>) | Failed | Freed

  class Context {
    var refcnt: map<Device, int>
    var usbDevs: seq<Device>
    ghost var holders: seq<seq<Device>>

    ghost function View(): State
      reads this
    {
      State(refcnt, usbDevs, holders)
    }

    /** libusb_ref_device, on behalf of holder h. */
    method RefDevice(d: Device, ghost h: nat)
      requires Inv(View()) && Enabled(View(), Ref(h, d))
      modifies this
      ensures Inv(View()) && View() == Step(old(View()), Ref(h, d))
    {
      hide Inv;
      StepKeepsInv(View(), Ref(h, d));
      refcnt := refcnt[d := refcnt[d] + 1];
      holders := holders[h := holders[h] + [d]];
    }

    /** libusb_unref_device, for reference k of holder h. */
    method UnrefDevice(d: Device, ghost h: nat, ghost k: nat)
      requires Inv(View()) && h < |holders| && k < |holders[h]| && holders[h][k] == d
      modifies this
      ensures Inv(View()) && Enabled(old(View()), Unref(h, k)) && View() == Step(old(View()), Unref(h, k))
    {
      hide Inv;
      HeldDevicesExist(View(), h, k);
      StepKeepsInv(View(), Unref(h, k));
      var n := refcnt[d] - 1;
      holders := holders[h := Removed(holders[h], k)];
      if n == 0 {
        usbDevs := Without(usbDevs, d);
        refcnt := refcnt - {d};
      } else {
        refcnt := refcnt[d := n];
      }
    }

    /** usbi_alloc_device. */
    method AllocDevice(d: Device, ghost h: nat)
      requires Inv(View()) && Enabled(View(), Alloc(h, d))
      modifies this
      ensures Inv(View()) && View() == Step(old(View()), Alloc(h, d))
    {
      hide Inv;
      StepKeepsInv(View(), Alloc(h, d));
      refcnt := refcnt[d := 1];
      usbDevs := [d] + usbDevs;
      holders := holders[h := holders[h] + [d]];
    }

    ghost method AddHolder()
      requires Inv(View())
      modifies `holders
      ensures Inv(View()) && holders == old(holders) + [[]]
    {
      StepKeepsInv(View(), NewHolder);
      holders := holders + [[]];
    }

    /** discovered_devs_append. */
    method Append(discdevs: DiscoveredDevs, d: Device, ghost h: nat) returns (r: DiscoveredDevs)
      requires Inv(View()) && Enabled(View(), Ref(h, d))
      requires discdevs.Valid() && !discdevs.freed && discdevs.Contents() == holders[h]
      modifies this, discdevs, discdevs.devices
      ensures Inv(View()) && holders == old(holders)[h := old(holders[h]) + [d]] && d in refcnt
      ensures r.Valid() && !r.freed && r.Contents() == holders[h]
      ensures r == discdevs || (fresh(r) && fresh(r.devices))
      ensures discdevs.freed <==> r != discdevs
      ensures r != discdevs <==> RoomFor(|holders[h]|) != RoomFor(|old(holders[h])|)
    {
      hide Inv, RoomFor;
      RefDevice(d, h);
      r := discdevs.Store(d);
    }

    /** Adding a device the backend has found to a collection, as enumerate_device does: a new device lives
        on the reference of its discoverer, holder h + 1, until the collection has its own. */
    method Enumerate(discdevs: DiscoveredDevs, f: Found, ghost h: nat) returns (ok: bool, r: DiscoveredDevs)
      requires Inv(View()) && |holders| == h + 2 && holders[h + 1] == []
      requires discdevs.Valid() && !discdevs.freed && discdevs.Contents() == holders[h]
      modifies this, discdevs, discdevs.devices
      ensures Inv(View())
      ensures ok <==> f.session in old(usbDevs) || f.initOk
      ensures holders == if ok then old(holders)[h := old(holders[h]) + [f.session]] else old(holders)
      ensures r.Valid() && !r.freed && r.Contents() == holders[h]
      ensures r == discdevs || (fresh(r) && fresh(r.devices))
      ensures discdevs.freed <==> r != discdevs
      ensures r != discdevs <==> RoomFor(|holders[h]|) != RoomFor(|old(holders[h])|)
    {
      hide Inv, RoomFor;
      CountsFollowHolders(View(), f.session);
      if f.session in usbDevs {
        r := Append(discdevs, f.session, h);
        return true, r;
      }
      AllocDevice(f.session, h + 1);
      ok, r := f.initOk, discdevs;
      if ok {
        r := Append(discdevs, f.session, h);
      }
      UnrefDevice(f.session, h + 1, 0);
    }

    /** A scan: enumerates one device after another and stops at the first that fails. Holder h is the collection,
        holder h + 1 the discoverer. sysfs_get_device_list is such a scan, and hands the collection back also if
        it fails. */
    method ScanEntries(discdevs: DiscoveredDevs, found: seq<Found>, ghost h: nat)
      returns (ok: bool, r: DiscoveredDevs)
      requires Inv(View()) && |holders| == h + 2 && holders[h + 1] == []
      requires discdevs.Valid() && !discdevs.freed && discdevs.Contents() == holders[h]
      modifies this, discdevs, discdevs.devices
      ensures Inv(View())
      ensures var n := Reached(found, old(usbDevs));
              && (ok <==> n == |found|)
              && holders == old(holders)[h := old(holders[h]) + Sessions(found[..n])]
              && forall d :: d in usbDevs <==> d in old(usbDevs) || d in Sessions(found[..n])
      ensures r.Valid() && !r.freed && r.Contents() == holders[h]
      ensures r == discdevs || (fresh(r) && fresh(r.devices))
      ensures discdevs.freed <==> r != discdevs
      ensures r != discdevs <==> RoomFor(|holders[h]|) != RoomFor(|old(holders[h])|)
    {
      hide Inv, RoomFor, Sessions, Reached;
      ok, r := true, discdevs;
      var n := 0;
      ghost var known, start := usbDevs, holders[h];
      assert start + [] == start;
      NoSessions();
      while ok && n < |found|
        invariant n <= |found| && n <= Reached(found, known) && Inv(View())
        invariant !ok ==> n == Reached(found, known) < |found|
        invariant holders == old(holders)[h := start + Sessions(found[..n])]
        invariant r.Valid() && !r.freed && r.Contents() == holders[h]
        invariant r == discdevs || (fresh(r) && fresh(r.devices))
        invariant discdevs.freed <==> r != discdevs
        invariant r != discdevs <==> RoomFor(|holders[h]|) != RoomFor(|start|)
        decreases |found| - n, ok
      {
        KnownDevices(old(View()), View(), h, Sessions(found[..n]), found[n].session);
        ReachedNext(found, known, n);
        SessionsNext(found, n);
        RoomGrows(|start|, |start| + n);
        RoomGrows(|start| + n, |start| + n + 1);
        assert start + Sessions(found[..n + 1]) == start + Sessions(found[..n]) + [found[n].session];
        ok, r := Enumerate(r, found[n], h);
        if ok {
          n := n + 1;
        }
      }
      assert found[..|found|] == found;
      forall d ensures d in usbDevs <==> d in old(usbDevs) || d in Sessions(found[..n]) {
        KnownDevices(old(View()), View(), h, Sessions(found[..n]), d);
      }
    }

    /** usbfs_scan_busdir: hands the collection back only if the whole bus has been scanned. */
    method ScanBus(discdevs: DiscoveredDevs, found: seq<Found>, ghost h: nat) returns (ok: bool, r: DiscoveredDevs)
      requires Inv(View()) && |holders| == h + 2 && holders[h + 1] == []
      requires discdevs.Valid() && !discdevs.freed && discdevs.Contents() == holders[h]
      modifies this, discdevs, discdevs.devices
      ensures Inv(View())
      ensures var n := Reached(found, old(usbDevs));
              && (ok <==> n == |found|)
              && holders == old(holders)[h := old(holders[h]) + Sessions(found[..n])]
              && forall d :: d in usbDevs <==> d in old(usbDevs) || d in Sessions(found[..n])
      ensures r.freed <==> !ok && RoomFor(|holders[h]|) != RoomFor(|old(holders[h])|)
      ensures !r.freed ==> r.Valid() && r.Contents() == holders[h]
      ensures r == discdevs || (fresh(r) && fresh(r.devices))
    {
      hide Inv, RoomFor, Sessions, Reached;
      ok, r := ScanEntries(discdevs, found, h);
      if !ok {
        r := discdevs;
      }
    }

    /** usbfs_get_device_list: one bus after another. Main result: the collection it hands back has been freed
        exactly if a bus fails on which the collection has grown. */
    method ScanBuses(discdevs: DiscoveredDevs, buses: seq<seq<Found>>, ghost h: nat)
      returns (ok: bool, r: DiscoveredDevs)
      requires Inv(View()) && |holders| == h + 2 && holders[h + 1] == [] && holders[h] == []
      requires discdevs.Valid() && !discdevs.freed && discdevs.Contents() == []
      modifies this, discdevs, discdevs.devices
      ensures Inv(View())
      ensures var (all, n) := (Flatten(buses), Reached(Flatten(buses), old(usbDevs)));
              && (ok <==> n == |all|)
              && holders == old(holders)[h := Sessions(all[..n])]
              && (r.freed <==> !ok && GrewOnBus(buses, n))
      ensures !r.freed ==> r.Valid() && r.Contents() == holders[h]
      ensures r == discdevs || (fresh(r) && fresh(r.devices))
    {
      hide Inv, RoomFor, Sessions, Reached, Flatten, BusStart;
      ok, r := true, discdevs;
      var b := 0;
      ghost var all, n := Flatten(buses), Reached(Flatten(buses), usbDevs);
      ghost var done: seq<Found> := [];
      NoSessions();
      assert done + all == all && buses[0..] == buses;
      while ok && b < |buses|
        invariant b <= |buses| && Inv(View())
        invariant ok ==> all == done + Flatten(buses[b..]) && n == |done| + Reached(Flatten(buses[b..]), usbDevs)
        invariant ok ==> BusStart(buses, n) == |done| + BusStart(buses[b..], n - |done|)
        invariant ok ==> holders == old(holders)[h := Sessions(done)] && !r.freed
        invariant !ok ==> n < |all| && holders == old(holders)[h := Sessions(all[..n])]
        invariant !ok ==> (r.freed <==> GrewOnBus(buses, n))
        invariant !r.freed ==> r.Valid() && r.Contents() == holders[h]
        invariant r == discdevs || (fresh(r) && fresh(r.devices))
        decreases |buses| - b
      {
        var bus := buses[b];
        ghost var before, after := usbDevs, Flatten(buses[b + 1..]);
        ghost var m := Reached(bus, before);
        FirstBus(buses, b);
        ReachedAppend(bus, after, before);
        ok, r := ScanBus(r, bus, h);
        SessionsAppend(done, bus[..m]);
        if ok {
          assert bus[..m] == bus;
          ReachedSame(after, before + Sessions(bus), usbDevs);
          assert done + (bus + after) == done + bus + after;
          done := done + bus;
        } else {
          assert n == |done| + m && all[..n] == done + bus[..m];
        }
        b := b + 1;
      }
      if ok {
        NoBuses(buses, usbDevs);
        assert done + [] == done && all[..n] == all;
      }
    }

    /** The loop of libusb_get_device_list that fills the list to be returned. */
    method CopyOut(discdevs: DiscoveredDevs, ghost h: nat, ghost to: nat) returns (list: seq<Device>)
      requires Inv(View()) && h < |holders| && to < |holders| && h != to && holders[to] == []
      requires discdevs.Valid() && discdevs.Contents() == holders[h]
      modifies this
      ensures Inv(View()) && list == discdevs.Contents() && holders == old(holders)[to := list]
    {
      hide Inv;
      list := [];
      for i := 0 to discdevs.len
        invariant Inv(View()) && list == discdevs.Contents()[..i] && holders == old(holders)[to := list]
      {
        HeldDevicesExist(View(), h, i);
        RefDevice(discdevs.devices[i], to);
        list := list + [discdevs.devices[i]];
      }
    }

    /** Gives up, front to back, all references of a holder: discovered_devs_free, and
        libusb_free_device_list with unref_devices set. */
    method UnrefAll(list: seq<Device>, ghost h: nat)
      requires Inv(View()) && h < |holders| && holders[h] == list
      modifies this
      ensures Inv(View()) && holders == old(holders)[h := []]
    {
      hide Inv;
      for i := 0 to |list|
        invariant Inv(View()) && holders == old(holders)[h := list[i..]]
      {
        assert Removed(list[i..], 0) == list[i + 1..];
        UnrefDevice(list[i], h, 0);
      }
    }

    /** The end of libusb_get_device_list: copy the list out if all went well, and free the collection. */
    method Finish(discdevs: DiscoveredDevs, ok: bool, ghost h: nat) returns (list: seq<Device>)
      requires Inv(View()) && |holders| == h + 2 && holders[h + 1] == []
      requires discdevs.Valid() && discdevs.Contents() == holders[h]
      modifies this
      ensures Inv(View()) && list == if ok then old(holders[h]) else []
      ensures holders == old(holders)[h := []] + [list]
    {
      hide Inv;
      AddHolder();
      list := [];
      if ok {
        list := CopyOut(discdevs, h, h + 2);
      }
      UnrefAll(discdevs.devices[..discdevs.len], h);
    }

    /** libusb_get_device_list; readOk says whether the backend got through its directories. Main result: unless
        a bus of usbfs fails on which the collection has grown, the caller holds on success one more reference
        to each device for each time it is listed, through every growth of the collection, and on failure every
        count is what it was. In the excepted case the code goes on with a collection that has been freed. The
        last holder is the list. */
    method GetDeviceList(backend: Backend, readOk: bool) returns (l: Listing)
      requires Inv(View())
      modifies this
      ensures Inv(View())
      ensures var (all, n) := (backend.All(), Reached(backend.All(), old(usbDevs)));
              && (l.Freed? <==> backend.Usbfs? && n < |all| && GrewOnBus(backend.buses, n))
              && (l.Listed? <==> n == |all| && readOk)
              && (l.Listed? ==> l.list == Sessions(all))
              && (l.Freed? ==> holders == old(holders) + [Sessions(all[..n]), []])
      ensures !l.Freed? ==>
                var list := if l.Listed? then l.list else [];
                && holders == old(holders) + [[], [], list]
                && forall d: Device :: RefOf(View(), d) == RefOf(old(View()), d) + Occurrences(list, d)
    {
      hide Inv, Sessions, Reached, GrewOnBus, Backend.All;
      ghost var h := |holders|;
      var all, n := backend.All(), Reached(backend.All(), usbDevs);
      NoSessions();
      AllOf(backend);
      AddHolder();
      AddHolder();
      var discdevs := new DiscoveredDevs();
      var ok;
      if backend.Sysfs? {
        ok, discdevs := ScanEntries(discdevs, backend.found, h);
      } else {
        ok, discdevs := ScanBuses(discdevs, backend.buses, h);
      }
      assert [] + Sessions(all[..n]) == Sessions(all[..n]);
      assert holders == old(holders) + [Sessions(all[..n]), []];
      if !ok && backend.Usbfs? && GrewOnBus(backend.buses, n) {
        return Freed;  // the model ends where the code would read freed memory
      }
      var list := Finish(discdevs, ok && readOk, h);
      assert n == |all| ==> all[..n] == all;
      assert holders == old(holders) + [[], [], list];
      NetOnePerEntry(old(View()), View(), list);
      l := if ok && readOk then Listed(list) else Failed;
    }

    /** libusb_free_device_list: the references are given up, or they are the application's from now on. */
    method FreeDeviceList(list: seq<Device>, unref: bool, ghost h: nat)
      requires Inv(View()) && 0 < h < |holders| && holders[h] == list
      modifies this
      ensures Inv(View())
      ensures holders == if unref then old(holders)[h := []] else old(holders)[0 := old(holders[0]) + list][h := []]
    {
      hide Inv;
      if unref {
        UnrefAll(list, h);
      } else {
        StepKeepsInv(View(), Pass(h, 0));
        holders := holders[0 := holders[0] + holders[h]][h := []];
      }
    }

    /** libusb_open: the new handle, the last holder, keeps its device alive; ok is the backend's answer. */
    method Open(d: Device, ok: bool)
      requires Inv(View()) && d in refcnt
      modifies this
      ensures Inv(View()) && holders == old(holders) + [if ok then [d] else []]
    {
      hide Inv;
      AddHolder();
      RefDevice(d, |holders| - 1);
      ghost var none: seq<Device> := [];
      assert none + [d] == [d] && Removed([d], 0) == none;
      assert holders == old(holders) + [[d]];
      if !ok {
        UnrefDevice(d, |holders| - 1, 0);
        assert holders == old(holders) + [[]];
      }
    }

    /** do_close. */
    method Close(d: Device, ghost h: nat)
      requires Inv(View()) && h < |holders| && holders[h] == [d]
      modifies this
      ensures Inv(View()) && holders == old(holders)[h := []]
    {
      hide Inv;
      UnrefDevice(d, h, 0);
    }
  }

  lemma NoBuses(buses: seq<seq<Found>>, known: seq<Device>)
    ensures Flatten(buses[|buses|..]) == [] && Reached([], known) == 0
  {
  }
}
