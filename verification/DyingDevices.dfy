/** Reference counts of devices when threads interleave: giving up the last reference takes two locked sections, and
    so does looking a device up and referencing it. */
module DyingDevices {
  import D = DeviceRefs

  /** A device goes by a number of its own here, which is not used again. */
  type Device = D.Device

  /** looked has the devices that lookups have found and not referenced yet; dying those whose count has dropped to
      zero, to be taken off the list and freed by the thread that dropped it; created all that ever existed. */
  datatype State = State(refs: D.State, looked: seq<Device>, dying: set<Device>, created: set<Device>)

  /** One locked section. Do is a step that is one also in the code. */
  datatype Event =
    | Do(e: D.Event)
    | Decrement(h: nat, k: nat)
    | Destroy(d: Device)
    | Look(d: Device)
    | Take(i: nat, h: nat)

  predicate DoEnabled(s: State, e: D.Event) {
    && D.Enabled(s.refs, e) && !e.Unref?
    && (e.Ref? ==> D.Total(s.refs.holders, e.d) > 0)
    && (e.Alloc? ==> e.d !in s.created)
  }

  /** Whoever passes a reference on holds one; whoever takes one after a lookup need not find the device alive. */
  predicate Enabled(s: State, e: Event) {
    match e
    case Do(e') => DoEnabled(s, e')
    case Decrement(h, k) => D.Enabled(s.refs, D.Unref(h, k))
    case Destroy(d) => d in s.dying
    case Look(d) => d in s.refs.usbDevs
    case Take(i, h) => i < |s.looked| && h < |s.refs.holders|
  }

  /** The first section of libusb_unref_device. */
  function DecrementStep(s: State, h: nat, k: nat): State
    requires D.Enabled(s.refs, D.Unref(h, k))
  {
    var d := s.refs.holders[h][k];
    var n := s.refs.refcnt[d] - 1;
    s.(refs := D.Hold(s.refs.(refcnt := s.refs.refcnt[d := n]), h, D.Removed(s.refs.holders[h], k)),
       dying := if n == 0 then s.dying + {d} else s.dying)
  }

  /** The second section of libusb_unref_device, and free. */
  function DestroyStep(s: State, d: Device): State {
    s.(refs := s.refs.(refcnt := s.refs.refcnt - {d}, usbDevs := D.Without(s.refs.usbDevs, d)), dying := s.dying - {d})
  }

  /** libusb_ref_device on what a lookup has returned; if that has been freed, there is no count to be changed. */
  function TakeStep(s: State, i: nat, h: nat): State
    requires i < |s.looked| && h < |s.refs.holders|
  {
    var d := s.looked[i];
    var refs := if d in s.refs.refcnt then s.refs.(refcnt := s.refs.refcnt[d := s.refs.refcnt[d] + 1]) else s.refs;
    s.(refs := D.Hold(refs, h, refs.holders[h] + [d]), looked := D.Removed(s.looked, i))
  }

  function Step(s: State, e: Event): State
    requires Enabled(s, e)
  {
    match e
    case Do(e') => s.(refs := D.Step(s.refs, e'), created := if e'.Alloc? then s.created + {e'.d} else s.created)
    case Decrement(h, k) => DecrementStep(s, h, k)
    case Destroy(d) => DestroyStep(s, d)
    case Look(d) => s.(looked := s.looked + [d])
    case Take(i, h) => TakeStep(s, i, h)
  }

  /** The count is positive. */
  predicate Alive(s: State, d: Device) {
    d in s.refs.refcnt && s.refs.refcnt[d] > 0
  }

  /** A reference is taken to a device that nobody holds any more. */
  predicate Stale(s: State, e: Event) {
    e.Take? && e.i < |s.looked| && !Alive(s, s.looked[e.i])
  }

  // ---- the invariant ----

  /** A device exists while it is referenced, and then until it has been destroyed; so long it is on the list. */
  predicate Counted(s: State, d: Device) {
    var n := D.Total(s.refs.holders, d);
    && D.RefOf(s.refs, d) == n
    && (d in s.refs.refcnt <==> n > 0 || d in s.dying)
    && (d in s.dying ==> n == 0)
    && D.Occurrences(s.refs.usbDevs, d) == (if d in s.refs.refcnt then 1 else 0)
    && (d in s.refs.refcnt || d in s.looked ==> d in s.created)
  }

  ghost predicate Inv(s: State) {
    forall d: Device :: Counted(s, d)
  }

  lemma DoCounts(s: State, e: D.Event, d: Device)
    requires DoEnabled(s, e) && Counted(s, d) && (e.Ref? ==> Counted(s, e.d))
    ensures Counted(Step(s, Do(e)), d)
  {
    D.StepTotal(s.refs, e, d);
    hide D.Total;
  }

  lemma DecrementCounts(s: State, h: nat, k: nat, d: Device)
    requires Enabled(s, Decrement(h, k)) && Counted(s, d)
    ensures Counted(Step(s, Decrement(h, k)), d)
  {
    D.StepTotal(s.refs, D.Unref(h, k), d);
    D.TotalUpdate(s.refs.holders, h, [], s.refs.holders[h][k]);
    D.OccurrencesRemoved(s.refs.holders[h], k, s.refs.holders[h][k]);
    hide D.Total, D.Occurrences;
  }

  lemma DestroyCounts(s: State, x: Device, d: Device)
    requires Enabled(s, Destroy(x)) && Counted(s, d)
    ensures Counted(Step(s, Destroy(x)), d)
  {
    D.OccurrencesWithout(s.refs.usbDevs, x, d);
    hide D.Total;
  }

  lemma TakeTotal(s: State, i: nat, h: nat, d: Device)
    requires Enabled(s, Take(i, h))
    ensures D.Total(Step(s, Take(i, h)).refs.holders, d)
         == D.Total(s.refs.holders, d) + if s.looked[i] == d then 1 else 0
  {
    D.TotalUpdate(s.refs.holders, h, s.refs.holders[h] + [s.looked[i]], d);
    D.OccurrencesAppend(s.refs.holders[h], [s.looked[i]], d);
  }

  /** Taking a reference is accounted for exactly if the device is alive. */
  lemma TakeCountsIff(s: State, i: nat, h: nat, d: Device)
    requires Enabled(s, Take(i, h)) && Counted(s, d)
    ensures Counted(Step(s, Take(i, h)), d) <==> s.looked[i] != d || Alive(s, d)
  {
    TakeTotal(s, i, h, d);
    hide D.Total;
  }

  /** Main result for one section: it keeps counts, holders and the list in agreement exactly if it does not take
      a reference to a device that nobody holds any more. */
  lemma StepKeepsInvIff(s: State, e: Event)
    requires Inv(s) && Enabled(s, e)
    ensures Inv(Step(s, e)) <==> !Stale(s, e)
  {
    hide Counted, Step;
    forall d: Device ensures Counted(Step(s, e), d) || (Stale(s, e) && s.looked[e.i] == d) {
      assert Counted(s, d);
      OneCounts(s, e, d);
    }
    if Stale(s, e) {
      assert Counted(s, s.looked[e.i]);
      TakeCountsIff(s, e.i, e.h, s.looked[e.i]);
      assert !Counted(Step(s, e), s.looked[e.i]);
    }
  }

  lemma OneCounts(s: State, e: Event, d: Device)
    requires Inv(s) && Enabled(s, e)
    ensures Counted(Step(s, e), d) || (Stale(s, e) && s.looked[e.i] == d)
  {
    assert Counted(s, d);
    match e
    case Do(e') =>
      assert e'.Ref? ==> Counted(s, e'.d);
      DoCounts(s, e', d);
    case Decrement(h, k) => DecrementCounts(s, h, k, d);
    case Destroy(x) => DestroyCounts(s, x, d);
    case Look(x) =>
      assert Counted(s, x);
      D.OccursIff(s.refs.usbDevs, x);
    case Take(i, h) => TakeCountsIff(s, i, h, d);
  }

  // ---- runs ----

  predicate CanRun(s: State, es: seq<Event>)
    decreases |es|
  {
    es == [] || (Enabled(s, es[0]) && CanRun(Step(s, es[0]), es[1..]))
  }

  function Run(s: State, es: seq<Event>): State
    requires CanRun(s, es)
    decreases |es|
  {
    if es == [] then s else Run(Step(s, es[0]), es[1..])
  }

  /** No reference is taken to a device that nobody holds any more. */
  predicate NeverStale(s: State, es: seq<Event>)
    requires CanRun(s, es)
    decreases |es|
  {
    es == [] || (!Stale(s, es[0]) && NeverStale(Step(s, es[0]), es[1..]))
  }

  ghost predicate AllSound(s: State, es: seq<Event>)
    requires CanRun(s, es)
    decreases |es|
  {
    Inv(s) && (es == [] || AllSound(Step(s, es[0]), es[1..]))
  }

  /** Main result: in every interleaving all states on the way are sound exactly if no reference is taken too late. */
  lemma {:induction false} AllSoundIff(s: State, es: seq<Event>)
    requires Inv(s) && CanRun(s, es)
    ensures AllSound(s, es) <==> NeverStale(s, es)
    ensures NeverStale(s, es) ==> Inv(Run(s, es))
    decreases |es|
  {
    if es != [] {
      hide Inv, Step, Enabled, Stale;
      StepKeepsInvIff(s, es[0]);
      if Inv(Step(s, es[0])) {
        AllSoundIff(Step(s, es[0]), es[1..]);
      }
    }
  }

  predicate Init(s: State) {
    s == State(D.State(map[], [], [[]]), [], {}, {})
  }

  lemma InitInv(s: State)
    requires Init(s)
    ensures Inv(s)
  {
    forall d: Device ensures Counted(s, d) {
      assert s.refs.holders[1..] == [];
    }
  }

  /** In a sound state whoever holds a reference holds a device that exists and is not being destroyed. */
  lemma HeldIsAlive(s: State, h: nat, k: nat)
    requires Inv(s) && h < |s.refs.holders| && k < |s.refs.holders[h]|
    ensures Alive(s, s.refs.holders[h][k]) && s.refs.holders[h][k] !in s.dying
  {
    var d := s.refs.holders[h][k];
    D.OccurrencesRemoved(s.refs.holders[h], k, d);
    D.TotalUpdate(s.refs.holders, h, [], d);
    assert Counted(s, d);
  }

  /** A holder can pass its reference on, or give it up. */
  lemma HoldersCanGoOn(s: State, h: nat, k: nat, h': nat)
    requires Inv(s) && h < |s.refs.holders| && k < |s.refs.holders[h]| && h' < |s.refs.holders|
    ensures Enabled(s, Do(D.Ref(h', s.refs.holders[h][k]))) && Enabled(s, Decrement(h, k))
  {
    var d := s.refs.holders[h][k];
    HeldIsAlive(s, h, k);
    assert Counted(s, d);
  }

  /** A lookup can find exactly the devices that exist, and what it finds is dead already exactly between the two
      sections in which the last reference was given up. */
  lemma LookFindsDyingIff(s: State, d: Device)
    requires Inv(s)
    ensures Enabled(s, Look(d)) <==> d in s.refs.refcnt
    ensures Enabled(s, Look(d)) ==> (!Alive(s, d) <==> d in s.dying)
  {
    assert Counted(s, d);
    D.OccursIff(s.refs.usbDevs, d);
  }

  /** Nothing but a late reference brings a device back. */
  lemma StaysDead(s: State, e: Event, d: Device)
    requires Inv(s) && Enabled(s, e) && !Stale(s, e) && d in s.created && !Alive(s, d)
    ensures !Alive(Step(s, e), d) && d in Step(s, e).created
  {
    assert Counted(s, d);
    hide D.Total, D.Occurrences, D.Without;
  }

  predicate AliveThroughout(s: State, es: seq<Event>, d: Device)
    requires CanRun(s, es)
    decreases |es|
  {
    Alive(s, d) && (es == [] || AliveThroughout(Step(s, es[0]), es[1..], d))
  }

  /** Main result: at the end of a sound run a device found at its beginning can be referenced exactly if its count
      has not been zero in between. */
  lemma {:induction false} AliveIffThroughout(s: State, es: seq<Event>, d: Device)
    requires Inv(s) && CanRun(s, es) && NeverStale(s, es) && d in s.created
    ensures Alive(Run(s, es), d) <==> AliveThroughout(s, es, d)
    decreases |es|
  {
    if es != [] {
      StepKeepsInvIff(s, es[0]);
      if !Alive(s, d) {
        StaysDead(s, es[0], d);
      }
      StillCreated(s, es[0], d);
      hide Inv, Step, Enabled, Stale, Alive;
      AliveIffThroughout(Step(s, es[0]), es[1..], d);
    }
  }

  lemma StillCreated(s: State, e: Event, d: Device)
    requires Enabled(s, e) && d in s.created
    ensures d in Step(s, e).created
  {
  }

  /** What comes of a late reference: its holder is left with a device that has been freed, or will be, by a step
      that is due already. */
  lemma LateReferenceDangles(s: State, i: nat, h: nat)
    requires Inv(s) && Enabled(s, Take(i, h)) && Stale(s, Take(i, h))
    ensures var (d, t) := (s.looked[i], Step(s, Take(i, h)));
            && d in t.refs.holders[h]
            && (d in t.refs.refcnt ==>
                  && Enabled(t, Destroy(d))
                  && var t' := Step(t, Destroy(d)); d in t'.refs.holders[h] && d !in t'.refs.refcnt)
  {
    var d := s.looked[i];
    assert Counted(s, d);
    assert Step(s, Take(i, h)).refs.holders[h] == s.refs.holders[h] + [d];
  }

  /** The state of a device 7 that one holder, or nobody, holds. */
  function Only(count: int, held: seq<Device>, looked: seq<Device>, dying: set<Device>): State {
    State(D.State(map[7 := count], [7], [held]), looked, dying, {7})
  }

  lemma LookedUp(s: State)
    requires Init(s)
    ensures Enabled(s, Do(D.Alloc(0, 7))) && Step(s, Do(D.Alloc(0, 7))) == Only(1, [7], [], {})
    ensures Enabled(Only(1, [7], [], {}), Look(7)) && Step(Only(1, [7], [], {}), Look(7)) == Only(1, [7], [7], {})
  {
    var s1 := Step(s, Do(D.Alloc(0, 7)));
    assert s.refs.holders[0] + [7] == [7] && [7] + s.refs.usbDevs == [7];
    assert s1.refs == Only(1, [7], [], {}).refs && s1.created == {7};
    assert s1.looked + [7] == [7];
  }

  lemma DroppedAndTaken()
    ensures var (s2, s3, s4) := (Only(1, [7], [7], {}), Only(0, [], [7], {7}), Only(1, [7], [], {7}));
            && Enabled(s2, Decrement(0, 0)) && Step(s2, Decrement(0, 0)) == s3
            && Enabled(s3, Take(0, 0)) && Stale(s3, Take(0, 0)) && Step(s3, Take(0, 0)) == s4
            && Enabled(s4, Destroy(7))
            && Step(s4, Destroy(7)).refs.holders == [[7]] && 7 !in Step(s4, Destroy(7)).refs.refcnt
  {
    assert D.Removed([7], 0) == [] && [[7]][0 := []] == [[]];
    var s2, s3, s4 := Only(1, [7], [7], {}), Only(0, [], [7], {7}), Only(1, [7], [], {7});
    assert Step(s2, Decrement(0, 0)).refs == s3.refs;
    assert s3.refs.holders[0] + [7] == [7];
    assert Step(s3, Take(0, 0)).refs == s4.refs;
    assert Step(s4, Destroy(7)).refs.holders == [[7]];
  }

  /** A run in which that happens: a lookup finds a device just before its only reference is given up. */
  lemma LateLookup(s: State, es: seq<Event>)
    requires Init(s) && es == [Do(D.Alloc(0, 7)), Look(7), Decrement(0, 0), Take(0, 0), Destroy(7)]
    ensures CanRun(s, es) && !NeverStale(s, es)
    ensures Run(s, es).refs.holders == [[7]] && 7 !in Run(s, es).refs.refcnt
  {
    LookedUp(s);
    DroppedAndTaken();
    hide Step, Enabled, Stale, Only;
    RunsFive(s, es, Only(1, [7], [], {}), Only(1, [7], [7], {}), Only(0, [], [7], {7}), Only(1, [7], [], {7}),
             Step(Only(1, [7], [], {7}), Destroy(7)));
  }

  lemma RunsFive(s: State, es: seq<Event>, s1: State, s2: State, s3: State, s4: State, s5: State)
    requires |es| == 5
    requires Enabled(s, es[0]) && s1 == Step(s, es[0]) && Enabled(s1, es[1]) && s2 == Step(s1, es[1])
    requires Enabled(s2, es[2]) && s3 == Step(s2, es[2]) && Enabled(s3, es[3]) && s4 == Step(s3, es[3])
    requires Enabled(s4, es[4]) && s5 == Step(s4, es[4])
    ensures CanRun(s, es) && Run(s, es) == s5
    ensures NeverStale(s, es) ==> !Stale(s3, es[3])
  {
    hide Step, Enabled, Stale;
    var (a, b, c, d) := (es[1..], es[1..][1..], es[1..][1..][1..], es[1..][1..][1..][1..]);
    assert a[0] == es[1] && b[0] == es[2] && c[0] == es[3] && d[0] == es[4] && d[1..] == [];
    assert CanRun(s4, d) && Run(s4, d) == s5;
    assert CanRun(s3, c) && Run(s3, c) == s5;
    assert CanRun(s2, b) && Run(s2, b) == s5;
    assert CanRun(s1, a) && Run(s1, a) == s5;
    if NeverStale(s, es) {
      assert NeverStale(s1, a) && NeverStale(s2, b) && NeverStale(s3, c);
    }
  }

  // ---- what remains of whole calls ----

  function Listed(devices: seq<Device>, dying: set<Device>): seq<Device> {
    if devices == [] then []
    else if devices[0] in dying then Listed(devices[1..], dying)
    else [devices[0]] + Listed(devices[1..], dying)
  }

  /** The state without the devices that are being destroyed. */
  function Settled(s: State): D.State {
    D.State(s.refs.refcnt - s.dying, Listed(s.refs.usbDevs, s.dying), s.refs.holders)
  }

  lemma {:induction false} OccurrencesListed(devices: seq<Device>, dying: set<Device>, d: Device)
    ensures D.Occurrences(Listed(devices, dying), d) == if d in dying then 0 else D.Occurrences(devices, d)
  {
    if devices != [] {
      OccurrencesListed(devices[1..], dying, d);
      if devices[0] !in dying {
        assert Listed(devices, dying)[1..] == Listed(devices[1..], dying);
      }
    }
  }

  /** Leaving the dying devices aside, every sound state is one in which calls were not interrupted. */
  lemma SettledInv(s: State)
    requires Inv(s)
    ensures D.Inv(Settled(s))
  {
    forall d: Device ensures D.Counted(Settled(s), d) {
      assert Counted(s, d);
      OccurrencesListed(s.refs.usbDevs, s.dying, d);
      hide D.Total;
    }
  }

  /** One more device of a list is dying. */
  lemma {:induction false} ListedWithout(devices: seq<Device>, dying: set<Device>, d: Device)
    requires D.Occurrences(devices, d) <= 1
    ensures Listed(devices, dying + {d}) == D.Without(Listed(devices, dying), d)
    ensures Listed(D.Without(devices, d), dying - {d}) == Listed(devices, dying + {d})
  {
    if devices != [] {
      if devices[0] == d {
        NotListed(devices[1..], dying, d);
      } else {
        ListedWithout(devices[1..], dying, d);
      }
      if devices[0] !in dying {
        assert Listed(devices, dying)[1..] == Listed(devices[1..], dying);
      }
    }
  }

  lemma {:induction false} NotListed(devices: seq<Device>, dying: set<Device>, d: Device)
    requires D.Occurrences(devices, d) == 0
    ensures Listed(devices, dying + {d}) == Listed(devices, dying) == Listed(devices, dying - {d})
    ensures D.Without(Listed(devices, dying), d) == Listed(devices, dying)
  {
    if devices != [] {
      NotListed(devices[1..], dying, d);
    }
  }

  /** The call, undivided, that a section stands for, if any. */
  function CallOf(s: State, e: Event): (c: seq<D.Event>)
    requires Enabled(s, e)
    ensures |c| <= 1
  {
    match e
    case Do(e') => [e']
    case Decrement(h, k) => [D.Unref(h, k)]
    case Destroy(_) => []
    case Look(_) => []
    case Take(i, h) => [D.Ref(h, s.looked[i])]
  }

  lemma DoIsCall(s: State, e: D.Event)
    requires Inv(s) && DoEnabled(s, e)
    ensures D.Enabled(Settled(s), e) && Settled(Step(s, Do(e))) == D.Step(Settled(s), e)
  {
    if e.Ref? || e.Alloc? {
      assert Counted(s, e.d);
      assert e.d !in s.dying;
    }
    hide D.Total;
  }

  lemma DecrementIsCall(s: State, h: nat, k: nat)
    requires Inv(s) && Enabled(s, Decrement(h, k))
    ensures D.Enabled(Settled(s), D.Unref(h, k))
    ensures Settled(Step(s, Decrement(h, k))) == D.Step(Settled(s), D.Unref(h, k))
  {
    var d := s.refs.holders[h][k];
    HeldIsAlive(s, h, k);
    assert Counted(s, d);
    ListedWithout(s.refs.usbDevs, s.dying, d);
    hide D.Total, D.Occurrences, Listed, D.Without;
  }

  lemma DestroyIsNone(s: State, d: Device)
    requires Inv(s) && d in s.dying
    ensures Settled(Step(s, Destroy(d))) == Settled(s)
  {
    assert Counted(s, d);
    ListedWithout(s.refs.usbDevs, s.dying, d);
    assert s.dying + {d} == s.dying;
    hide D.Total, D.Occurrences, Listed, D.Without;
  }

  lemma TakeIsCall(s: State, i: nat, h: nat)
    requires Inv(s) && Enabled(s, Take(i, h)) && !Stale(s, Take(i, h))
    ensures D.Enabled(Settled(s), D.Ref(h, s.looked[i]))
    ensures Settled(Step(s, Take(i, h))) == D.Step(Settled(s), D.Ref(h, s.looked[i]))
  {
    assert Counted(s, s.looked[i]);
    hide D.Total, D.Occurrences, Listed, D.Without;
  }

  /** A section that takes no reference too late is the whole call, or nothing, on what is not being destroyed. */
  lemma StepIsCall(s: State, e: Event)
    requires Inv(s) && Enabled(s, e) && !Stale(s, e)
    ensures CallOf(s, e) == [] ==> Settled(Step(s, e)) == Settled(s)
    ensures CallOf(s, e) != [] ==>
              D.Enabled(Settled(s), CallOf(s, e)[0]) && Settled(Step(s, e)) == D.Step(Settled(s), CallOf(s, e)[0])
  {
    hide Inv, Settled, D.Step, D.Enabled;
    match e
    case Do(e') => DoIsCall(s, e');
    case Decrement(h, k) => DecrementIsCall(s, h, k);
    case Destroy(d) => DestroyIsNone(s, d);
    case Look(_) => LookIsNone(s, e);
    case Take(i, h) => TakeIsCall(s, i, h);
  }

  lemma LookIsNone(s: State, e: Event)
    requires e.Look? && Enabled(s, e)
    ensures Settled(Step(s, e)) == Settled(s)
  {
  }

  function Calls(s: State, es: seq<Event>): seq<D.Event>
    requires CanRun(s, es)
    decreases |es|
  {
    if es == [] then [] else CallOf(s, es[0]) + Calls(Step(s, es[0]), es[1..])
  }

  /** Main result: sections that interleave in any way, but take no reference too late, have the effect of whole
      calls one after the other. What holds of those, holds of them, but for the devices being destroyed. */
  lemma {:induction false} RunIsCalls(s: State, es: seq<Event>)
    requires Inv(s) && CanRun(s, es) && NeverStale(s, es)
    ensures D.CanRun(Settled(s), Calls(s, es)) && D.Run(Settled(s), Calls(s, es)) == Settled(Run(s, es))
    decreases |es|
  {
    if es != [] {
      hide Inv, Step, Enabled, Stale, Settled, CallOf, D.Step, D.Enabled;
      var s', c := Step(s, es[0]), CallOf(s, es[0]);
      StepKeepsInvIff(s, es[0]);
      StepIsCall(s, es[0]);
      RunIsCalls(s', es[1..]);
      var rest := Calls(s', es[1..]);
      if c == [] {
        assert c + rest == rest;
      } else {
        assert (c + rest)[0] == c[0] && (c + rest)[1..] == rest;
      }
    }
  }

  /** The count of a device when threads interleave, as long as no reference is taken too late. */
  lemma CountIsHolders(s: State, es: seq<Event>, d: Device)
    requires Init(s) && CanRun(s, es) && NeverStale(s, es)
    ensures var s' := Run(s, es);
            && D.RefOf(s'.refs, d) == D.Total(s'.refs.holders, d)
            && (d in s'.refs.usbDevs <==> d in s'.refs.refcnt)
            && (d in s'.refs.refcnt <==> D.RefOf(s'.refs, d) > 0 || d in s'.dying)
            && (d in s'.dying ==> D.RefOf(s'.refs, d) == 0)
  {
    InitInv(s);
    AllSoundIff(s, es);
    var s' := Run(s, es);
    assert Counted(s', d);
    D.OccursIff(s'.refs.usbDevs, d);
  }
}
