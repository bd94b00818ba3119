/** The other direction of the round trip: a buffer that parses to a well-formed tree with nothing
    left over is the serialization of that tree. */
module DescriptorInverse {
  import opened Bytes
  import opened Descriptors

  /** The cursor stands at the end, or before a proper descriptor. */
  predicate AtProper(mem: seq<Byte>) {
    |mem| < DESC_HEADER_LENGTH || Proper(mem[1])
  }

  lemma Slices(mem: seq<Byte>, k: int, n: int)
    requires 0 <= k <= n <= |mem|
    ensures mem[k..][..n - k] == mem[k..n] == mem[..n][k..] && mem[k..][n - k..] == mem[n..]
    ensures mem[..n] == mem[..k] + mem[k..n]
  {
  }

  lemma Join(mem: seq<Byte>, i: int, j: int, n: int)
    requires 0 <= i <= j <= n <= |mem|
    ensures mem[..n] == mem[..i] + (mem[i..j] + mem[j..n])
  {
  }

  lemma Pieces(mem: seq<Byte>, x: int, k: int, n: int, first: seq<Byte>, rest: seq<Byte>)
    requires 0 <= x && 0 <= k && x + k <= n <= |mem|
    requires mem[x..][..k] == first && mem[x + k..][..n - x - k] == rest
    ensures mem[..n] == mem[..x] + (first + rest)
  {
    Slices(mem, x, x + k);
    Slices(mem, x + k, n);
    Join(mem, x, x + k, n);
  }

  lemma SkipUnfold(mem: seq<Byte>, strict: bool)
    requires SkipExtra(mem, |mem|, strict).Done?
    ensures AtProper(mem) ==> SkipExtra(mem, |mem|, strict).count == 0
    ensures !AtProper(mem) ==>
              var k: int := mem[0];
              && 2 <= k <= |mem| && SkipExtra(mem[k..], |mem| - k, strict).Done?
              && SkipExtra(mem, |mem|, strict).count == k + SkipExtra(mem[k..], |mem| - k, strict).count
  {
  }

  lemma ExtraCons(x: seq<Byte>)
    requires |x| >= 2 && 2 <= x[0] <= |x| && !Proper(x[1]) && ExtraOk(x[x[0]..])
    ensures ExtraOk(x)
  {
  }

  lemma {:induction false} SkipSound(mem: seq<Byte>, strict: bool)
    requires SkipExtra(mem, |mem|, strict).Done?
    ensures var n := SkipExtra(mem, |mem|, strict).count; ExtraOk(mem[..n]) && AtProper(mem[n..])
    decreases |mem|
  {
    hide SkipExtra, ExtraOk;
    SkipUnfold(mem, strict);
    if AtProper(mem) {
      EmptyExtra();
      assert mem[..0] == [] && mem[0..] == mem;
    } else {
      var k: int, n := mem[0], SkipExtra(mem, |mem|, strict).count;
      hide AtProper;
      SkipSound(mem[k..], strict);
      Slices(mem, k, n);
      ExtraCons(mem[..n]);
    }
  }

  lemma SkipNothingAtProper(mem: seq<Byte>)
    requires AtProper(mem) && SkipExtra(mem, |mem|, true).Done?
    ensures SkipExtra(mem, |mem|, true).count == 0
  {
  }

  lemma Le16Inverse(lo: Byte, hi: Byte)
    ensures Le16(lo, hi) % 0x100 == lo && Le16(lo, hi) / 0x100 == hi
  {
  }

  lemma EndpointFieldsSound(mem: seq<Byte>, n: int)
    requires |mem| >= 2 && |mem| >= mem[0] as int == n && mem[1] == DT_ENDPOINT && EndpointOk(EndpointFields(mem))
    ensures mem[..n] == PrintEndpointHeader(EndpointFields(mem))
  {
    if n >= 7 {
      Le16Inverse(mem[4], mem[5]);
    }
    hide Le16, ExtraOk;
  }

  lemma EndpointSound(mem: seq<Byte>, e: Endpoint, n: int)
    requires ParseEndpoint(mem, |mem|) == Done(e, n) && EndpointOk(e)
    ensures 0 <= n <= |mem| && mem[..n] == PrintEndpoint(e) && AtProper(mem[n..])
  {
    hide SkipExtra, EndpointFields, PrintEndpointHeader, ExtraOk, AtProper;
    NoEndpointIsNotOk();
    EmptyExtra();
    var k: int := mem[0];
    SkipSound(mem[k..], false);
    EndpointOkWithoutExtra(EndpointFields(mem), e);
    EndpointFieldsSound(mem, k);
    HeaderIgnoresExtra(EndpointFields(mem), e);
    Slices(mem, k, n);
  }

  lemma NoEndpointIsNotOk()
    ensures !EndpointOk(NO_ENDPOINT)
  {
  }

  lemma EndpointOkWithoutExtra(f: Endpoint, e: Endpoint)
    requires EndpointOk(e) && f == e.(extra := f.extra) && ExtraOk(f.extra)
    ensures EndpointOk(f)
  {
  }

  lemma HeaderIgnoresExtra(f: Endpoint, e: Endpoint)
    requires f == e.(extra := f.extra)
    ensures PrintEndpointHeader(f) == PrintEndpointHeader(e)
  {
  }

  lemma {:induction false} EndpointsSound(mem: seq<Byte>, count: nat, es: seq<Endpoint>, n: int)
    requires ParseEndpoints(mem, |mem|, count) == Done(es, n) && EndpointsOk(es) && AtProper(mem)
    ensures 0 <= n <= |mem| && mem[..n] == PrintEndpoints(es) && AtProper(mem[n..])
    decreases count
  {
    hide ParseEndpoint, PrintEndpoint, EndpointOk, AtProper;
    if count == 0 {
      assert mem[0..] == mem;
    } else {
      var e, k := ParseEndpoint(mem, |mem|).value, ParseEndpoint(mem, |mem|).count;
      EndpointsSplit(es);
      EndpointSound(mem, e, k);
      assert es[1..] == ParseEndpoints(mem[k..], |mem| - k, count - 1).value;
      EndpointsSound(mem[k..], count - 1, es[1..], n - k);
      Slices(mem, k, n);
    }
  }

  lemma AltFieldsSound(mem: seq<Byte>, a: AltSetting)
    requires |mem| >= INTERFACE_DESC_LENGTH && a.(endpoints := [], extra := []) == InterfaceFields(mem)
    ensures mem[..9] == PrintAltHeader(a) && a.bLength == mem[0]
  {
  }

  lemma BodyTaken(alt: AltSetting, mem: seq<Byte>, a: AltSetting, more: bool, k: int)
    requires |mem| >= 0 && ParseAltBody(alt, mem, |mem|) == Done((a, more), k)
    requires alt.endpoints == [] && a.bNumEndpoints as int == |a.endpoints|
    ensures alt == a.(endpoints := []) && 0 <= k <= |mem|
    ensures ParseEndpoints(mem, |mem|, |a.endpoints|) == Done(a.endpoints, k)
    ensures more ==> |mem| - k >= INTERFACE_DESC_LENGTH
  {
    hide ParseEndpoints;
    NoEndpoints(mem, |mem|);
  }

  lemma AltUnfold(mem: seq<Byte>, v: (AltSetting, bool), n: int) returns (m: int)
    requires |mem| >= INTERFACE_DESC_LENGTH && ParseAlt(mem, |mem|) == Done(v, n)
    ensures mem[0] <= |mem| && 0 <= m && mem[0] + m <= n <= |mem|
    ensures var l: int := mem[0];
            && SkipExtra(mem[l..], |mem| - l, false).Done? && SkipExtra(mem[l..], |mem| - l, false).count == m
            && ParseAltBody(InterfaceFields(mem).(extra := mem[l..l + m]), mem[l + m..], |mem| - l - m)
               == Done(v, n - l - m)
  {
    hide SkipExtra, ParseAltBody, InterfaceFields;
    m := SkipExtra(mem[mem[0]..], |mem| - mem[0], false).count;
  }

  /** What ParseAlt returned, taken apart. */
  lemma AltTaken(mem: seq<Byte>, a: AltSetting, more: bool, n: int)
    requires |mem| >= INTERFACE_DESC_LENGTH && ParseAlt(mem, |mem|) == Done((a, more), n) && AltOk(a)
    ensures a.(endpoints := [], extra := []) == InterfaceFields(mem) && mem[0] == 9
    ensures var m := |a.extra|;
            && SkipExtra(mem[9..], |mem| - 9, false).Done? && SkipExtra(mem[9..], |mem| - 9, false).count == m
            && 9 + m <= n <= |mem|
            && a.extra == mem[9..9 + m]
            && ParseEndpoints(mem[9 + m..], |mem| - 9 - m, |a.endpoints|) == Done(a.endpoints, n - 9 - m)
    ensures more ==> |mem| - n >= INTERFACE_DESC_LENGTH
  {
    hide SkipExtra, ExtraOk, EndpointsOk, ParseEndpoints, InterfaceFields, ParseAltBody, ParseAlt;
    var m := AltUnfold(mem, (a, more), n);
    var l: int := mem[0];
    BodyTaken(InterfaceFields(mem).(extra := mem[l..l + m]), mem[l + m..], a, more, n - l - m);
    assert l == a.bLength == 9;
    assert |a.extra| == m;
  }

  lemma AltSound(mem: seq<Byte>, a: AltSetting, more: bool, n: int)
    requires |mem| >= INTERFACE_DESC_LENGTH && ParseAlt(mem, |mem|) == Done((a, more), n) && AltOk(a)
    ensures 0 <= n <= |mem| && mem[..n] == PrintAlt(a) && AtProper(mem[n..])
  {
    hide SkipExtra, ParseAlt, ParseEndpoints, InterfaceFields, PrintAltHeader, PrintEndpoints, AtProper, ExtraOk,
         EndpointsOk;
    AltTaken(mem, a, more, n);
    var m := |a.extra|;
    AltFieldsSound(mem, a);
    SkipSound(mem[9..], false);
    Slices(mem, 9, 9 + m);
    EndpointsSound(mem[9 + m..], |a.endpoints|, a.endpoints, n - 9 - m);
    hide AltOk;
    AltPieces(mem, a, n);
  }

  lemma AltPieces(mem: seq<Byte>, a: AltSetting, n: int)
    requires 9 + |a.extra| <= n <= |mem| && mem[..9] == PrintAltHeader(a) && mem[9..9 + |a.extra|] == a.extra
    requires mem[9 + |a.extra|..][..n - 9 - |a.extra|] == PrintEndpoints(a.endpoints)
    ensures mem[..n] == PrintAlt(a) && mem[9 + |a.extra|..][n - 9 - |a.extra|..] == mem[n..]
  {
    hide PrintAltHeader, PrintEndpoints;
    var m := 9 + |a.extra|;
    assert mem[..n] == mem[..9] + mem[9..m] + mem[m..n] && mem[m..][..n - m] == mem[m..n];
  }

  lemma {:induction false} InterfaceSound(mem: seq<Byte>, alts: Interface, n: int)
    requires ParseInterface(mem, |mem|) == Done(alts, n) && InterfaceOk(alts)
    ensures 0 <= n <= |mem| && mem[..n] == PrintInterface(alts) && AtProper(mem[n..])
    decreases |mem|
  {
    hide ParseAlt, AltOk, PrintAlt, AtProper;
    if |mem| < INTERFACE_DESC_LENGTH {
      assert false;
    } else {
      var (a, more) := ParseAlt(mem, |mem|).value;
      var k := ParseAlt(mem, |mem|).count;
      InterfaceSplit(alts);
      AltSound(mem, a, more, k);
      if more {
        assert alts[1..] == ParseInterface(mem[k..], |mem| - k).value;
        MoreMeansMore(mem, a, k);
        InterfaceSound(mem[k..], alts[1..], n - k);
        Slices(mem, k, n);
      } else {
        assert alts[1..] == [];
      }
    }
  }

  lemma MoreMeansMore(mem: seq<Byte>, a: AltSetting, k: int)
    requires |mem| >= INTERFACE_DESC_LENGTH && ParseAlt(mem, |mem|) == Done((a, true), k) && AltOk(a)
    requires ParseInterface(mem[k..], |mem| - k).Done?
    ensures ParseInterface(mem[k..], |mem| - k).value != []
  {
    AltTaken(mem, a, true, k);
    hide ParseAlt, AltOk;
  }

  /** What ParseInterfaces returned, taken apart. */
  lemma InterfacesTaken(mem: seq<Byte>, count: nat, extra: seq<Byte>, interfaces: seq<Interface>,
                        extra': seq<Byte>, n: int) returns (x: int, k: int)
    requires count > 0 && ParseInterfaces(mem, |mem|, count, extra) == Done((interfaces, extra'), n)
    ensures interfaces != [] && SkipExtra(mem, |mem|, true).Done? && SkipExtra(mem, |mem|, true).count == x
    ensures 0 <= x && 0 <= k && x + k <= n <= |mem|
    ensures ParseInterface(mem[x..], |mem| - x) == Done(interfaces[0], k)
    ensures ParseInterfaces(mem[x + k..], |mem| - x - k, count - 1, if extra == [] then mem[..x] else extra)
         == Done((interfaces[1..], extra'), n - x - k)
  {
    hide SkipExtra, ParseInterface;
    x := SkipExtra(mem, |mem|, true).count;
    k := ParseInterface(mem[x..], |mem| - x).count;
    ghost var tail := ParseInterfaces(mem[x + k..], |mem| - x - k, count - 1, if extra == [] then mem[..x] else extra);
    assert tail.Done? && interfaces == [ParseInterface(mem[x..], |mem| - x).value] + tail.value.0;
    assert interfaces[1..] == tail.value.0;
  }

  lemma {:induction false} InterfacesSound(mem: seq<Byte>, count: nat, extra: seq<Byte>, interfaces: seq<Interface>,
                                           extra': seq<Byte>, n: int)
    requires ParseInterfaces(mem, |mem|, count, extra) == Done((interfaces, extra'), n)
    requires InterfacesOk(interfaces) && AtProper(mem)
    ensures 0 <= n <= |mem| && mem[..n] == PrintInterfaces(interfaces) && extra' == extra
    decreases count
  {
    hide SkipExtra, ParseInterface, ParseInterfaces, PrintInterface, PrintInterfaces, InterfaceOk, InterfacesOk,
         AtProper;
    if count == 0 {
      NoInterfaces(mem, |mem|, extra);
    } else {
      var x, k := InterfacesTaken(mem, count, extra, interfaces, extra', n);
      SkipNothingAtProper(mem);
      assert mem[0..] == mem && mem[..0] == [];
      InterfacesSplit(interfaces);
      InterfaceSound(mem, interfaces[0], k);
      InterfacesSound(mem[k..], count - 1, extra, interfaces[1..], extra', n - k);
      Slices(mem, k, n);
    }
  }

  lemma ConfigFieldsSound(mem: seq<Byte>, c: Config)
    requires |mem| >= CONFIG_DESC_LENGTH && c.(interfaces := [], extra := []) == ConfigFields(mem)
    ensures mem[..9] == PrintConfigHeader(c)
  {
    Le16Inverse(mem[2], mem[3]);
    hide Le16;
  }

  lemma ConfigTaken(mem: seq<Byte>, c: Config)
    requires ParseConfig(mem) == Done(c, 0) && ConfigOk(c) && |mem| == c.wTotalLength as int
    ensures |mem| >= 9 && c.(interfaces := [], extra := []) == ConfigFields(mem)
    ensures ParseInterfaces(mem[9..], |mem| - 9, |c.interfaces|, []) == Done((c.interfaces, c.extra), |mem| - 9)
  {
    hide ParseInterfaces, InterfacesOk, ExtraOk, PrintConfig;
  }

  /** The first interface: its leading extra descriptors become those of the configuration. */
  lemma FirstInterfaceSound(mem: seq<Byte>, interfaces: seq<Interface>, extra: seq<Byte>, n: int)
    requires ParseInterfaces(mem, |mem|, |interfaces|, []) == Done((interfaces, extra), n)
    requires InterfacesOk(interfaces) && interfaces != []
    ensures 0 <= n <= |mem| && mem[..n] == extra + PrintInterfaces(interfaces)
  {
    hide SkipExtra, ParseInterface, ParseInterfaces, PrintInterface, PrintInterfaces, InterfaceOk, InterfacesOk,
         AtProper;
    var x, k := InterfacesTaken(mem, |interfaces|, [], interfaces, extra, n);
    InterfacesSplit(interfaces);
    InterfaceSound(mem[x..], interfaces[0], k);
    Slices(mem, x, x + k);
    InterfacesSound(mem[x + k..], |interfaces| - 1, mem[..x], interfaces[1..], extra, n - x - k);
    Pieces(mem, x, k, n, PrintInterface(interfaces[0]), PrintInterfaces(interfaces[1..]));
  }

  /** Main result: on buffers of the announced length, a well-formed tree is what parsing returns, with
      nothing left over, exactly if the buffer is the serialization of that tree. */
  lemma ParsesIffPrinted(mem: seq<Byte>, c: Config)
    requires ConfigOk(c) && |mem| == c.wTotalLength as int
    ensures ParseConfig(mem) == Done(c, 0) <==> mem == PrintConfig(c)
  {
    ConfigRoundTrip(c);
    if ParseConfig(mem) == Done(c, 0) {
      ConfigSound(mem, c);
    }
  }

  lemma ConfigSound(mem: seq<Byte>, c: Config)
    requires ParseConfig(mem) == Done(c, 0) && ConfigOk(c) && |mem| == c.wTotalLength as int
    ensures mem == PrintConfig(c)
  {
    hide ParseConfig, ParseInterfaces, PrintConfigHeader, ConfigFields, PrintInterfaces, InterfacesOk, ExtraOk;
    ConfigTaken(mem, c);
    ConfigFieldsSound(mem, c);
    if c.interfaces == [] {
      NoInterfaces(mem[9..], |mem| - 9, []);
    } else {
      FirstInterfaceSound(mem[9..], c.interfaces, c.extra, |mem| - 9);
      assert mem == mem[..9] + mem[9..][..|mem| - 9];
    }
  }

  /** Two different well-formed trees never have the same bytes. */
  lemma PrintConfigInjective(c: Config, d: Config)
    requires ConfigOk(c) && ConfigOk(d) && PrintConfig(c) == PrintConfig(d)
    ensures c == d
  {
    ConfigRoundTrip(c);
    ConfigRoundTrip(d);
  }
}
