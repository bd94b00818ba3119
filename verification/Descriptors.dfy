/** The USB configuration descriptor parser: a configuration with its interfaces, their alternate
    settings and endpoints, and class or vendor specific "extra" descriptors at every level. */
module Descriptors {
  import opened Bytes

  const DT_DEVICE: Byte := 1
  const DT_CONFIG: Byte := 2
  const DT_INTERFACE: Byte := 4
  const DT_ENDPOINT: Byte := 5

  const DESC_HEADER_LENGTH := 2
  const CONFIG_DESC_LENGTH := 9
  const INTERFACE_DESC_LENGTH := 9
  const ENDPOINT_DESC_LENGTH := 7
  const ENDPOINT_AUDIO_DESC_LENGTH := 9
  const USB_MAXENDPOINTS := 32
  const USB_MAXINTERFACES := 32

  datatype Endpoint = Endpoint(bLength: Byte, bDescriptorType: Byte, bEndpointAddress: Byte, bmAttributes: Byte,
                               wMaxPacketSize: Word, bInterval: Byte, bRefresh: Byte, bSynchAddress: Byte,
                               extra: seq<Byte>)

  datatype AltSetting = AltSetting(bLength: Byte, bDescriptorType: Byte, bInterfaceNumber: Byte,
                                   bAlternateSetting: Byte, bNumEndpoints: Byte, bInterfaceClass: Byte,
                                   bInterfaceSubClass: Byte, bInterfaceProtocol: Byte, iInterface: Byte,
                                   endpoints: seq<Endpoint>, extra: seq<Byte>)

  type Interface = seq<AltSetting>

  datatype Config = Config(bLength: Byte, bDescriptorType: Byte, wTotalLength: Word, bNumInterfaces: Byte,
                           bConfigurationValue: Byte, iConfiguration: Byte, bmAttributes: Byte, MaxPower: Byte,
                           interfaces: seq<Interface>, extra: seq<Byte>)

  const NO_ENDPOINT := Endpoint(0, 0, 0, 0, 0, 0, 0, 0, [])

  /** The result of a parsing function: what it built and the number it returns, an error code,
      or a read beyond the end of the buffer, which C leaves undefined. */
  datatype Outcome<T> = Done(value: T, count: int) | Failed | PastEnd

  predicate Proper(descriptorType: Byte) {
    descriptorType == DT_ENDPOINT || descriptorType == DT_INTERFACE
    || descriptorType == DT_CONFIG || descriptorType == DT_DEVICE
  }

  function Le16(lo: Byte, hi: Byte): Word { lo + 0x100 * hi }

  // ---- field lists ----

  function EndpointFields(mem: seq<Byte>): (e: Endpoint)
    requires |mem| >= 2 && |mem| >= mem[0]
    ensures e.extra == []
  {
    if mem[0] >= ENDPOINT_AUDIO_DESC_LENGTH then
      Endpoint(mem[0], mem[1], mem[2], mem[3], Le16(mem[4], mem[5]), mem[6], mem[7], mem[8], [])
    else if mem[0] >= ENDPOINT_DESC_LENGTH then
      Endpoint(mem[0], mem[1], mem[2], mem[3], Le16(mem[4], mem[5]), mem[6], 0, 0, [])
    else NO_ENDPOINT
  }

  function InterfaceFields(mem: seq<Byte>): (a: AltSetting)
    requires |mem| >= INTERFACE_DESC_LENGTH
    ensures a.bLength == mem[0] && a.endpoints == [] && a.extra == []
  {
    AltSetting(mem[0], mem[1], mem[2], mem[3], mem[4], mem[5], mem[6], mem[7], mem[8], [], [])
  }

  function ConfigFields(mem: seq<Byte>): Config
    requires |mem| >= CONFIG_DESC_LENGTH
  {
    Config(mem[0], mem[1], Le16(mem[2], mem[3]), mem[4], mem[5], mem[6], mem[7], mem[8], [], [])
  }

  // ---- the parser as functions of the memory from the cursor on, and the size still to go ----

  /** How many bytes of descriptors to skip before the next proper one. */
  function SkipExtra(mem: seq<Byte>, size: int, strict: bool): (r: Outcome<()>)
    ensures r.Done? ==> 0 <= r.count <= |mem|
    ensures r.Done? && size - r.count >= DESC_HEADER_LENGTH ==> |mem| - r.count >= DESC_HEADER_LENGTH
    decreases |mem|
  {
    if size < DESC_HEADER_LENGTH then Done((), 0)
    else if |mem| < DESC_HEADER_LENGTH then PastEnd
    else if mem[0] < DESC_HEADER_LENGTH || (strict && mem[0] > size) then Failed
    else if Proper(mem[1]) then Done((), 0)
    else if mem[0] > |mem| then PastEnd
    else
      match SkipExtra(mem[mem[0]..], size - mem[0], strict)
      case Done(_, n) => Done((), mem[0] + n)
      case Failed => Failed
      case PastEnd => PastEnd
  }

  function ParseEndpoint(mem: seq<Byte>, size: int): (r: Outcome<Endpoint>)
    ensures r.Done? ==> 0 <= r.count <= |mem|
  {
    if |mem| < DESC_HEADER_LENGTH then PastEnd
    else if mem[0] > size then Failed
    else if mem[1] != DT_ENDPOINT then Done(NO_ENDPOINT, 0)
    else if mem[0] > |mem| then PastEnd
    else
      var n: int := mem[0];
      match SkipExtra(mem[n..], size - n, false)
      case Done(_, m) => Done(EndpointFields(mem).(extra := mem[n..n + m]), n + m)
      case Failed => Failed
      case PastEnd => PastEnd
  }

  function ParseEndpoints(mem: seq<Byte>, size: int, count: nat): (r: Outcome<seq<Endpoint>>)
    ensures r.Done? ==> 0 <= r.count <= |mem|
    decreases count
  {
    if count == 0 then Done([], 0)
    else if |mem| < DESC_HEADER_LENGTH then PastEnd
    else if mem[0] > size then Failed
    else
      match ParseEndpoint(mem, size)
      case Failed => Failed
      case PastEnd => PastEnd
      case Done(e, n) =>
        match ParseEndpoints(mem[n..], size - n, count - 1)
        case Failed => Failed
        case PastEnd => PastEnd
        case Done(es, m) => Done([e] + es, n + m)
  }

  /** The rest of an alternate setting, after its own header and extra descriptors. */
  function ParseAltBody(alt: AltSetting, mem: seq<Byte>, size: int): (r: Outcome<(AltSetting, bool)>)
    requires size >= DESC_HEADER_LENGTH ==> |mem| >= DESC_HEADER_LENGTH
    ensures r.Done? ==> 0 <= r.count <= |mem|
  {
    if size >= DESC_HEADER_LENGTH && (mem[1] == DT_CONFIG || mem[1] == DT_DEVICE) then Done((alt, false), 0)
    else if alt.bNumEndpoints > USB_MAXENDPOINTS then Failed
    else
      match ParseEndpoints(mem, size, alt.bNumEndpoints)
      case Failed => Failed
      case PastEnd => PastEnd
      case Done(es, k) =>
        if size - k >= INTERFACE_DESC_LENGTH && |mem| < k + 4 then PastEnd
        else
          Done((alt.(endpoints := es),
                size - k >= INTERFACE_DESC_LENGTH && mem[k + 1] == DT_INTERFACE && mem[k + 3] != 0), k)
  }

  /** One turn of the loop of parse_interface: an alternate setting, and whether another one follows. */
  function ParseAlt(mem: seq<Byte>, size: int): (r: Outcome<(AltSetting, bool)>)
    requires size >= INTERFACE_DESC_LENGTH
    ensures r.Done? ==> 0 < r.count <= |mem|
  {
    if |mem| < INTERFACE_DESC_LENGTH || mem[0] > |mem| then PastEnd
    else
      var n: int := mem[0];
      match SkipExtra(mem[n..], size - n, false)
      case Failed => Failed
      case PastEnd => PastEnd
      case Done(_, m) =>
        match ParseAltBody(InterfaceFields(mem).(extra := mem[n..n + m]), mem[n + m..], size - n - m)
        case Failed => Failed
        case PastEnd => PastEnd
        case Done(v, k) => Done(v, n + m + k)
  }

  function ParseInterface(mem: seq<Byte>, size: int): (r: Outcome<Interface>)
    ensures r.Done? ==> 0 <= r.count <= |mem|
    decreases |mem|
  {
    if size < INTERFACE_DESC_LENGTH then Done([], 0)
    else
      match ParseAlt(mem, size)
      case Failed => Failed
      case PastEnd => PastEnd
      case Done((alt, more), n) =>
        if !more then Done([alt], n)
        else
          match ParseInterface(mem[n..], size - n)
          case Failed => Failed
          case PastEnd => PastEnd
          case Done(alts, m) => Done([alt] + alts, n + m)
  }

  function ParseInterfaces(mem: seq<Byte>, size: int, count: nat, extra: seq<Byte>)
    : (r: Outcome<(seq<Interface>, seq<Byte>)>)
    ensures r.Done? ==> 0 <= r.count <= |mem|
    decreases count
  {
    if count == 0 then Done(([], extra), 0)
    else
      match SkipExtra(mem, size, true)
      case Failed => Failed
      case PastEnd => PastEnd
      case Done(_, n) =>
        match ParseInterface(mem[n..], size - n)
        case Failed => Failed
        case PastEnd => PastEnd
        case Done(alts, m) =>
          ConsInterface(alts, n + m,
            ParseInterfaces(mem[n + m..], size - n - m, count - 1, if extra == [] then mem[..n] else extra))
  }

  function ConsInterface(alts: Interface, n: int, r: Outcome<(seq<Interface>, seq<Byte>)>)
    : Outcome<(seq<Interface>, seq<Byte>)>
  {
    match r
    case Done((rest, extra), k) => Done(([alts] + rest, extra), n + k)
    case Failed => Failed
    case PastEnd => PastEnd
  }

  /** parse_configuration; the count is the number of bytes left over. */
  function ParseConfig(mem: seq<Byte>): Outcome<Config> {
    if |mem| < CONFIG_DESC_LENGTH then PastEnd
    else
      var config := ConfigFields(mem);
      var n: int := config.bLength;
      if config.bNumInterfaces > USB_MAXINTERFACES then Failed
      else if n > |mem| then PastEnd
      else
        match ParseInterfaces(mem[n..], config.wTotalLength - n, config.bNumInterfaces, [])
        case Failed => Failed
        case PastEnd => PastEnd
        case Done((interfaces, extra), m) =>
          Done(config.(interfaces := interfaces, extra := extra), config.wTotalLength - n - m)
  }

  // ---- the format: how a configuration is laid out in bytes ----

  function PrintEndpointHeader(e: Endpoint): (r: seq<Byte>)
    ensures |r| == if e.bLength >= 9 then 9 else 7
  {
    [e.bLength, e.bDescriptorType, e.bEndpointAddress, e.bmAttributes,
     e.wMaxPacketSize % 0x100, e.wMaxPacketSize / 0x100, e.bInterval]
    + if e.bLength >= 9 then [e.bRefresh, e.bSynchAddress] else []
  }

  function PrintEndpoint(e: Endpoint): seq<Byte> {
    PrintEndpointHeader(e) + e.extra
  }

  function PrintEndpoints(es: seq<Endpoint>): seq<Byte> {
    if es == [] then [] else PrintEndpoint(es[0]) + PrintEndpoints(es[1..])
  }

  function PrintAltHeader(a: AltSetting): (r: seq<Byte>)
    ensures |r| == 9
  {
    [a.bLength, a.bDescriptorType, a.bInterfaceNumber, a.bAlternateSetting, a.bNumEndpoints,
     a.bInterfaceClass, a.bInterfaceSubClass, a.bInterfaceProtocol, a.iInterface]
  }

  function PrintAlt(a: AltSetting): seq<Byte> {
    PrintAltHeader(a) + a.extra + PrintEndpoints(a.endpoints)
  }

  function PrintInterface(alts: Interface): seq<Byte> {
    if alts == [] then [] else PrintAlt(alts[0]) + PrintInterface(alts[1..])
  }

  function PrintInterfaces(interfaces: seq<Interface>): seq<Byte> {
    if interfaces == [] then [] else PrintInterface(interfaces[0]) + PrintInterfaces(interfaces[1..])
  }

  function PrintConfigHeader(c: Config): (r: seq<Byte>)
    ensures |r| == 9
  {
    [c.bLength, c.bDescriptorType, c.wTotalLength % 0x100, c.wTotalLength / 0x100, c.bNumInterfaces,
     c.bConfigurationValue, c.iConfiguration, c.bmAttributes, c.MaxPower]
  }

  function PrintConfig(c: Config): seq<Byte> {
    PrintConfigHeader(c) + c.extra + PrintInterfaces(c.interfaces)
  }

  // ---- well-formed trees ----
  // Lengths, types and limits are in numbers here, as the standard has them: a device descriptor has type 1, a
  // configuration 2, an interface 4, an endpoint 5.

  /** A run of whole descriptors, none of them a proper one. */
  predicate ExtraOk(x: seq<Byte>)
    decreases |x|
  {
    x == []
    || (|x| >= 2 && 2 <= x[0] <= |x| && x[1] != 1 && x[1] != 2 && x[1] != 4 && x[1] != 5 && ExtraOk(x[x[0]..]))
  }

  predicate EndpointOk(e: Endpoint) {
    && e.bDescriptorType == 5 && ExtraOk(e.extra)
    && (e.bLength == 9 || (e.bLength == 7 && e.bRefresh == 0 && e.bSynchAddress == 0))
  }

  predicate EndpointsOk(es: seq<Endpoint>) {
    es == [] || (EndpointOk(es[0]) && EndpointsOk(es[1..]))
  }

  predicate AltOk(a: AltSetting) {
    && a.bLength == 9 && a.bDescriptorType == 4 && a.bNumEndpoints as int == |a.endpoints| <= 32
    && ExtraOk(a.extra) && EndpointsOk(a.endpoints)
  }

  /** An alternate setting is told from the next interface by its number not being zero. */
  predicate AlternatesOk(alts: seq<AltSetting>) {
    alts == [] || (AltOk(alts[0]) && alts[0].bAlternateSetting != 0 && AlternatesOk(alts[1..]))
  }

  predicate InterfaceOk(alts: Interface) {
    alts != [] && AltOk(alts[0]) && AlternatesOk(alts[1..])
  }

  /** Every interface but the first begins with alternate setting zero. */
  predicate InterfacesOk(interfaces: seq<Interface>) {
    interfaces == []
    || (&& InterfaceOk(interfaces[0]) && InterfacesOk(interfaces[1..])
        && (|interfaces| > 1 ==> interfaces[1][0].bAlternateSetting == 0))
  }

  predicate ConfigOk(c: Config) {
    && c.bLength == 9 && c.bNumInterfaces as int == |c.interfaces| <= 32
    && c.wTotalLength as int == |PrintConfig(c)|
    && ExtraOk(c.extra) && (c.interfaces == [] ==> c.extra == [])
    && InterfacesOk(c.interfaces)
  }

  // ---- parsing what was printed ----

  /** What may follow an extra blob: nothing, or a proper descriptor. */
  predicate Stops(rest: seq<Byte>) {
    rest == [] || (|rest| >= 2 && DESC_HEADER_LENGTH <= rest[0] <= |rest| && Proper(rest[1]))
  }

  /** What may follow a whole alternate setting: nothing, or an interface descriptor. */
  predicate InterfaceNext(rest: seq<Byte>) {
    rest == [] || (|rest| >= INTERFACE_DESC_LENGTH && rest[0] == INTERFACE_DESC_LENGTH && rest[1] == DT_INTERFACE)
  }

  lemma InterfaceNextStops(rest: seq<Byte>)
    requires InterfaceNext(rest)
    ensures Stops(rest)
  {
  }

  lemma Thirds(a: seq<Byte>, b: seq<Byte>, c: seq<Byte>)
    ensures var mem := a + (b + c);
            && a + b + c == mem && mem[..|a|] == a && mem[|a|..] == b + c
            && mem[|a|..|a| + |b|] == b && mem[|a| + |b|..] == c
  {
  }

  lemma SkipStep(mem: seq<Byte>, size: int, strict: bool, m: int)
    requires size >= 2 && |mem| >= 2 && 2 <= mem[0] <= |mem| && (strict ==> mem[0] <= size) && !Proper(mem[1])
    requires SkipExtra(mem[mem[0]..], size - mem[0], strict) == Done((), m)
    ensures SkipExtra(mem, size, strict) == Done((), mem[0] + m)
  {
  }

  lemma SkipNothing(rest: seq<Byte>, strict: bool)
    requires Stops(rest)
    ensures SkipExtra(rest, |rest|, strict) == Done((), 0)
  {
  }

  lemma ExtraHead(x: seq<Byte>)
    requires ExtraOk(x) && x != []
    ensures |x| >= 2 && 2 <= x[0] <= |x| && !Proper(x[1]) && ExtraOk(x[x[0]..])
  {
  }

  lemma {:induction false} SkipsPrintedExtra(x: seq<Byte>, rest: seq<Byte>, strict: bool)
    requires ExtraOk(x) && Stops(rest)
    ensures SkipExtra(x + rest, |x| + |rest|, strict) == Done((), |x|)
    decreases |x|
  {
    hide SkipExtra, ExtraOk, Stops;
    if x == [] {
      assert x + rest == rest;
      SkipNothing(rest, strict);
    } else {
      ExtraHead(x);
      var n: int := x[0];
      var mem := x + rest;
      SkipsPrintedExtra(x[n..], rest, strict);
      assert mem[n..] == x[n..] + rest && mem[0] == n && mem[1] == x[1];
      SkipStep(mem, |x| + |rest|, strict, |x| - n);
    }
  }

  lemma Le16RoundTrip(w: Word)
    ensures Le16(w % 0x100, w / 0x100) == w
  {
  }

  lemma EndpointFieldsPrinted(e: Endpoint, tail: seq<Byte>)
    requires EndpointOk(e)
    ensures var mem := PrintEndpointHeader(e) + tail;
            && |PrintEndpointHeader(e)| == e.bLength as int && mem[0] == e.bLength && mem[1] == DT_ENDPOINT
            && EndpointFields(mem) == e.(extra := [])
  {
    Le16RoundTrip(e.wMaxPacketSize);
    hide ExtraOk, Le16;
  }

  lemma ParseEndpointStep(mem: seq<Byte>, size: int, m: int)
    requires 2 <= |mem| && 7 <= mem[0] <= |mem| && mem[0] <= size && mem[1] == DT_ENDPOINT
    requires SkipExtra(mem[mem[0]..], size - mem[0], false) == Done((), m)
    ensures ParseEndpoint(mem, size) == Done(EndpointFields(mem).(extra := mem[mem[0]..mem[0] + m]), mem[0] + m)
  {
    hide SkipExtra, EndpointFields;
  }

  lemma EndpointRoundTrip(e: Endpoint, rest: seq<Byte>)
    requires EndpointOk(e) && Stops(rest)
    ensures ParseEndpoint(PrintEndpoint(e) + rest, |PrintEndpoint(e)| + |rest|) == Done(e, |PrintEndpoint(e)|)
  {
    hide SkipExtra, ParseEndpoint, EndpointFields, PrintEndpointHeader, ExtraOk, Stops;
    var head := PrintEndpointHeader(e);
    EndpointFieldsPrinted(e, e.extra + rest);
    SkipsPrintedExtra(e.extra, rest, false);
    Thirds(head, e.extra, rest);
    ParseEndpointStep(head + (e.extra + rest), |PrintEndpoint(e)| + |rest|, |e.extra|);
  }

  lemma EndpointHead(e: Endpoint, tail: seq<Byte>)
    requires EndpointOk(e)
    ensures |PrintEndpoint(e)| >= e.bLength as int >= 2
    ensures (PrintEndpoint(e) + tail)[0] == e.bLength && (PrintEndpoint(e) + tail)[1] == DT_ENDPOINT
    ensures Stops(PrintEndpoint(e) + tail)
  {
    EndpointFieldsPrinted(e, e.extra);
    hide PrintEndpointHeader, EndpointFields, ExtraOk;
  }

  lemma EndpointsStop(es: seq<Endpoint>, rest: seq<Byte>)
    requires EndpointsOk(es) && InterfaceNext(rest)
    ensures var next := PrintEndpoints(es) + rest;
            Stops(next) && (|next| >= 2 ==> next[1] == DT_ENDPOINT || next[1] == DT_INTERFACE)
  {
    if es == [] {
      assert PrintEndpoints(es) + rest == rest;
    } else {
      hide PrintEndpoint, EndpointOk, Stops;
      EndpointHead(es[0], PrintEndpoints(es[1..]) + rest);
      assert PrintEndpoints(es) + rest == PrintEndpoint(es[0]) + (PrintEndpoints(es[1..]) + rest);
    }
  }

  lemma ParseEndpointsStep(mem: seq<Byte>, size: int, count: nat, e: Endpoint, n: int, es: seq<Endpoint>, m: int)
    requires |mem| >= 2 && mem[0] <= size && count > 0 && ParseEndpoint(mem, size) == Done(e, n)
    requires ParseEndpoints(mem[n..], size - n, count - 1) == Done(es, m)
    ensures ParseEndpoints(mem, size, count) == Done([e] + es, n + m)
  {
    hide ParseEndpoint;
  }

  lemma NoEndpoints(mem: seq<Byte>, size: int)
    ensures ParseEndpoints(mem, size, 0) == Done([], 0) && PrintEndpoints([]) == [] && EndpointsOk([])
  {
  }

  lemma EndpointsSplit(es: seq<Endpoint>)
    requires es != []
    ensures es == [es[0]] + es[1..] && PrintEndpoints(es) == PrintEndpoint(es[0]) + PrintEndpoints(es[1..])
    ensures EndpointsOk(es) <==> EndpointOk(es[0]) && EndpointsOk(es[1..])
  {
    hide PrintEndpoint, EndpointOk;
  }

  lemma {:induction false} EndpointsRoundTrip(es: seq<Endpoint>, rest: seq<Byte>)
    requires EndpointsOk(es) && InterfaceNext(rest)
    ensures ParseEndpoints(PrintEndpoints(es) + rest, |PrintEndpoints(es)| + |rest|, |es|)
         == Done(es, |PrintEndpoints(es)|)
  {
    hide ParseEndpoint, ParseEndpoints, PrintEndpoint, PrintEndpoints, EndpointOk, EndpointsOk, Stops, InterfaceNext;
    if es == [] {
      NoEndpoints(PrintEndpoints(es) + rest, |rest|);
    } else {
      var first, body := PrintEndpoint(es[0]), PrintEndpoints(es[1..]);
      var tail := body + rest;
      EndpointsSplit(es);
      EndpointsRoundTrip(es[1..], rest);
      EndpointsStop(es[1..], rest);
      EndpointRoundTrip(es[0], tail);
      EndpointHead(es[0], tail);
      Thirds(first, body, rest);
      ParseEndpointsStep(first + tail, |first| + |tail|, |es|, es[0], |first|, es[1..], |body|);
    }
  }

  // ---- alternate settings and interfaces ----

  lemma ParseAltBodyStep(alt: AltSetting, mem: seq<Byte>, size: int, es: seq<Endpoint>, k: int)
    requires size >= DESC_HEADER_LENGTH ==> |mem| >= 2 && mem[1] != DT_CONFIG && mem[1] != DT_DEVICE
    requires alt.bNumEndpoints <= USB_MAXENDPOINTS && ParseEndpoints(mem, size, alt.bNumEndpoints) == Done(es, k)
    requires size - k >= INTERFACE_DESC_LENGTH ==> |mem| >= k + 4
    ensures ParseAltBody(alt, mem, size)
         == Done((alt.(endpoints := es),
                  size - k >= INTERFACE_DESC_LENGTH && mem[k + 1] == DT_INTERFACE && mem[k + 3] != 0), k)
  {
    hide ParseEndpoints;
  }

  lemma ParseAltStep(mem: seq<Byte>, size: int, m: int, v: (AltSetting, bool), k: int)
    requires size >= INTERFACE_DESC_LENGTH && |mem| >= INTERFACE_DESC_LENGTH == mem[0] as int
    requires SkipExtra(mem[9..], size - 9, false) == Done((), m)
    requires ParseAltBody(InterfaceFields(mem).(extra := mem[9..9 + m]), mem[9 + m..], size - 9 - m) == Done(v, k)
    ensures ParseAlt(mem, size) == Done(v, 9 + m + k)
  {
    hide SkipExtra, ParseAltBody, InterfaceFields;
  }

  lemma AltFieldsPrinted(a: AltSetting, tail: seq<Byte>)
    requires a.bLength == INTERFACE_DESC_LENGTH
    ensures var mem := PrintAltHeader(a) + tail;
            && mem[0] == 9 && mem[1] == a.bDescriptorType && mem[3] == a.bAlternateSetting
            && InterfaceFields(mem) == a.(endpoints := [], extra := [])
  {
  }

  lemma AltPieces(a: AltSetting, rest: seq<Byte>)
    requires AltOk(a)
    ensures var (mem, m, eps) := (PrintAlt(a) + rest, |a.extra|, PrintEndpoints(a.endpoints));
            && |PrintAlt(a)| == 9 + m + |eps|
            && mem[9..9 + m] == a.extra && mem[9..] == a.extra + (eps + rest)
            && mem[9 + m..] == eps + rest && mem[9 + m + |eps|..] == rest
            && mem[0] == 9 && InterfaceFields(mem) == a.(endpoints := [], extra := [])
  {
    hide PrintAltHeader, PrintEndpoints, ExtraOk, EndpointsOk, InterfaceFields;
    var head, eps := PrintAltHeader(a), PrintEndpoints(a.endpoints);
    AltFieldsPrinted(a, a.extra + (eps + rest));
    Thirds(head, a.extra, eps + rest);
    Thirds(head + a.extra, eps, rest);
    assert PrintAlt(a) + rest == head + (a.extra + (eps + rest));
  }

  lemma AltRoundTrip(a: AltSetting, rest: seq<Byte>)
    requires AltOk(a) && InterfaceNext(rest)
    ensures ParseAlt(PrintAlt(a) + rest, |PrintAlt(a)| + |rest|)
         == Done((a, rest != [] && rest[3] != 0), |PrintAlt(a)|)
  {
    hide SkipExtra, ExtraOk, ParseAlt, ParseAltBody, ParseEndpoints, PrintEndpoints, PrintAlt, InterfaceFields, Stops,
         EndpointsOk;
    var eps := PrintEndpoints(a.endpoints);
    var mem, m, k := PrintAlt(a) + rest, |a.extra|, |eps|;
    AltPieces(a, rest);
    EndpointsStop(a.endpoints, rest);
    SkipsPrintedExtra(a.extra, eps + rest, false);
    EndpointsRoundTrip(a.endpoints, rest);
    assert |rest| > 3 ==> rest[1] == (eps + rest)[k + 1] && rest[3] == (eps + rest)[k + 3];
    var a' := a.(endpoints := []);
    ParseAltBodyStep(a', eps + rest, k + |rest|, a.endpoints, k);
    ParseAltStep(mem, |PrintAlt(a)| + |rest|, m, (a, rest != [] && rest[3] != 0), k);
  }

  lemma AltHead(a: AltSetting, tail: seq<Byte>)
    requires AltOk(a)
    ensures InterfaceNext(PrintAlt(a) + tail) && (PrintAlt(a) + tail)[3] == a.bAlternateSetting
    ensures |PrintAlt(a)| >= 9
  {
    hide PrintAltHeader, PrintEndpoints, ExtraOk, EndpointsOk, InterfaceFields;
    var body := a.extra + PrintEndpoints(a.endpoints);
    AltFieldsPrinted(a, body + tail);
    assert PrintAlt(a) + tail == PrintAltHeader(a) + (body + tail);
  }

  lemma InterfaceSplit(alts: Interface)
    requires alts != []
    ensures alts == [alts[0]] + alts[1..] && PrintInterface(alts) == PrintAlt(alts[0]) + PrintInterface(alts[1..])
    ensures InterfaceOk(alts) <==>
              AltOk(alts[0]) && (alts[1..] != [] ==> InterfaceOk(alts[1..]) && alts[1].bAlternateSetting != 0)
  {
    hide PrintAlt, AltOk;
  }

  /** What follows the first alternate setting: the next one, or the next interface. */
  lemma AlternateNext(alts: seq<AltSetting>, rest: seq<Byte>)
    requires (alts != [] ==> InterfaceOk(alts)) && InterfaceNext(rest)
    ensures var next := PrintInterface(alts) + rest;
            InterfaceNext(next) && (alts == [] ==> next == rest)
            && (alts != [] ==> next != [] && next[3] == alts[0].bAlternateSetting)
  {
    hide PrintAlt, AltOk, InterfaceNext;
    if alts == [] {
      assert PrintInterface(alts) + rest == rest;
    } else {
      InterfaceSplit(alts);
      AltHead(alts[0], PrintInterface(alts[1..]) + rest);
      Thirds(PrintAlt(alts[0]), PrintInterface(alts[1..]), rest);
    }
  }

  lemma ParseInterfaceStep(mem: seq<Byte>, size: int, alt: AltSetting, n: int, alts: Interface, m: int)
    requires size >= INTERFACE_DESC_LENGTH && ParseAlt(mem, size) == Done((alt, alts != []), n)
    requires if alts == [] then m == 0 else ParseInterface(mem[n..], size - n) == Done(alts, m)
    ensures ParseInterface(mem, size) == Done([alt] + alts, n + m)
  {
    hide ParseAlt;
    assert [alt] + [] == [alt];
  }

  lemma {:induction false} InterfaceRoundTrip(alts: Interface, rest: seq<Byte>)
    requires InterfaceOk(alts) && InterfaceNext(rest) && (rest != [] ==> rest[3] == 0)
    ensures ParseInterface(PrintInterface(alts) + rest, |PrintInterface(alts)| + |rest|)
         == Done(alts, |PrintInterface(alts)|)
    decreases |alts|
  {
    InterfaceNotEmpty(alts);
    hide ParseAlt, ParseInterface, AltOk, PrintAlt, PrintInterface, InterfaceOk, InterfaceNext;
    var first, body := PrintAlt(alts[0]), PrintInterface(alts[1..]);
    var tail := body + rest;
    InterfaceSplit(alts);
    AlternateNext(alts[1..], rest);
    AltRoundTrip(alts[0], tail);
    AltHead(alts[0], tail);
    Thirds(first, body, rest);
    if alts[1..] != [] {
      InterfaceRoundTrip(alts[1..], rest);
    } else {
      NoAlternates();
    }
    ParseInterfaceStep(first + tail, |first| + |tail|, alts[0], |first|, alts[1..], |body|);
  }

  lemma InterfaceNotEmpty(alts: Interface)
    ensures InterfaceOk(alts) ==> alts != []
  {
  }

  lemma NoAlternates()
    ensures PrintInterface([]) == []
  {
  }

  // ---- configurations ----

  lemma InterfacesSplit(interfaces: seq<Interface>)
    requires interfaces != []
    ensures interfaces == [interfaces[0]] + interfaces[1..]
    ensures PrintInterfaces(interfaces) == PrintInterface(interfaces[0]) + PrintInterfaces(interfaces[1..])
    ensures InterfacesOk(interfaces) ==>
              && InterfaceOk(interfaces[0]) && InterfacesOk(interfaces[1..])
              && (interfaces[1..] != [] ==> interfaces[1] != [] && interfaces[1][0].bAlternateSetting == 0)
  {
    hide PrintInterface;
  }

  lemma InterfacesNext(interfaces: seq<Interface>)
    requires InterfacesOk(interfaces)
    ensures InterfaceNext(PrintInterfaces(interfaces))
    ensures interfaces != [] ==> PrintInterfaces(interfaces) != [] && interfaces[0] != []
    ensures interfaces != [] ==> PrintInterfaces(interfaces)[3] == interfaces[0][0].bAlternateSetting
    ensures interfaces == [] ==> PrintInterfaces(interfaces) == []
    decreases |interfaces|
  {
    if interfaces != [] {
      hide PrintInterface, PrintInterfaces, InterfaceNext, InterfacesOk;
      InterfacesSplit(interfaces);
      InterfacesNext(interfaces[1..]);
      InterfaceNotEmpty(interfaces[0]);
      hide InterfaceOk;
      AlternateNext(interfaces[0], PrintInterfaces(interfaces[1..]));
    }
  }

  lemma ParseInterfacesStep(mem: seq<Byte>, size: int, count: nat, extra: seq<Byte>, n: int, alts: Interface, m: int,
                            interfaces: seq<Interface>, extra': seq<Byte>, k: int)
    requires count > 0 && SkipExtra(mem, size, true) == Done((), n)
    requires ParseInterface(mem[n..], size - n) == Done(alts, m)
    requires ParseInterfaces(mem[n + m..], size - n - m, count - 1, if extra == [] then mem[..n] else extra)
          == Done((interfaces, extra'), k)
    ensures ParseInterfaces(mem, size, count, extra) == Done(([alts] + interfaces, extra'), n + m + k)
  {
    hide SkipExtra, ParseInterface;
  }

  lemma NoInterfaces(mem: seq<Byte>, size: int, extra: seq<Byte>)
    ensures ParseInterfaces(mem, size, 0, extra) == Done(([], extra), 0) && PrintInterfaces([]) == []
  {
  }

  /** Before the first interface the extra blob is kept; a later one never finds any. */
  lemma {:induction false} InterfacesRoundTrip(x: seq<Byte>, interfaces: seq<Interface>, extra: seq<Byte>)
    requires ExtraOk(x) && (extra == [] || x == []) && InterfacesOk(interfaces) && (interfaces == [] ==> x == [])
    ensures var printed := PrintInterfaces(interfaces);
            ParseInterfaces(x + printed, |x| + |printed|, |interfaces|, extra)
            == Done((interfaces, x + extra), |x| + |printed|)
    decreases |interfaces|
  {
    hide SkipExtra, ParseInterface, ParseInterfaces, InterfaceOk, ExtraOk, PrintInterface, PrintInterfaces,
         InterfacesOk, InterfaceNext, Stops;
    var printed := PrintInterfaces(interfaces);
    var mem := x + printed;
    if interfaces == [] {
      NoInterfaces(mem, 0, extra);
      assert x + extra == extra;
    } else {
      var tail := PrintInterfaces(interfaces[1..]);
      InterfacesSplit(interfaces);
      InterfacesNext(interfaces);
      InterfacesNext(interfaces[1..]);
      InterfaceNextStops(printed);
      EmptyExtra();
      InterfacesRoundTrip([], interfaces[1..], x + extra);
      assert [] + tail == tail && [] + (x + extra) == x + extra;
      OneMoreInterface(x, interfaces[0], interfaces[1..], tail, extra);
    }
  }

  lemma FirstInterfaceParses(x: seq<Byte>, alts: Interface, tail: seq<Byte>)
    requires ExtraOk(x) && InterfaceOk(alts) && InterfaceNext(tail) && Stops(PrintInterface(alts) + tail)
    requires tail != [] ==> tail[3] == 0
    ensures var (n, m, mem) := (|x|, |PrintInterface(alts)|, x + (PrintInterface(alts) + tail));
            && SkipExtra(mem, |mem|, true) == Done((), n)
            && ParseInterface(mem[n..], |mem| - n) == Done(alts, m)
            && mem[n + m..] == tail && mem[..n] == x
  {
    hide SkipExtra, ParseInterface, InterfaceOk, ExtraOk, PrintInterface, InterfaceNext, Stops;
    SkipsPrintedExtra(x, PrintInterface(alts) + tail, true);
    InterfaceRoundTrip(alts, tail);
    Thirds(x, PrintInterface(alts), tail);
  }

  /** If the rest of the interfaces parses, so does one more in front of it. */
  lemma OneMoreInterface(x: seq<Byte>, alts: Interface, rest: seq<Interface>, tail: seq<Byte>, extra: seq<Byte>)
    requires ExtraOk(x) && (extra == [] || x == []) && InterfaceOk(alts)
    requires InterfaceNext(tail) && Stops(PrintInterface(alts) + tail) && (tail != [] ==> tail[3] == 0)
    requires ParseInterfaces(tail, |tail|, |rest|, x + extra) == Done((rest, x + extra), |tail|)
    ensures var printed := PrintInterface(alts) + tail;
            ParseInterfaces(x + printed, |x| + |printed|, |rest| + 1, extra)
            == Done(([alts] + rest, x + extra), |x| + |printed|)
  {
    hide SkipExtra, ParseInterface, ParseInterfaces, InterfaceOk, ExtraOk, PrintInterface, InterfaceNext, Stops;
    var first := PrintInterface(alts);
    FirstInterfaceParses(x, alts, tail);
    KeptExtra(x, extra, first + tail);
    ParseInterfacesStep(x + (first + tail), |x| + |first + tail|, |rest| + 1, extra, |x|, alts, |first|,
                        rest, x + extra, |tail|);
  }

  lemma KeptExtra(x: seq<Byte>, extra: seq<Byte>, tail: seq<Byte>)
    requires extra == [] || x == []
    ensures x + extra == if extra == [] then (x + tail)[..|x|] else extra
  {
  }

  lemma EmptyExtra()
    ensures ExtraOk([])
  {
  }

  lemma ConfigFieldsPrinted(c: Config, tail: seq<Byte>)
    ensures ConfigFields(PrintConfigHeader(c) + tail) == c.(interfaces := [], extra := [])
  {
    Le16RoundTrip(c.wTotalLength);
    hide Le16;
  }

  /** Main result: parsing the bytes of a well-formed tree gives back the tree, with the same extra
      descriptors at the same nodes, and leaves nothing over. */
  lemma ConfigRoundTrip(c: Config)
    requires ConfigOk(c)
    ensures ParseConfig(PrintConfig(c)) == Done(c, 0)
  {
    hide ParseInterfaces, PrintInterfaces, InterfacesOk, ExtraOk, ConfigFields, PrintConfigHeader;
    var mem, printed := PrintConfig(c), PrintInterfaces(c.interfaces);
    InterfacesRoundTrip(c.extra, c.interfaces, []);
    Thirds(PrintConfigHeader(c), c.extra, printed);
    ConfigFieldsPrinted(c, c.extra + printed);
    assert c.extra + [] == c.extra;
  }

  /** The limits on what a configuration, or an alternate setting, says it has. */
  lemma TooManyAreRefused(mem: seq<Byte>, alt: AltSetting, rest: seq<Byte>, size: int)
    requires size >= 2 ==> |rest| >= 2
    ensures |mem| >= 9 && mem[4] > 32 ==> ParseConfig(mem) == Failed
    ensures alt.bNumEndpoints > 32 && !(size >= 2 && (rest[1] == 1 || rest[1] == 2)) ==>
              ParseAltBody(alt, rest, size) == Failed
  {
  }

  // ---- a configuration, byte for byte ----

  /** One interface with two alternate settings: the first has a class specific descriptor and a bulk endpoint, the
      second an audio endpoint with a class specific descriptor of its own; another extra descriptor leads. */
  const CONFIG_BYTES: seq<Byte> := [0x09, 0x02, 0x37, 0x00, 0x01, 0x07, 0x04, 0xC0, 0x32, 0x04, 0x0B, 0x11, 0x22]
  const ALT0_BYTES: seq<Byte> := [0x09, 0x04, 0x03, 0x00, 0x01, 0x08, 0x06, 0x50, 0x05, 0x05, 0x24, 0x00, 0x10, 0x01]
  const BULK_BYTES: seq<Byte> := [0x07, 0x05, 0x81, 0x02, 0x00, 0x02, 0x06]
  const ALT1_BYTES: seq<Byte> := [0x09, 0x04, 0x03, 0x01, 0x01, 0x08, 0x06, 0x50, 0x05]
  const AUDIO_BYTES: seq<Byte> := [0x09, 0x05, 0x02, 0x0D, 0x40, 0x01, 0x01, 0xA0, 0xB0, 0x03, 0x25, 0x33]
  const EXAMPLE: seq<Byte> := CONFIG_BYTES + (ALT0_BYTES + BULK_BYTES + (ALT1_BYTES + AUDIO_BYTES))

  const BULK_ENDPOINT := Endpoint(7, 5, 0x81, 2, 512, 6, 0, 0, [])
  const AUDIO_ENDPOINT := Endpoint(9, 5, 2, 0x0D, 320, 1, 0xA0, 0xB0, [0x03, 0x25, 0x33])

  const EXAMPLE_TREE := Config(
    9, 2, 55, 1, 7, 4, 0xC0, 50,
    [[AltSetting(9, 4, 3, 0, 1, 8, 6, 0x50, 5, [BULK_ENDPOINT], [0x05, 0x24, 0x00, 0x10, 0x01]),
      AltSetting(9, 4, 3, 1, 1, 8, 6, 0x50, 5, [AUDIO_ENDPOINT], [])]],
    [0x04, 0x0B, 0x11, 0x22])

  lemma ExampleParses()
    ensures ParseConfig(EXAMPLE) == Done(EXAMPLE_TREE, 0)
  {
    ExamplePrints();
    ExampleIsOk();
    ConfigRoundTrip(EXAMPLE_TREE);
  }

  lemma PrintsOneEndpoint(e: Endpoint)
    ensures PrintEndpoints([e]) == PrintEndpoint(e)
  {
    assert [e][1..] == [];
  }

  lemma PrintsTwoAlternates(a: AltSetting, b: AltSetting)
    ensures PrintInterfaces([[a, b]]) == PrintAlt(a) + PrintAlt(b)
  {
    hide PrintAlt;
    assert [a, b][1..] == [b] && [b][1..] == [];
    assert PrintInterface([b]) == PrintAlt(b);
    assert PrintInterface([a, b]) == PrintAlt(a) + PrintInterface([b]);
    var alts := [a, b];
    assert [alts][1..] == [];
    assert PrintInterfaces([alts]) == PrintInterface(alts);
  }

  lemma ExamplePrints()
    ensures PrintConfig(EXAMPLE_TREE) == EXAMPLE
  {
    var a, b := EXAMPLE_TREE.interfaces[0][0], EXAMPLE_TREE.interfaces[0][1];
    PrintsOneEndpoint(BULK_ENDPOINT);
    PrintsOneEndpoint(AUDIO_ENDPOINT);
    assert PrintEndpoint(BULK_ENDPOINT) == BULK_BYTES && PrintEndpoint(AUDIO_ENDPOINT) == AUDIO_BYTES;
    assert PrintAltHeader(a) + a.extra == ALT0_BYTES && PrintAltHeader(b) + b.extra == ALT1_BYTES;
    hide PrintEndpoints, PrintEndpoint, PrintAltHeader;
    assert PrintAlt(a) == ALT0_BYTES + BULK_BYTES && PrintAlt(b) == ALT1_BYTES + AUDIO_BYTES;
    assert PrintConfigHeader(EXAMPLE_TREE) + EXAMPLE_TREE.extra == CONFIG_BYTES;
    hide PrintAlt, PrintConfigHeader;
    PrintsTwoAlternates(a, b);
    assert EXAMPLE_TREE.interfaces == [[a, b]];
  }

  lemma ExampleIsOk()
    ensures ConfigOk(EXAMPLE_TREE)
  {
    ExamplePrints();
    var a, b := EXAMPLE_TREE.interfaces[0][0], EXAMPLE_TREE.interfaces[0][1];
    assert ExtraOk([]);
    assert ExtraOk(a.extra) && ExtraOk(AUDIO_ENDPOINT.extra) && ExtraOk(EXAMPLE_TREE.extra);
    assert EndpointsOk([]) && EndpointsOk([BULK_ENDPOINT]) && EndpointsOk([AUDIO_ENDPOINT]);
    assert AlternatesOk([]) && AlternatesOk([b]) && InterfaceOk([a, b]) && InterfacesOk([]);
  }
}
