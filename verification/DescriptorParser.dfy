/** The parser as it runs: a cursor and a remaining size, advanced by nested loops. */
module DescriptorParser {
  import opened Bytes
  import opened Descriptors

  /** The same outcome, seen from k bytes earlier. */
  function After<T>(k: int, r: Outcome<T>): Outcome<T> {
    match r
    case Done(v, n) => Done(v, k + n)
    case Failed => Failed
    case PastEnd => PastEnd
  }

  /** The outcome of a list parser that has already produced some items in k bytes. */
  function Prepend<T>(items: seq<T>, k: int, r: Outcome<seq<T>>): Outcome<seq<T>> {
    match r
    case Done(v, n) => Done(items + v, k + n)
    case Failed => Failed
    case PastEnd => PastEnd
  }

  lemma DropDrop(buffer: seq<Byte>, at: int, k: int)
    requires 0 <= at && 0 <= k && at + k <= |buffer|
    ensures buffer[at..][k..] == buffer[at + k..]
  {
  }

  /** One turn of the skipping loop. */
  lemma SkipUnfold(mem: seq<Byte>, size: int, strict: bool)
    ensures var r := SkipExtra(mem, size, strict);
            if size < 2 then r == Done((), 0)
            else if |mem| < 2 then r == PastEnd
            else if mem[0] < 2 || (strict && mem[0] > size) then r == Failed
            else if Proper(mem[1]) then r == Done((), 0)
            else if mem[0] > |mem| then r == PastEnd
            else r == After(mem[0], SkipExtra(mem[mem[0]..], size - mem[0], strict))
  {
  }

  lemma AfterAfter<T>(k: int, n: int, r: Outcome<T>)
    ensures After(k, After(n, r)) == After(k + n, r) && After(0, r) == r
    ensures r.Done? ==> After(k, r) == Done(r.value, k + r.count)
    ensures !r.Done? ==> After(k, r) == r
  {
  }

  /** Skip over any class or vendor descriptors. */
  method SkipExtraAt(buffer: seq<Byte>, at0: int, size0: int, strict: bool) returns (r: Outcome<()>)
    requires 0 <= at0 <= |buffer|
    ensures r == SkipExtra(buffer[at0..], size0, strict)
  {
    hide SkipExtra, After;
    ghost var whole := SkipExtra(buffer[at0..], size0, strict);
    AfterAfter(0, 0, whole);
    var at, size := at0, size0;
    while size >= DESC_HEADER_LENGTH
      invariant at0 <= at <= |buffer|
      invariant whole == After(at - at0, SkipExtra(buffer[at..], size, strict))
    {
      ghost var mem := buffer[at..];
      SkipUnfold(mem, size, strict);
      AfterAfter(at - at0, 0, SkipExtra(mem, size, strict));
      if at + DESC_HEADER_LENGTH > |buffer| {
        return PastEnd;
      }
      var bLength, bDescriptorType := buffer[at], buffer[at + 1];
      if (strict && bLength > size) || bLength < DESC_HEADER_LENGTH {
        return Failed;
      }
      if bDescriptorType == DT_ENDPOINT || bDescriptorType == DT_INTERFACE ||
         bDescriptorType == DT_CONFIG || bDescriptorType == DT_DEVICE {
        break;
      }
      if at + bLength > |buffer| {
        return PastEnd;
      }
      DropDrop(buffer, at, bLength);
      AfterAfter(at - at0, bLength, SkipExtra(mem[bLength..], size - bLength, strict));
      at, size := at + bLength, size - bLength;
    }
    SkipUnfold(buffer[at..], size, strict);
    AfterAfter(at - at0, 0, SkipExtra(buffer[at..], size, strict));
    r := Done((), at - at0);
  }

  /** parse_endpoint. */
  method ParseEndpointAt(buffer: seq<Byte>, at0: int, size0: int) returns (r: Outcome<Endpoint>)
    requires 0 <= at0 <= |buffer|
    ensures r == ParseEndpoint(buffer[at0..], size0)
  {
    hide SkipExtra, EndpointFields;
    if at0 + DESC_HEADER_LENGTH > |buffer| {
      return PastEnd;
    }
    var bLength, bDescriptorType := buffer[at0], buffer[at0 + 1];
    if bLength > size0 {
      return Failed;
    }
    if bDescriptorType != DT_ENDPOINT {
      return Done(NO_ENDPOINT, 0);
    }
    if at0 + bLength > |buffer| {
      return PastEnd;
    }
    var endpoint := EndpointFields(buffer[at0..]);
    var at, size := at0 + bLength, size0 - bLength;
    DropDrop(buffer, at0, bLength);
    var skipped := SkipExtraAt(buffer, at, size, false);
    match skipped
    case Failed => r := Failed;
    case PastEnd => r := PastEnd;
    case Done(_, len) =>
      assert buffer[at0..][bLength..bLength + len] == buffer[at..at + len];
      r := Done(endpoint.(extra := buffer[at..at + len]), bLength + len);
  }

  lemma EndpointsUnfold(mem: seq<Byte>, size: int, count: nat, es: seq<Endpoint>, k: int)
    requires count > 0
    ensures |mem| < 2 ==> Prepend(es, k, ParseEndpoints(mem, size, count)) == PastEnd
    ensures |mem| >= 2 && mem[0] > size ==> Prepend(es, k, ParseEndpoints(mem, size, count)) == Failed
    ensures |mem| >= 2 && mem[0] <= size ==>
              match ParseEndpoint(mem, size)
              case Failed => Prepend(es, k, ParseEndpoints(mem, size, count)) == Failed
              case PastEnd => Prepend(es, k, ParseEndpoints(mem, size, count)) == PastEnd
              case Done(e, n) =>
                Prepend(es, k, ParseEndpoints(mem, size, count))
                == Prepend(es + [e], k + n, ParseEndpoints(mem[n..], size - n, count - 1))
  {
    hide ParseEndpoint;
    if |mem| >= 2 && mem[0] <= size && ParseEndpoint(mem, size).Done? {
      var e, n := ParseEndpoint(mem, size).value, ParseEndpoint(mem, size).count;
      var tail := ParseEndpoints(mem[n..], size - n, count - 1);
      if tail.Done? {
        assert es + ([e] + tail.value) == es + [e] + tail.value;
      }
    }
  }

  /** The endpoint loop of parse_interface. */
  method ParseEndpointsAt(buffer: seq<Byte>, at0: int, size0: int, count: nat) returns (r: Outcome<seq<Endpoint>>)
    requires 0 <= at0 <= |buffer|
    ensures r == ParseEndpoints(buffer[at0..], size0, count)
  {
    hide ParseEndpoint, ParseEndpoints, Prepend;
    ghost var whole := ParseEndpoints(buffer[at0..], size0, count);
    var at, size, endpoints := at0, size0, [];
    PrependNothing(whole);
    for i := 0 to count
      invariant at0 <= at <= |buffer|
      invariant whole == Prepend(endpoints, at - at0, ParseEndpoints(buffer[at..], size, count - i))
    {
      EndpointsUnfold(buffer[at..], size, count - i, endpoints, at - at0);
      if at + DESC_HEADER_LENGTH > |buffer| {
        return PastEnd;
      }
      if buffer[at] > size {
        return Failed;
      }
      var parsed := ParseEndpointAt(buffer, at, size);
      match parsed
      case Failed => return Failed;
      case PastEnd => return PastEnd;
      case Done(endpoint, n) =>
        DropDrop(buffer, at, n);
        endpoints := endpoints + [endpoint];
        at, size := at + n, size - n;
    }
    NoEndpoints(buffer[at..], size);
    PrependEnd(endpoints, at - at0);
    r := Done(endpoints, at - at0);
  }

  lemma PrependNothing<T>(r: Outcome<seq<T>>)
    ensures Prepend([], 0, r) == r
  {
    if r.Done? {
      assert [] + r.value == r.value;
    }
  }

  lemma PrependEnd<T>(items: seq<T>, k: int)
    ensures Prepend(items, k, Done([], 0)) == Done(items, k)
  {
    assert items + [] == items;
  }

  /** The body of the loop of parse_interface. */
  method ParseAltAt(buffer: seq<Byte>, at0: int, size0: int) returns (r: Outcome<(AltSetting, bool)>)
    requires 0 <= at0 <= |buffer| && size0 >= INTERFACE_DESC_LENGTH
    ensures r == ParseAlt(buffer[at0..], size0)
  {
    hide SkipExtra, ParseEndpoints, InterfaceFields, ParseAltBody;
    if at0 + INTERFACE_DESC_LENGTH > |buffer| {
      return PastEnd;
    }
    var alt := InterfaceFields(buffer[at0..]);
    if at0 + alt.bLength > |buffer| {
      return PastEnd;
    }
    var at, size := at0 + alt.bLength, size0 - alt.bLength;
    DropDrop(buffer, at0, alt.bLength);
    var skipped := SkipExtraAt(buffer, at, size, false);
    match skipped
    case Failed => r := Failed;
    case PastEnd => r := PastEnd;
    case Done(_, len) =>
      DropDrop(buffer, at0, alt.bLength + len);
      assert buffer[at0..][alt.bLength..alt.bLength + len] == buffer[at..at + len];
      alt := alt.(extra := buffer[at..at + len]);
      var body := ParseAltBodyAt(alt, buffer, at + len, size - len);
      r := After(at + len - at0, body);
  }

  method ParseAltBodyAt(alt: AltSetting, buffer: seq<Byte>, at0: int, size0: int)
    returns (r: Outcome<(AltSetting, bool)>)
    requires 0 <= at0 <= |buffer| && (size0 >= DESC_HEADER_LENGTH ==> |buffer| - at0 >= DESC_HEADER_LENGTH)
    ensures r == ParseAltBody(alt, buffer[at0..], size0)
  {
    hide ParseEndpoints;
    if size0 >= DESC_HEADER_LENGTH && (buffer[at0 + 1] == DT_CONFIG || buffer[at0 + 1] == DT_DEVICE) {
      return Done((alt, false), 0);
    }
    if alt.bNumEndpoints > USB_MAXENDPOINTS {
      return Failed;
    }
    var parsed := ParseEndpointsAt(buffer, at0, size0, alt.bNumEndpoints);
    match parsed
    case Failed => r := Failed;
    case PastEnd => r := PastEnd;
    case Done(endpoints, k) =>
      var at, size := at0 + k, size0 - k;
      if size >= INTERFACE_DESC_LENGTH && at + 4 > |buffer| {
        return PastEnd;
      }
      var more := !(size < INTERFACE_DESC_LENGTH || buffer[at + 1] != DT_INTERFACE || buffer[at + 3] == 0);
      r := Done((alt.(endpoints := endpoints), more), k);
  }

  lemma InterfaceUnfold(mem: seq<Byte>, size: int, alts: seq<AltSetting>, k: int)
    requires size >= INTERFACE_DESC_LENGTH
    ensures match ParseAlt(mem, size)
            case Failed => Prepend(alts, k, ParseInterface(mem, size)) == Failed
            case PastEnd => Prepend(alts, k, ParseInterface(mem, size)) == PastEnd
            case Done((alt, more), n) =>
              Prepend(alts, k, ParseInterface(mem, size))
              == if more then Prepend(alts + [alt], k + n, ParseInterface(mem[n..], size - n))
                 else Done(alts + [alt], k + n)
  {
    hide ParseAlt;
    if ParseAlt(mem, size).Done? {
      var (alt, more) := ParseAlt(mem, size).value;
      var n := ParseAlt(mem, size).count;
      var tail := ParseInterface(mem[n..], size - n);
      if more && tail.Done? {
        assert alts + ([alt] + tail.value) == alts + [alt] + tail.value;
      }
    }
  }

  lemma InterfaceEnds(mem: seq<Byte>, size: int)
    requires size < INTERFACE_DESC_LENGTH
    ensures ParseInterface(mem, size) == Done([], 0)
  {
  }

  /** parse_interface. */
  method ParseInterfaceAt(buffer: seq<Byte>, at0: int, size0: int) returns (r: Outcome<Interface>)
    requires 0 <= at0 <= |buffer|
    ensures r == ParseInterface(buffer[at0..], size0)
  {
    var at, size := at0, size0;
    var alts: Interface := [];
    hide ParseAlt, ParseInterface, Prepend;
    ghost var whole := ParseInterface(buffer[at0..], size0);
    PrependNothing(whole);
    while size >= INTERFACE_DESC_LENGTH
      invariant at0 <= at <= |buffer|
      invariant whole == Prepend(alts, at - at0, ParseInterface(buffer[at..], size))
      decreases |buffer| - at
    {
      InterfaceUnfold(buffer[at..], size, alts, at - at0);
      var parsed := ParseAltAt(buffer, at, size);
      match parsed
      case Failed => return Failed;
      case PastEnd => return PastEnd;
      case Done((alt, more), n) =>
        DropDrop(buffer, at, n);
        alts := alts + [alt];
        at, size := at + n, size - n;
        if !more {
          return Done(alts, at - at0);
        }
    }
    InterfaceEnds(buffer[at..], size);
    PrependEnd(alts, at - at0);
    r := Done(alts, at - at0);
  }

  /** parse_configuration. */
  method ParseConfiguration(buffer: seq<Byte>) returns (r: Outcome<Config>)
    ensures r == ParseConfig(buffer)
  {
    hide SkipExtra, ParseInterface, ParseInterfaces, PrependInterfaces;
    if |buffer| < CONFIG_DESC_LENGTH {
      return PastEnd;
    }
    var config := ConfigFields(buffer);
    if config.bNumInterfaces > USB_MAXINTERFACES {
      return Failed;
    }
    if config.bLength > |buffer| {
      return PastEnd;
    }
    var size0: int := config.wTotalLength - config.bLength;
    ghost var whole := ParseInterfaces(buffer[config.bLength..], size0, config.bNumInterfaces, []);
    var at, size := config.bLength as int, size0;
    var interfaces: seq<Interface> := [];
    var extra: seq<Byte> := [];
    StartInterfaces(whole);
    for i := 0 to config.bNumInterfaces
      invariant config.bLength <= at <= |buffer| && size == config.wTotalLength - at
      invariant whole == PrependInterfaces(interfaces, at - config.bLength,
                                           ParseInterfaces(buffer[at..], size, config.bNumInterfaces - i, extra))
    {
      InterfacesUnfold(buffer[at..], size, config.bNumInterfaces - i, extra, interfaces, at - config.bLength);
      var skipped := SkipExtraAt(buffer, at, size, true);
      if skipped.Failed? {
        return Failed;
      }
      if skipped.PastEnd? {
        return PastEnd;
      }
      var len := skipped.count;
      DropDrop(buffer, at, len);
      assert buffer[at..][..len] == buffer[at..at + len];
      if len > 0 && extra == [] {
        extra := buffer[at..at + len];
      }
      var parsed := ParseInterfaceAt(buffer, at + len, size - len);
      if parsed.Failed? {
        return Failed;
      }
      if parsed.PastEnd? {
        return PastEnd;
      }
      DropDrop(buffer, at, len + parsed.count);
      interfaces := interfaces + [parsed.value];
      at, size := at + (len + parsed.count), size - len - parsed.count;
    }
    NoInterfaces(buffer[at..], size, extra);
    EndInterfaces(interfaces, at - config.bLength, extra);
    r := Done(config.(interfaces := interfaces, extra := extra), size);
  }

  function PrependInterfaces(interfaces: seq<Interface>, k: int, r: Outcome<(seq<Interface>, seq<Byte>)>)
    : Outcome<(seq<Interface>, seq<Byte>)>
  {
    match r
    case Done((v, extra), n) => Done((interfaces + v, extra), k + n)
    case Failed => Failed
    case PastEnd => PastEnd
  }

  lemma StartInterfaces(r: Outcome<(seq<Interface>, seq<Byte>)>)
    ensures PrependInterfaces([], 0, r) == r
  {
    if r.Done? {
      assert [] + r.value.0 == r.value.0;
    }
  }

  lemma EndInterfaces(interfaces: seq<Interface>, k: int, extra: seq<Byte>)
    ensures PrependInterfaces(interfaces, k, Done(([], extra), 0)) == Done((interfaces, extra), k)
  {
    assert interfaces + [] == interfaces;
  }

  lemma InterfacesUnfold(mem: seq<Byte>, size: int, count: nat, extra: seq<Byte>, interfaces: seq<Interface>, k: int)
    requires count > 0
    ensures var all := PrependInterfaces(interfaces, k, ParseInterfaces(mem, size, count, extra));
            match SkipExtra(mem, size, true)
            case Failed => all == Failed
            case PastEnd => all == PastEnd
            case Done(_, n) =>
              match ParseInterface(mem[n..], size - n)
              case Failed => all == Failed
              case PastEnd => all == PastEnd
              case Done(alts, m) =>
                all == PrependInterfaces(interfaces + [alts], k + (n + m),
                         ParseInterfaces(mem[n + m..], size - n - m, count - 1,
                                         if extra == [] then mem[..n] else extra))
  {
    hide SkipExtra, ParseInterface, PrependInterfaces, ConsInterface;
    if SkipExtra(mem, size, true).Done? {
      var n := SkipExtra(mem, size, true).count;
      if ParseInterface(mem[n..], size - n).Done? {
        var alts, m := ParseInterface(mem[n..], size - n).value, ParseInterface(mem[n..], size - n).count;
        var tail := ParseInterfaces(mem[n + m..], size - n - m, count - 1, if extra == [] then mem[..n] else extra);
        PrependCons(interfaces, k, alts, n + m, tail);
      }
    }
    PrependFailures(interfaces, k);
  }

  lemma PrependFailures(interfaces: seq<Interface>, k: int)
    ensures PrependInterfaces(interfaces, k, Failed) == Failed && PrependInterfaces(interfaces, k, PastEnd) == PastEnd
  {
  }

  lemma PrependCons(interfaces: seq<Interface>, k: int, alts: Interface, n: int,
                    r: Outcome<(seq<Interface>, seq<Byte>)>)
    ensures PrependInterfaces(interfaces, k, ConsInterface(alts, n, r))
         == PrependInterfaces(interfaces + [alts], k + n, r)
  {
    if r.Done? {
      assert interfaces + ([alts] + r.value.0) == interfaces + [alts] + r.value.0;
    }
  }
}
