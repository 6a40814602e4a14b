/**
 * The RFC 3442 classless static route option (DHCP option 121, and Microsoft's 249,
 * which carries the same bytes) as both converter revisions write and read it.
 *
 * One record is the prefix length, then only the significant leading octets of the
 * destination (ceil(length / 8) of them), then the four gateway octets. Records are
 * written back to back as lower-case hex text with no separators. A decoded route is
 * printed as "a.b.c.d/m via e.f.g.h", with the missing destination octets read as 0.
 */
module Rfc3442 {
  import opened Wrappers
  import opened JavaText
  import opened Hex

  /** How many leading destination octets a prefix of the given length puts on the wire. */
  function SignificantOctets(mask: int): (n: nat)
    requires 0 <= mask <= 32
    ensures n <= 4
    ensures mask <= 8 * n && (n == 0 || 8 * (n - 1) < mask)
  {
    if mask == 0 then 0 else (mask + 7) / 8
  }

  datatype Route = Route(network: seq<int>, mask: int, gateway: seq<int>)

  /** Four destination octets, a prefix length of 0 to 32, four gateway octets. */
  predicate Shaped(r: Route)
  {
    |r.network| == 4 && 0 <= r.mask <= 32 && |r.gateway| == 4
  }

  /** A route the encoder can write: shaped, with every octet a byte. */
  predicate Encodable(r: Route)
  {
    Shaped(r) && AllBytes(r.network) && AllBytes(r.gateway)
  }

  predicate AllEncodable(rs: seq<Route>)
  {
    forall i | 0 <= i < |rs| :: Encodable(rs[i])
  }

  /** The values one record carries, in wire order. */
  function Record(r: Route): (fields: seq<int>)
    requires Shaped(r)
    ensures |fields| == 5 + SignificantOctets(r.mask)
    ensures Encodable(r) ==> AllBytes(fields)
  {
    [r.mask] + r.network[..SignificantOctets(r.mask)] + r.gateway
  }

  /** One record on the wire: the length, the significant destination octets, the gateway. */
  function RecordHex(r: Route): (s: string)
    requires Encodable(r)
    ensures |s| == 2 * (5 + SignificantOctets(r.mask))
  {
    HexByte(r.mask) + HexBytes(r.network[..SignificantOctets(r.mask)]) + HexBytes(r.gateway)
  }

  /** A record's text is the hex text of its values. */
  lemma RecordHexIsBytes(r: Route)
    requires Encodable(r)
    ensures RecordHex(r) == HexBytes(Record(r))
  {
    var destination := r.network[..SignificantOctets(r.mask)];
    HexBytesAppend([r.mask], destination);
    HexBytesAppend([r.mask] + destination, r.gateway);
  }

  /** The payload of several routes: their records back to back. */
  function RecordsHex(rs: seq<Route>): string
    requires AllEncodable(rs)
  {
    if |rs| == 0 then "" else RecordHex(rs[0]) + RecordsHex(rs[1..])
  }

  lemma {:induction false} RecordsHexIsLower(rs: seq<Route>)
    requires AllEncodable(rs)
    ensures AllLowerHexDigits(RecordsHex(rs))
    decreases |rs|
  {
    if |rs| > 0 {
      RecordsHexIsLower(rs[1..]);
      HexBytesIsLower(Record(rs[0]));
      RecordHexIsBytes(rs[0]);
      LowerHexAppend(RecordHex(rs[0]), RecordsHex(rs[1..]));
    }
  }

  /** The bytes of the payload of several routes. */
  function RecordsBytes(rs: seq<Route>): (bs: seq<int>)
    requires AllEncodable(rs)
    ensures AllBytes(bs)
  {
    if |rs| == 0 then [] else Record(rs[0]) + RecordsBytes(rs[1..])
  }

  function Zeros(n: nat): (z: seq<int>)
    ensures |z| == n && forall i | 0 <= i < n :: z[i] == 0
  {
    if n == 0 then [] else [0] + Zeros(n - 1)
  }

  /** A route as it comes back from the wire: the octets past the prefix become 0. */
  function Normalize(r: Route): Route
    requires Shaped(r)
  {
    var sig := SignificantOctets(r.mask);
    Route(r.network[..sig] + Zeros(4 - sig), r.mask, r.gateway)
  }

  function NormalizeAll(rs: seq<Route>): (ns: seq<Route>)
    requires AllEncodable(rs)
    ensures |ns| == |rs|
  {
    if |rs| == 0 then [] else [Normalize(rs[0])] + NormalizeAll(rs[1..])
  }

  /** The shape of every route a decoder returns. */
  predicate IsDecoded(r: Route)
  {
    Shaped(r)
    && AllBytes(r.network) && AllBytes(r.gateway)
    && (forall i | SignificantOctets(r.mask) <= i < 4 :: r.network[i] == 0)
  }

  // ---------------------------------------------------------------------------------
  // Reading

  datatype OctetsRead = Octets(values: seq<int>, rest: string) | Short | BadDigits

  /**
   * Reads count two-character fields from the front of s, each with
   * Integer.parseInt(field, 16); a field that does not fit or does not parse stops it.
   */
  function ReadOctets(s: string, count: nat): (r: OctetsRead)
    ensures r.Octets? ==> |r.values| == count && 2 * count <= |s| && r.rest == s[2 * count..]
    ensures r.Octets? ==> AllBytes(r.values)
    decreases count
  {
    if count == 0 then Octets([], s)
    else if |s| < 2 then Short
    else
      match ParseHexPair(s[..2])
      case None => BadDigits
      case Some(v) =>
        match ReadOctets(s[2..], count - 1)
        case Octets(vs, rest) => Octets([v] + vs, rest)
        case Short => Short
        case BadDigits => BadDigits
  }

  /** The fields read before r, put in front of what r read. */
  function Prefixed(vs: seq<int>, r: OctetsRead): OctetsRead
  {
    match r
    case Octets(ws, rest) => Octets(vs + ws, rest)
    case _ => r
  }

  lemma PrefixedNothing(r: OctetsRead)
    ensures Prefixed([], r) == r
  {
    if r.Octets? {
      assert [] + r.values == r.values;
    }
  }

  /** One more field read by a field loop. */
  lemma FieldStep(s: string, index: nat, at: nat, count: nat, i: nat, vs: seq<int>, v: int)
    requires index <= at && at + 2 <= |s| && i < count
    requires ReadOctets(s[index..], count) == Prefixed(vs, ReadOctets(s[at..], count - i))
    requires ParseHexPair(s[at..at + 2]) == Some(v)
    ensures ReadOctets(s[index..], count) == Prefixed(vs + [v], ReadOctets(s[at + 2..], count - i - 1))
  {
    assert s[at..][..2] == s[at..at + 2];
    assert s[at..][2..] == s[at + 2..];
    var r := ReadOctets(s[at + 2..], count - i - 1);
    if r.Octets? {
      assert vs + ([v] + r.values) == (vs + [v]) + r.values;
    }
  }

  /** How a field loop ends: out of text, at a field that is not hex, or with every field. */
  lemma FieldStop(s: string, index: nat, at: nat, count: nat, i: nat, vs: seq<int>)
    requires index <= at <= |s| && i <= count
    requires ReadOctets(s[index..], count) == Prefixed(vs, ReadOctets(s[at..], count - i))
    ensures i < count && at + 2 > |s| ==> ReadOctets(s[index..], count) == Short
    ensures i < count && at + 2 <= |s| && ParseHexPair(s[at..at + 2]).None? ==> ReadOctets(s[index..], count) == BadDigits
    ensures i == count ==> ReadOctets(s[index..], count) == Octets(vs, s[at..])
  {
    if i < count && at + 2 <= |s| {
      assert s[at..][..2] == s[at..at + 2];
    }
    if i == count {
      assert vs + [] == vs;
    }
  }

  /** How a field loop of the decoders ended. */
  datatype FieldsRead = Filled(next: nat) | RanShort | NotHex

  /**
   * The field loop both decoders run for the destination and for the gateway: count
   * two-character fields of s from index on, each read with Integer.parseInt(field, 16)
   * into the next element of a.
   */
  method ReadOctetsInto(s: string, index: nat, count: nat, a: array<int>) returns (r: FieldsRead)
    requires index <= |s| && count <= a.Length
    modifies a
    ensures r.Filled? <==> ReadOctets(s[index..], count).Octets?
    ensures r.RanShort? <==> ReadOctets(s[index..], count).Short?
    ensures r.Filled? ==> r.next == index + 2 * count <= |s|
    ensures r.Filled? ==> a[..count] == ReadOctets(s[index..], count).values
    ensures forall j | count <= j < a.Length :: a[j] == old(a[j])
  {
    var i, at := 0, index;
    PrefixedNothing(ReadOctets(s[index..], count));
    while i < count
      invariant 0 <= i <= count && at == index + 2 * i <= |s|
      invariant ReadOctets(s[index..], count) == Prefixed(a[..i], ReadOctets(s[at..], count - i))
      invariant forall j | count <= j < a.Length :: a[j] == old(a[j])
    {
      if at + 2 > |s| {
        FieldStop(s, index, at, count, i, a[..i]);
        return RanShort;
      }
      var parsed := ParseHexPair(s[at..at + 2]);
      if parsed.None? {
        FieldStop(s, index, at, count, i, a[..i]);
        return NotHex;
      }
      FieldStep(s, index, at, count, i, a[..i], parsed.value);
      ghost var before := a[..i];
      a[i] := parsed.value;
      assert a[..i + 1] == before + [parsed.value];
      at, i := at + 2, i + 1;
    }
    FieldStop(s, index, at, count, i, a[..i]);
    return Filled(at);
  }

  /** Where reading one record stops: a whole record, or the reason it could not be read. */
  datatype RecordRead =
    | Got(route: Route, rest: string)
    | Truncated        // too few characters left for the next field
    | BadMask          // the length field is not hex
    | MaskOutOfRange   // the length field is below 0 or above 32
    | BadOctet         // a destination or gateway field is not hex

  /** Reads the record at the front of s. */
  function ReadRecord(s: string): (r: RecordRead)
    ensures r.Got? ==> IsDecoded(r.route)
    ensures r.Got? ==> |s| == 2 * (5 + SignificantOctets(r.route.mask)) + |r.rest|
    ensures r.Got? ==> r.rest == s[|s| - |r.rest|..]
  {
    if |s| < 2 then Truncated
    else
      match ParseHexPair(s[..2])
      case None => BadMask
      case Some(mask) =>
        if mask < 0 || mask > 32 then MaskOutOfRange
        else
          var sig := SignificantOctets(mask);
          match ReadOctets(s[2..], sig)
          case Short => Truncated
          case BadDigits => BadOctet
          case Octets(destination, afterDestination) =>
            match ReadOctets(afterDestination, 4)
            case Short => Truncated
            case BadDigits => BadOctet
            case Octets(gateway, rest) =>
              Got(Route(destination + Zeros(4 - sig), mask, gateway), rest)
  }

  // The record that starts at index start of s, in the terms of the decoders' loops:
  // positions in s rather than suffixes of it.

  lemma MaskAt(s: string, start: nat)
    requires start + 2 <= |s|
    ensures s[start..][..2] == s[start..start + 2] && s[start..][2..] == s[start + 2..]
  {
  }

  lemma DestinationAt(s: string, start: nat, mask: int)
    requires start + 2 <= |s| && ParseHexPair(s[start..start + 2]) == Some(mask) && 0 <= mask <= 32
    ensures ReadOctets(s[start + 2..], SignificantOctets(mask)).Short? ==> ReadRecord(s[start..]) == Truncated
    ensures ReadOctets(s[start + 2..], SignificantOctets(mask)).BadDigits? ==> ReadRecord(s[start..]) == BadOctet
  {
    MaskAt(s, start);
  }

  lemma GatewayAt(s: string, start: nat, mask: int, destination: seq<int>, at: nat)
    requires start + 2 <= |s| && ParseHexPair(s[start..start + 2]) == Some(mask) && 0 <= mask <= 32
    requires ReadOctets(s[start + 2..], SignificantOctets(mask)).Octets?
    requires ReadOctets(s[start + 2..], SignificantOctets(mask)).values == destination
    requires at == start + 2 + 2 * SignificantOctets(mask)
    ensures ReadOctets(s[at..], 4).Short? ==> ReadRecord(s[start..]) == Truncated
    ensures ReadOctets(s[at..], 4).BadDigits? ==> ReadRecord(s[start..]) == BadOctet
  {
    MaskAt(s, start);
    assert ReadOctets(s[start + 2..], SignificantOctets(mask)).rest == s[at..];
  }

  lemma RouteAt(s: string, start: nat, mask: int, destination: seq<int>, at: nat,
                network: seq<int>, gateway: seq<int>, next: nat)
    requires start + 2 <= |s| && ParseHexPair(s[start..start + 2]) == Some(mask) && 0 <= mask <= 32
    requires ReadOctets(s[start + 2..], SignificantOctets(mask)).Octets?
    requires ReadOctets(s[start + 2..], SignificantOctets(mask)).values == destination
    requires at == start + 2 + 2 * SignificantOctets(mask)
    requires ReadOctets(s[at..], 4).Octets? && ReadOctets(s[at..], 4).values == gateway
    requires network == destination + Zeros(4 - SignificantOctets(mask)) && next == at + 8
    ensures next <= |s|
    ensures ReadRecord(s[start..]) == Got(Route(network, mask, gateway), s[next..])
  {
    MaskAt(s, start);
    assert ReadOctets(s[start + 2..], SignificantOctets(mask)).rest == s[at..];
    assert ReadOctets(s[at..], 4).rest == s[next..];
  }

  /**
   * The rest of one pass of the decoders' loop once the length field at start has been
   * read: the destination fields into a fresh zeroed int[4], then the gateway fields
   * into another. sig is the count of destination fields the caller computed.
   */
  method ReadRouteFields(s: string, start: nat, mask: int, sig: nat)
      returns (read: FieldsRead, destination: array<int>, gateway: array<int>)
    requires start + 2 <= |s| && ParseHexPair(s[start..start + 2]) == Some(mask) && 0 <= mask <= 32
    requires sig == SignificantOctets(mask)
    ensures fresh(destination) && fresh(gateway) && destination.Length == 4 && gateway.Length == 4
    ensures read.RanShort? ==> ReadRecord(s[start..]) == Truncated
    ensures read.NotHex? ==> ReadRecord(s[start..]) == BadOctet
    ensures read.Filled? ==> read.next == start + 10 + 2 * sig <= |s|
    ensures read.Filled? ==> ReadRecord(s[start..]) == Got(Route(destination[..], mask, gateway[..]), s[read.next..])
  {
    destination := new int[4](_ => 0);
    gateway := new int[4](_ => 0);
    DestinationAt(s, start, mask);
    read := ReadOctetsInto(s, start + 2, sig, destination);
    if !read.Filled? {
      return;
    }
    var afterDestination := read.next;
    ghost var destinationValues := destination[..sig];
    GatewayAt(s, start, mask, destinationValues, afterDestination);
    read := ReadOctetsInto(s, afterDestination, 4, gateway);
    if read.Filled? {
      assert gateway[..] == gateway[..4];
      ZeroPadded(destination[..], sig);
      RouteAt(s, start, mask, destinationValues, afterDestination, destination[..], gateway[..], read.next);
    }
  }

  lemma ZeroPadded(a: seq<int>, sig: nat)
    requires |a| == 4 && sig <= 4 && forall j | sig <= j < 4 :: a[j] == 0
    ensures a == a[..sig] + Zeros(4 - sig)
  {
  }

  /** A record that cannot be read ends decoding; the ISC decoder throws for a non-hex octet. */
  lemma DecodeStops(s: string)
    requires |s| > 0 && !ReadRecord(s).Got?
    ensures DecodeLenient(s) == []
    ensures DecodeForIsc(s) == if ReadRecord(s).BadOctet? then Thrown(NumberFormatException) else Ok([])
  {
  }

  /**
   * The decoder of DhcpOptionConverter.parseDhcpOptions: records are read while
   * characters remain, and any problem ends decoding with the routes read so far.
   */
  function DecodeLenient(s: string): (rs: seq<Route>)
    ensures forall i | 0 <= i < |rs| :: IsDecoded(rs[i])
    decreases |s|
  {
    if |s| == 0 then []
    else
      match ReadRecord(s)
      case Got(r, rest) => [r] + DecodeLenient(rest)
      case _ => []
  }

  /**
   * The decoder of OutputFormatter.parseHexToRoutes: it stops like DecodeLenient on a
   * short field or a bad length field, but a destination or gateway field that is not
   * hex escapes as a NumberFormatException.
   */
  function DecodeForIsc(s: string): (r: Result<seq<Route>>)
    ensures r.Ok? ==> r.value == DecodeLenient(s)
    decreases |s|
  {
    if |s| == 0 then Ok([])
    else
      match ReadRecord(s)
      case Got(route, rest) =>
        (match DecodeForIsc(rest)
         case Ok(rs) => Ok([route] + rs)
         case Thrown(e) => Thrown(e))
      case BadOctet => Thrown(NumberFormatException)
      case _ => Ok([])
  }

  /** Every character of s belongs to a whole record read by the decoder. */
  predicate WellFormed(s: string)
    decreases |s|
  {
    |s| == 0 || (ReadRecord(s).Got? && WellFormed(ReadRecord(s).rest))
  }

  // ---------------------------------------------------------------------------------
  // Printing

  /** %d.%d.%d.%d of four octets. */
  function QuadText(q: seq<int>): string
    requires |q| == 4
  {
    IntText(q[0]) + "." + (IntText(q[1]) + "." + (IntText(q[2]) + "." + IntText(q[3])))
  }

  /** %d.%d.%d.%d/%d of the destination and the prefix length. */
  function NetworkText(r: Route): string
    requires Shaped(r)
  {
    QuadText(r.network) + "/" + IntText(r.mask)
  }

  /** "%s via %s" of the network and the gateway: one line of decoder output. */
  function RouteLine(r: Route): string
    requires Shaped(r)
  {
    NetworkText(r) + " via " + QuadText(r.gateway)
  }

  predicate AllShaped(rs: seq<Route>)
  {
    forall i | 0 <= i < |rs| :: Shaped(rs[i])
  }

  function RouteLines(rs: seq<Route>): (lines: seq<string>)
    requires AllShaped(rs)
    ensures |lines| == |rs|
  {
    seq(|rs|, i requires 0 <= i < |rs| => RouteLine(rs[i]))
  }

  lemma RouteLinesSnoc(rs: seq<Route>, route: Route)
    requires AllShaped(rs) && Shaped(route)
    ensures AllShaped(rs + [route]) && RouteLines(rs + [route]) == RouteLines(rs) + [RouteLine(route)]
  {
    assert forall i | 0 <= i < |rs| :: (rs + [route])[i] == rs[i];
  }

  /** Each value as %d writes it. */
  function Texts(xs: seq<int>): (ts: seq<string>)
    ensures |ts| == |xs| && forall i | 0 <= i < |xs| :: ts[i] == IntText(xs[i])
  {
    seq(|xs|, i requires 0 <= i < |xs| => IntText(xs[i]))
  }

  // ---------------------------------------------------------------------------------
  // Encoding then decoding

  /** Reading hex fields gives back the bytes they were written from. */
  lemma {:induction false} ReadOctetsOfHex(bs: seq<int>, rest: string)
    requires AllBytes(bs)
    ensures ReadOctets(HexBytes(bs) + rest, |bs|) == Octets(bs, rest)
    decreases |bs|
  {
    if |bs| > 0 {
      HexBytesHead(bs, rest);
      ParseHexByte(bs[0]);
      ReadOctetsOfHex(bs[1..], rest);
      assert [bs[0]] + bs[1..] == bs;
    }
  }

  /** ReadRecord in terms of its three fields. */
  lemma ReadRecordOfFields(s: string, mask: int, destination: seq<int>, afterDestination: string,
                           gateway: seq<int>, rest: string)
    requires |s| >= 2 && ParseHexPair(s[..2]) == Some(mask) && 0 <= mask <= 32
    requires ReadOctets(s[2..], SignificantOctets(mask)) == Octets(destination, afterDestination)
    requires ReadOctets(afterDestination, 4) == Octets(gateway, rest)
    ensures ReadRecord(s) == Got(Route(destination + Zeros(4 - SignificantOctets(mask)), mask, gateway), rest)
  {
  }

  /** A written record reads back as the route with its host octets cleared. */
  lemma ReadRecordOfRecordHex(r: Route, rest: string)
    requires Encodable(r)
    ensures ReadRecord(RecordHex(r) + rest) == Got(Normalize(r), rest)
  {
    var sig := SignificantOctets(r.mask);
    var destination := r.network[..sig];
    var afterDestination := HexBytes(r.gateway) + rest;
    var afterMask := HexBytes(destination) + afterDestination;
    RecordHexParts(r, rest);
    ParseHexByte(r.mask);
    ReadOctetsOfHex(destination, afterDestination);
    ReadOctetsOfHex(r.gateway, rest);
    ReadRecordOfFields(RecordHex(r) + rest, r.mask, destination, afterDestination, r.gateway, rest);
  }

  /** A record's text followed by more text, cut into its three fields. */
  lemma RecordHexParts(r: Route, rest: string)
    requires Encodable(r)
    ensures var s := RecordHex(r) + rest;
            var afterMask := HexBytes(r.network[..SignificantOctets(r.mask)]) + (HexBytes(r.gateway) + rest);
            |s| >= 2 && s[..2] == HexByte(r.mask) && s[2..] == afterMask
  {
    var afterMask := HexBytes(r.network[..SignificantOctets(r.mask)]) + (HexBytes(r.gateway) + rest);
    assert RecordHex(r) + rest == HexByte(r.mask) + afterMask;
  }

  /** The three fields of a whole record that has been read. */
  lemma GotFields(s: string)
    requires ReadRecord(s).Got?
    ensures var route := ReadRecord(s).route;
            var sig := SignificantOctets(route.mask);
            |s| >= 2 + 2 * sig
            && ParseHexPair(s[..2]) == Some(route.mask)
            && ReadOctets(s[2..], sig) == Octets(route.network[..sig], s[2 + 2 * sig..])
            && ReadOctets(s[2 + 2 * sig..], 4) == Octets(route.gateway, ReadRecord(s).rest)
  {
    var mask := ParseHexPair(s[..2]).value;
    var sig := SignificantOctets(mask);
    var destination := ReadOctets(s[2..], sig).values;
    assert (destination + Zeros(4 - sig))[..sig] == destination;
    assert s[2..][2 * sig..] == s[2 + 2 * sig..];
  }

  /** Both decoders go on after a whole record. */
  lemma DecodeAfterRecord(s: string, route: Route, rest: string)
    requires ReadRecord(s) == Got(route, rest)
    ensures DecodeLenient(s) == [route] + DecodeLenient(rest)
    ensures DecodeForIsc(s) == if DecodeForIsc(rest).Ok? then Ok([route] + DecodeForIsc(rest).value)
                               else DecodeForIsc(rest)
  {
  }

  /** Decoding payload text that starts with written records gives their routes first. */
  lemma {:induction false} DecodeRecordsHex(rs: seq<Route>, tail: string)
    requires AllEncodable(rs)
    ensures DecodeLenient(RecordsHex(rs) + tail) == NormalizeAll(rs) + DecodeLenient(tail)
    decreases |rs|
  {
    if |rs| == 0 {
      assert RecordsHex(rs) + tail == tail;
    } else {
      var more := RecordsHex(rs[1..]) + tail;
      RecordsHexCons(rs, tail);
      ReadRecordOfRecordHex(rs[0], more);
      DecodeAfterRecord(RecordHex(rs[0]) + more, Normalize(rs[0]), more);
      DecodeRecordsHex(rs[1..], tail);
      ConsAppend(Normalize(rs[0]), NormalizeAll(rs[1..]), DecodeLenient(tail));
    }
  }

  /** A payload of one or more records starts with the first record. */
  lemma RecordsHexCons(rs: seq<Route>, tail: string)
    requires AllEncodable(rs) && |rs| > 0
    ensures AllEncodable(rs[1..])
    ensures RecordsHex(rs) + tail == RecordHex(rs[0]) + (RecordsHex(rs[1..]) + tail)
    ensures NormalizeAll(rs) == [Normalize(rs[0])] + NormalizeAll(rs[1..])
  {
    forall i | 0 <= i < |rs[1..]|
      ensures Encodable(rs[1..][i])
    {
      assert rs[1..][i] == rs[i + 1];
    }
    Reassociate(RecordHex(rs[0]), RecordsHex(rs[1..]), tail, "");
  }

  lemma ConsAppend<T>(x: T, a: seq<T>, b: seq<T>)
    ensures [x] + (a + b) == [x] + a + b
  {
  }

  /** The round trip: decoding a written payload gives every route, host octets cleared. */
  lemma DecodeOfRecordsHex(rs: seq<Route>)
    requires AllEncodable(rs)
    ensures DecodeLenient(RecordsHex(rs)) == NormalizeAll(rs)
    ensures DecodeForIsc(RecordsHex(rs)) == Ok(NormalizeAll(rs))
  {
    DecodeRecordsHex(rs, "");
    assert RecordsHex(rs) + "" == RecordsHex(rs);
    RecordsHexIsLower(rs);
    LowerHexIsHex(RecordsHex(rs));
    DecodeForIscOnHex(RecordsHex(rs));
  }

  /** Clearing the host octets is idempotent and keeps the record on the wire. */
  lemma NormalizeKeepsRecord(r: Route)
    requires Encodable(r)
    ensures Encodable(Normalize(r)) && Normalize(Normalize(r)) == Normalize(r)
    ensures Record(Normalize(r)) == Record(r)
  {
    var sig := SignificantOctets(r.mask);
    assert (r.network[..sig] + Zeros(4 - sig))[..sig] == r.network[..sig];
  }

  /** On hex text, reading fields stops only for running out of characters. */
  lemma {:induction false} ReadOctetsOnHex(s: string, count: nat)
    requires AllHexDigits(s)
    ensures ReadOctets(s, count).Octets? <==> 2 * count <= |s|
    ensures ReadOctets(s, count).Short? <==> |s| < 2 * count
    decreases count
  {
    if count > 0 && |s| >= 2 {
      ReadOctetsOnHex(s[2..], count - 1);
    }
  }

  /** On hex text a record is whole or cut short: no field fails to parse. */
  lemma ReadRecordOnHex(s: string)
    requires AllHexDigits(s)
    ensures !ReadRecord(s).BadMask? && !ReadRecord(s).BadOctet?
    ensures ReadRecord(s).Got? ==> AllHexDigits(ReadRecord(s).rest)
  {
    if |s| >= 2 {
      var afterMask := s[2..];
      match ParseHexPair(s[..2])
      case Some(mask) =>
        if 0 <= mask <= 32 {
          ReadOctetsOnHex(afterMask, SignificantOctets(mask));
          if ReadOctets(afterMask, SignificantOctets(mask)).Octets? {
            ReadOctetsOnHex(ReadOctets(afterMask, SignificantOctets(mask)).rest, 4);
          }
        }
      case None =>
    }
  }

  /** The ISC decoder throws only on text that is not all hex digits. */
  lemma {:induction false} DecodeForIscOnHex(s: string)
    requires AllHexDigits(s)
    ensures DecodeForIsc(s) == Ok(DecodeLenient(s))
    decreases |s|
  {
    if |s| > 0 {
      ReadRecordOnHex(s);
      if ReadRecord(s).Got? {
        DecodeForIscOnHex(ReadRecord(s).rest);
      }
    }
  }

  /** Hex text that stops inside a record holds no more routes. */
  lemma PartialRecord(r: Route, k: nat)
    requires Encodable(r) && k < |RecordHex(r)|
    ensures AllLowerHexDigits(RecordHex(r)[..k])
    ensures DecodeLenient(RecordHex(r)[..k]) == []
  {
    var part := RecordHex(r)[..k];
    RecordHexIsBytes(r);
    HexBytesIsLower(Record(r));
    assert AllLowerHexDigits(part);
    if k >= 2 {
      LowerHexIsHex(part);
      ReadRecordOnHex(part);
      RecordHexParts(r, "");
      assert RecordHex(r) + "" == RecordHex(r);
      assert part[..2] == HexByte(r.mask);
      ParseHexByte(r.mask);
      if ReadRecord(part).Got? {
        GotFields(part);
        assert false;
      }
    }
  }

  /**
   * A payload cut inside a record decodes to the routes of the whole records before
   * the cut: the partial record is dropped without an error.
   */
  lemma TruncatedPayload(rs: seq<Route>, r: Route, k: nat)
    requires AllEncodable(rs) && Encodable(r) && k < |RecordHex(r)|
    ensures DecodeLenient(RecordsHex(rs) + RecordHex(r)[..k]) == NormalizeAll(rs)
    ensures DecodeForIsc(RecordsHex(rs) + RecordHex(r)[..k]) == Ok(NormalizeAll(rs))
  {
    var part := RecordHex(r)[..k];
    DecodeRecordsHex(rs, part);
    PartialRecord(r, k);
    RecordsHexIsLower(rs);
    LowerHexAppend(RecordsHex(rs), part);
    LowerHexIsHex(RecordsHex(rs) + part);
    DecodeForIscOnHex(RecordsHex(rs) + part);
  }

  /** A length field above 32 ends decoding, keeping the routes before it. */
  lemma MaskOutOfRangeStops(rs: seq<Route>, mask: int, tail: string)
    requires AllEncodable(rs) && 32 < mask < 256
    ensures DecodeLenient(RecordsHex(rs) + HexByte(mask) + tail) == NormalizeAll(rs)
  {
    var stop := HexByte(mask) + tail;
    assert RecordsHex(rs) + HexByte(mask) + tail == RecordsHex(rs) + stop;
    DecodeRecordsHex(rs, stop);
    ParseHexByte(mask);
    assert stop[..2] == HexByte(mask);
    assert ReadRecord(stop) == MaskOutOfRange;
  }

  // ---------------------------------------------------------------------------------
  // Decoding then encoding

  /** One step of a successful read: the first field, then the remaining ones. */
  lemma ReadOctetsStep(s: string, count: nat)
    requires count > 0 && ReadOctets(s, count).Octets?
    ensures |s| >= 2 && ParseHexPair(s[..2]).Some? && ReadOctets(s[2..], count - 1).Octets?
    ensures ReadOctets(s, count).values
            == [ParseHexPair(s[..2]).value] + ReadOctets(s[2..], count - 1).values
    ensures ReadOctets(s, count).rest == ReadOctets(s[2..], count - 1).rest
  {
  }

  /** Lower-case hex fields are exactly the hex text of the values read from them. */
  lemma {:induction false} ReadOctetsLower(s: string, count: nat)
    requires AllLowerHexDigits(s) && ReadOctets(s, count).Octets?
    ensures AllBytes(ReadOctets(s, count).values)
    ensures s == HexBytes(ReadOctets(s, count).values) + ReadOctets(s, count).rest
    decreases count
  {
    if count > 0 {
      ReadOctetsStep(s, count);
      var field, more := s[..2], s[2..];
      HexByteOfParsed(field);
      assert AllLowerHexDigits(more);
      ReadOctetsLower(more, count - 1);
      var vs, rest := ReadOctets(s, count).values, ReadOctets(s, count).rest;
      assert vs[1..] == ReadOctets(more, count - 1).values;
      assert s == field + more;
      assert HexBytes(vs) == field + HexBytes(vs[1..]);
    } else {
      assert s == "" + s;
    }
  }

  /** A whole lower-case record is exactly the record of the route read from it. */
  lemma ReadRecordLower(s: string)
    requires AllLowerHexDigits(s) && ReadRecord(s).Got?
    ensures Encodable(ReadRecord(s).route)
    ensures RecordHex(ReadRecord(s).route) + ReadRecord(s).rest == s
  {
    var route, rest := ReadRecord(s).route, ReadRecord(s).rest;
    var sig := SignificantOctets(route.mask);
    GotFields(s);
    assert route == Route(route.network[..sig] + Zeros(4 - sig), route.mask, route.gateway);
    assert AllLowerHexDigits(s[..2]) && AllLowerHexDigits(s[2..]);
    assert AllLowerHexDigits(s[2 + 2 * sig..]);
    LowerRecord(s, route.mask, route.network[..sig], route.gateway, rest);
  }

  lemma LowerRecord(s: string, mask: int, destination: seq<int>, gateway: seq<int>, rest: string)
    requires 0 <= mask <= 32 && |s| >= 2 + 2 * SignificantOctets(mask)
    requires AllLowerHexDigits(s[..2]) && AllLowerHexDigits(s[2..])
    requires AllLowerHexDigits(s[2 + 2 * SignificantOctets(mask)..])
    requires ParseHexPair(s[..2]) == Some(mask)
    requires ReadOctets(s[2..], SignificantOctets(mask))
             == Octets(destination, s[2 + 2 * SignificantOctets(mask)..])
    requires ReadOctets(s[2 + 2 * SignificantOctets(mask)..], 4) == Octets(gateway, rest)
    ensures var route := Route(destination + Zeros(4 - SignificantOctets(mask)), mask, gateway);
            Encodable(route) && RecordHex(route) + rest == s
  {
    var sig := SignificantOctets(mask);
    var afterMask, afterDestination := s[2..], s[2 + 2 * sig..];
    HexByteOfParsed(s[..2]);
    ReadOctetsLower(afterMask, sig);
    ReadOctetsLower(afterDestination, 4);
    PaddedRoute(mask, destination, gateway);
    CutAt(s, 2);
    Regroup(HexByte(mask), HexBytes(destination), HexBytes(gateway), rest);
  }

  /** A route rebuilt from the fields of a record can be written again as that record. */
  lemma PaddedRoute(mask: int, destination: seq<int>, gateway: seq<int>)
    requires 0 <= mask <= 32 && |destination| == SignificantOctets(mask) && |gateway| == 4
    requires AllBytes(destination) && AllBytes(gateway)
    ensures var route := Route(destination + Zeros(4 - SignificantOctets(mask)), mask, gateway);
            Encodable(route)
            && RecordHex(route) == HexByte(mask) + HexBytes(destination) + HexBytes(gateway)
  {
    var sig := SignificantOctets(mask);
    var network := destination + Zeros(4 - sig);
    assert network[..sig] == destination;
    forall i | 0 <= i < 4
      ensures IsByte(network[i])
    {
      if i < sig {
        assert network[i] == destination[i];
      }
    }
  }

  /**
   * The inverse direction: lower-case text made only of whole records is the payload
   * of the routes it decodes to.
   */
  lemma {:induction false} RecordsHexOfDecode(s: string)
    requires AllLowerHexDigits(s) && WellFormed(s)
    ensures AllEncodable(DecodeLenient(s)) && RecordsHex(DecodeLenient(s)) == s
    decreases |s|
  {
    if |s| > 0 {
      var rest := ReadRecord(s).rest;
      ReadRecordLower(s);
      RecordsHexOfDecode(rest);
      var rs := DecodeLenient(s);
      assert rs[1..] == DecodeLenient(rest);
    }
  }

  /** Written payloads are well formed. */
  lemma {:induction false} WellFormedRecordsHex(rs: seq<Route>)
    requires AllEncodable(rs)
    ensures WellFormed(RecordsHex(rs))
    decreases |rs|
  {
    if |rs| > 0 {
      ReadRecordOfRecordHex(rs[0], RecordsHex(rs[1..]));
      WellFormedRecordsHex(rs[1..]);
    }
  }

  // ---------------------------------------------------------------------------------
  // Reading a printed route back

  lemma IntTextLacks(n: int, c: char)
    requires !IsDigit(c) && c != '-'
    ensures Lacks(IntText(n), c)
  {
  }

  lemma QuadTextLacks(q: seq<int>, c: char)
    requires |q| == 4 && !IsDigit(c) && c != '-' && c != '.'
    ensures Lacks(QuadText(q), c)
  {
    IntTextLacks(q[0], c);
    IntTextLacks(q[1], c);
    IntTextLacks(q[2], c);
    IntTextLacks(q[3], c);
    var t2 := IntText(q[2]) + "." + IntText(q[3]);
    LacksAppend(IntText(q[2]), ".", IntText(q[3]), c);
    var t1 := IntText(q[1]) + "." + t2;
    LacksAppend(IntText(q[1]), ".", t2, c);
    LacksAppend(IntText(q[0]), ".", t1, c);
  }

  /** Splitting the dotted text on "." gives the four octets' texts. */
  lemma QuadTextSplit(q: seq<int>)
    requires |q| == 4
    ensures Split(QuadText(q), ".") == Texts(q)
    ensures JavaSplit(QuadText(q), ".") == Texts(q)
  {
    var t0, t1, t2, t3 := IntText(q[0]), IntText(q[1]), IntText(q[2]), IntText(q[3]);
    IntTextLacks(q[0], '.');
    IntTextLacks(q[1], '.');
    IntTextLacks(q[2], '.');
    IntTextLacks(q[3], '.');
    var r2 := t2 + "." + t3;
    var r1 := t1 + "." + r2;
    SplitAt(t0, ".", r1);
    SplitAt(t1, ".", r2);
    SplitAt(t2, ".", t3);
    SplitWithout(t3, ".");
    var texts := Texts(q);
    FourPieces(texts, t0, t1, t2, t3);
  }

  /** A string free of the separator's first character, the separator, then a non-empty one. */
  lemma SplitInTwo(a: string, sep: string, b: string)
    requires |sep| > 0 && Lacks(a, sep[0]) && Lacks(b, sep[0]) && |b| > 0
    ensures Split(a + sep + b, sep) == [a, b]
    ensures JavaSplit(a + sep + b, sep) == [a, b]
  {
    SplitAt(a, sep, b);
    SplitWithout(b, sep);
  }

  /**
   * The fields the ISC formatter recovers from a printed route by splitting it on
   * " via ", "/" and ".".
   */
  lemma RouteLineFields(r: Route)
    requires Shaped(r)
    ensures JavaSplit(RouteLine(r), " via ") == [NetworkText(r), QuadText(r.gateway)]
    ensures JavaSplit(NetworkText(r), "/") == [QuadText(r.network), IntText(r.mask)]
    ensures JavaSplit(QuadText(r.network), ".") == Texts(r.network)
    ensures JavaSplit(QuadText(r.gateway), ".") == Texts(r.gateway)
  {
    QuadTextLacks(r.network, ' ');
    QuadTextLacks(r.network, '/');
    QuadTextLacks(r.gateway, ' ');
    IntTextLacks(r.mask, ' ');
    IntTextLacks(r.mask, '/');
    LacksAppend(QuadText(r.network), "/", IntText(r.mask), ' ');
    SplitInTwo(NetworkText(r), " via ", QuadText(r.gateway));
    SplitInTwo(QuadText(r.network), "/", IntText(r.mask));
    QuadTextSplit(r.network);
    QuadTextSplit(r.gateway);
  }
}
