/**
 * DhcpOptionConverter, the newer converter: it turns parallel lists of CIDR networks
 * and gateways into one RFC 3442 payload, hands the payload to OutputFormatter, reads a
 * payload back into route lines, and remembers whether a default route went through it.
 */
module OptionConverter {
  import opened Wrappers
  import opened JavaText
  import opened Hex
  import opened Rfc3442
  import Formats
  import OutputFormatter

  // ---------------------------------------------------------------------------------
  // The patterns convertToHexRoute matches its input against

  /** \d{1,3}: one to three ASCII digits. */
  predicate IsOctetField(s: string)
  {
    1 <= |s| <= 3 && AllDigits(s)
  }

  /**
   * The four groups of ^(\d{1,3})\.(\d{1,3})\.(\d{1,3})\.(\d{1,3})$ when s matches it:
   * s is exactly four fields of one to three digits with a dot between neighbours.
   */
  function QuadGroups(s: string): (r: Option<seq<string>>)
    ensures r.Some? ==> |r.value| == 4 && forall i | 0 <= i < 4 :: IsOctetField(r.value[i])
  {
    var pieces := Split(s, ".");
    if |pieces| == 4 && forall i | 0 <= i < 4 :: IsOctetField(pieces[i]) then Some(pieces) else None
  }

  /**
   * The two groups of ^(\d{1,3}\.\d{1,3}\.\d{1,3}\.\d{1,3})/(\d{1,2})$ when network
   * matches it: the dotted quad and the text of the prefix length.
   */
  function CidrGroups(network: string): (r: Option<(string, string)>)
    ensures r.Some? ==> QuadGroups(r.value.0).Some? && 1 <= |r.value.1| <= 2 && AllDigits(r.value.1)
  {
    var pieces := Split(network, "/");
    if |pieces| == 2 && QuadGroups(pieces[0]).Some? && 1 <= |pieces[1]| <= 2 && AllDigits(pieces[1])
    then Some((pieces[0], pieces[1]))
    else None
  }

  /** Fields that Integer.parseInt reads as values from 0 to 255. */
  predicate ByteFields(fields: seq<string>)
  {
    forall i | 0 <= i < |fields| :: ParseInt(fields[i]).Some? && IsByte(ParseInt(fields[i]).value)
  }

  function FieldValues(fields: seq<string>): (vs: seq<int>)
    requires ByteFields(fields)
    ensures |vs| == |fields| && AllBytes(vs)
  {
    seq(|fields|, i requires 0 <= i < |fields| => ParseInt(fields[i]).value)
  }

  // ---------------------------------------------------------------------------------
  // What convertToHexRoute computes

  /** The prefix length convertToHexRoute reads from a network matching the CIDR pattern. */
  function PrefixLength(network: string): Option<int>
  {
    match CidrGroups(network)
    case None => None
    case Some(groups) => ParseInt(groups.1)
  }

  /** A network that reaches the default-route check with a prefix length of 0. */
  predicate IsDefaultRoute(network: string)
  {
    PrefixLength(network) == Some(0)
  }

  /** Whether any of the networks is a default route. */
  predicate DefaultIn(networks: seq<string>)
  {
    exists i | 0 <= i < |networks| :: IsDefaultRoute(networks[i])
  }

  /**
   * The route convertToHexRoute writes, or None where it returns "". The network must
   * match the CIDR pattern with a length of 0 to 32 and the gateway the dotted-quad
   * pattern with every octet 0 to 255; of the network octets only the significant ones
   * are read, must be 0 to 255, and the others come out as 0.
   */
  function EncodedRoute(network: string, gateway: string): (r: Option<Route>)
    ensures r.Some? ==> IsDecoded(r.value)
  {
    match CidrGroups(network)
    case None => None
    case Some(groups) =>
      match ParseInt(groups.1)
      case None => None
      case Some(mask) =>
        if mask < 0 || mask > 32 then None
        else MaskedRoute(QuadGroups(groups.0).value, mask, gateway)
  }

  /**
   * The part of convertToHexRoute after the prefix length has passed its range check:
   * the gateway must match the dotted-quad pattern with every octet 0 to 255, and the
   * significant network octets must be 0 to 255.
   */
  function MaskedRoute(quad: seq<string>, mask: int, gateway: string): (r: Option<Route>)
    requires |quad| == 4 && 0 <= mask <= 32
    ensures r.Some? ==> IsDecoded(r.value)
  {
    match QuadGroups(gateway)
    case None => None
    case Some(gatewayFields) =>
      var sig := SignificantOctets(mask);
      var networkFields := quad[..sig];
      if !ByteFields(gatewayFields) || !ByteFields(networkFields) then None
      else Some(Route(FieldValues(networkFields) + Zeros(4 - sig), mask, FieldValues(gatewayFields)))
  }

  function MaskedHex(quad: seq<string>, mask: int, gateway: string): (hex: string)
    requires |quad| == 4 && 0 <= mask <= 32
    ensures |hex| == 0 <==> MaskedRoute(quad, mask, gateway).None?
  {
    match MaskedRoute(quad, mask, gateway)
    case Some(r) => RecordHex(r)
    case None => ""
  }

  /** What convertToHexRoute returns: the record of the route, or "" for a pair it rejects. */
  function RouteHex(network: string, gateway: string): (hex: string)
    ensures |hex| == 0 <==> EncodedRoute(network, gateway).None?
  {
    match EncodedRoute(network, gateway)
    case Some(r) => RecordHex(r)
    case None => ""
  }

  /** The payload generateDhcpOptions builds: every pair's record in order. */
  function Payload(networks: seq<string>, gateways: seq<string>): string
    requires |networks| == |gateways|
  {
    if |networks| == 0 then ""
    else
      var last := |networks| - 1;
      Payload(networks[..last], gateways[..last]) + RouteHex(networks[last], gateways[last])
  }

  /** The routes of the pairs convertToHexRoute accepts, in order. */
  function AcceptedRoutes(networks: seq<string>, gateways: seq<string>): (rs: seq<Route>)
    requires |networks| == |gateways|
    ensures forall i | 0 <= i < |rs| :: IsDecoded(rs[i])
  {
    if |networks| == 0 then []
    else
      var last := |networks| - 1;
      var accepted := match EncodedRoute(networks[last], gateways[last])
        case Some(r) => [r]
        case None => [];
      AcceptedRoutes(networks[..last], gateways[..last]) + accepted
  }

  // ---------------------------------------------------------------------------------
  // The converter

  class DhcpOptionConverter {
    var hasDefaultRoute: bool
    var debugMode: bool
    /** Every network this converter has been asked to convert, in order. */
    ghost var converted: seq<string>

    /** The flag says whether any network converted so far was a default route. */
    ghost predicate Valid()
      reads this
    {
      hasDefaultRoute == DefaultIn(converted)
    }

    constructor()
      ensures Valid() && converted == [] && !hasDefaultRoute && !debugMode
    {
      debugMode := false;
      hasDefaultRoute := false;
      converted := [];
    }

    /** hasDefaultRoute: whether a default route has gone through convertToHexRoute. */
    function HasDefaultRoute(): (seen: bool)
      reads this
      requires Valid()
      ensures seen <==> DefaultIn(converted)
    {
      hasDefaultRoute
    }

    /**
     * convertToHexRoute: the record of one route, or "" when the network, its prefix
     * length, the gateway or a significant network octet is rejected. The default-route
     * flag is raised as soon as the prefix length 0 has passed its range check, before
     * the gateway is looked at.
     */
    method ConvertToHexRoute(network: string, gateway: string) returns (hex: string)
      requires Valid()
      modifies this
      ensures Valid() && converted == old(converted) + [network] && debugMode == old(debugMode)
      ensures hasDefaultRoute == (old(hasDefaultRoute) || IsDefaultRoute(network))
      ensures hex == RouteHex(network, gateway)
    {
      DefaultInSnoc(converted, network);
      converted := converted + [network];
      var cidr := CidrGroups(network);
      if cidr.None? {
        return "";
      }
      var networkParts := JavaSplit(cidr.value.0, ".");
      QuadSplit(cidr.value.0);
      var parsedMask := ParseInt(cidr.value.1);
      if parsedMask.None? {
        return "";
      }
      var subnetMask := parsedMask.value;
      if subnetMask < 0 || subnetMask > 32 {
        return "";
      }
      if subnetMask == 0 {
        hasDefaultRoute := true;
      }
      hex := EncodeMasked(networkParts, subnetMask, gateway);
    }

    /**
     * generateDhcpOptions: nothing when the lists differ in length; otherwise the
     * records of the accepted pairs, in order, formatted by OutputFormatter. The
     * debug flag only changes what is printed.
     */
    method GenerateDhcpOptions(networks: seq<string>, gateways: seq<string>, debugMode: bool,
                               withOption249: bool, format: Formats.Format,
                               junosPoolName: Option<string>, ciscoPoolName: Option<string>)
        returns (options: Result<seq<string>>)
      requires Valid()
      modifies this
      ensures Valid() && this.debugMode == debugMode
      ensures |networks| != |gateways| ==> options == Ok([]) && converted == old(converted)
      ensures |networks| == |gateways| ==>
                converted == old(converted) + networks
                && options == OutputFormatter.Rendered(Payload(networks, gateways), withOption249, format,
                                                       junosPoolName, ciscoPoolName)
    {
      this.debugMode := debugMode;
      if |networks| != |gateways| {
        return Ok([]);
      }
      var aggregateHex := AggregateHex(networks, gateways);
      if |aggregateHex| == 0 {
        return Ok([]);
      }
      options := OutputFormatter.FormatDhcpOptions(aggregateHex, withOption249, format, junosPoolName, ciscoPoolName);
    }

    /** The loop of generateDhcpOptions: each pair converted in turn, the records appended. */
    method AggregateHex(networks: seq<string>, gateways: seq<string>) returns (aggregateHex: string)
      requires Valid() && |networks| == |gateways|
      modifies this
      ensures Valid() && debugMode == old(debugMode)
      ensures converted == old(converted) + networks
      ensures aggregateHex == Payload(networks, gateways)
    {
      aggregateHex := "";
      for i := 0 to |networks|
        invariant Valid() && debugMode == old(debugMode)
        invariant converted == old(converted) + networks[..i]
        invariant aggregateHex == Payload(networks[..i], gateways[..i])
      {
        var hex := ConvertToHexRoute(networks[i], gateways[i]);
        if |hex| > 0 {
          aggregateHex := aggregateHex + hex;
        }
        PayloadSnoc(networks, gateways, i);
        TakeOneMore(networks, i);
        AppendOne(old(converted), networks[..i], networks[i]);
      }
      TakeAll(networks);
      TakeAll(gateways);
    }

    /**
     * parseDhcpOptions: reads records while text remains and prints each route; a short
     * field, a field that is not hex or a length above 32 ends the loop with the routes
     * read so far.
     */
    method ParseDhcpOptions(hexString: string) returns (routes: seq<string>)
      ensures routes == RouteLines(DecodeLenient(hexString))
    {
      routes := [];
      ghost var decoded: seq<Route> := [];
      var index := 0;
      LenientStart(hexString);
      while index < |hexString|
        invariant 0 <= index <= |hexString|
        invariant AllShaped(decoded) && routes == RouteLines(decoded)
        invariant DecodeLenient(hexString) == decoded + DecodeLenient(hexString[index..])
        decreases |hexString| - index
      {
        var start := index;
        if index + 2 > |hexString| {
          LenientStops(hexString, start, decoded);
          return;
        }
        MaskAt(hexString, start);
        var subnetMask := ParseHexPair(hexString[index..index + 2]);
        if subnetMask.None? {
          LenientStops(hexString, start, decoded);
          return;
        }
        var mask := subnetMask.value;
        if mask < 0 || mask > 32 {
          LenientStops(hexString, start, decoded);
          return;
        }
        index := index + 2;
        var significantOctets := if mask == 0 then 0 else (mask + 7) / 8;
        var read, destination, gateway := ReadRouteFields(hexString, start, mask, significantOctets);
        if !read.Filled? {
          LenientStops(hexString, start, decoded);
          return;
        }
        index := read.next;
        ghost var route := Route(destination[..], mask, gateway[..]);
        LenientStep(hexString, start, index, decoded, route);
        RouteLinesSnoc(decoded, route);
        var network := QuadText(destination[..]) + "/" + IntText(mask);
        var gw := QuadText(gateway[..]);
        routes := routes + [network + " via " + gw];
        decoded := decoded + [route];
      }
    }
  }

  /** convertToHexRoute from the gateway check on, for a prefix length already in range. */
  method EncodeMasked(networkParts: seq<string>, subnetMask: int, gateway: string) returns (hex: string)
    requires |networkParts| == 4 && 0 <= subnetMask <= 32
    ensures hex == MaskedHex(networkParts, subnetMask, gateway)
  {
    var ip := QuadGroups(gateway);
    if ip.None? {
      return "";
    }
    var gatewayOctets := ReadGatewayOctets(ip.value);
    if gatewayOctets.None? {
      return "";
    }
    var significantOctets := if subnetMask == 0 then 0 else (subnetMask + 7) / 8;
    var written := WriteRecord(subnetMask, networkParts[..significantOctets], gatewayOctets.value[..]);
    if written.None? {
      return "";
    }
    hex := written.value;
    MaskedRecordHex(networkParts, subnetMask, gateway, networkParts[..significantOctets]);
  }

  /**
   * The gateway loop of convertToHexRoute: each group parsed with Integer.parseInt into
   * an int[4]; None where one is not a value from 0 to 255.
   */
  method ReadGatewayOctets(fields: seq<string>) returns (octets: Option<array<int>>)
    requires |fields| == 4
    ensures octets.None? <==> !ByteFields(fields)
    ensures octets.Some? ==> fresh(octets.value) && octets.value[..] == FieldValues(fields)
  {
    var gatewayOctets := new int[4];
    for i := 0 to 4
      invariant ByteFields(fields[..i]) && gatewayOctets[..i] == FieldValues(fields[..i])
    {
      var octet := ParseInt(fields[i]);
      if octet.None? || octet.value < 0 || octet.value > 255 {
        return None;
      }
      gatewayOctets[i] := octet.value;
      TakeOneMore(fields, i);
    }
    TakeAll(fields);
    return Some(gatewayOctets);
  }

  /**
   * The StringBuilder part of convertToHexRoute: the length as %02x, then each
   * significant network field parsed and checked and written as %02x, then the gateway
   * octets; None where a network field is not a value from 0 to 255.
   */
  method WriteRecord(mask: int, networkFields: seq<string>, gatewayOctets: seq<int>)
      returns (hex: Option<string>)
    requires IsByte(mask) && AllBytes(gatewayOctets)
    ensures hex.None? <==> !ByteFields(networkFields)
    ensures hex.Some? ==> hex.value == HexByte(mask) + HexBytes(FieldValues(networkFields)) + HexBytes(gatewayOctets)
  {
    var text := HexByte(mask);
    for i := 0 to |networkFields|
      invariant ByteFields(networkFields[..i])
      invariant text == HexByte(mask) + HexBytes(FieldValues(networkFields[..i]))
    {
      var octet := ParseInt(networkFields[i]);
      if octet.None? || octet.value < 0 || octet.value > 255 {
        return None;
      }
      FieldValuesSnoc(networkFields, i);
      HexBytesAppend(FieldValues(networkFields[..i]), [octet.value]);
      text := text + HexByte(octet.value);
    }
    TakeAll(networkFields);
    var prefix := text;
    for i := 0 to |gatewayOctets|
      invariant text == prefix + HexBytes(gatewayOctets[..i])
    {
      HexBytesAppend(gatewayOctets[..i], [gatewayOctets[i]]);
      TakeOneMore(gatewayOctets, i);
      text := text + HexByte(gatewayOctets[i]);
    }
    TakeAll(gatewayOctets);
    return Some(text);
  }

  // ---------------------------------------------------------------------------------
  // Steps of the proofs above

  lemma DefaultInSnoc(networks: seq<string>, network: string)
    ensures DefaultIn(networks + [network]) <==> DefaultIn(networks) || IsDefaultRoute(network)
  {
    var all := networks + [network];
    if DefaultIn(networks) {
      var i :| 0 <= i < |networks| && IsDefaultRoute(networks[i]);
      assert all[i] == networks[i];
    }
    if IsDefaultRoute(network) {
      assert all[|networks|] == network;
    }
    if DefaultIn(all) {
      var i :| 0 <= i < |all| && IsDefaultRoute(all[i]);
      if i < |networks| {
        assert networks[i] == all[i];
      }
    }
  }

  /** Java's split of a matched dotted quad gives the pattern's four groups. */
  lemma QuadSplit(s: string)
    requires QuadGroups(s).Some?
    ensures JavaSplit(s, ".") == QuadGroups(s).value
  {
    JavaSplitKeepsPieces(s, ".");
  }

  lemma FieldValuesSnoc(fields: seq<string>, i: nat)
    requires i < |fields| && ByteFields(fields[..i])
    requires ParseInt(fields[i]).Some? && IsByte(ParseInt(fields[i]).value)
    ensures ByteFields(fields[..i + 1])
    ensures FieldValues(fields[..i + 1]) == FieldValues(fields[..i]) + [ParseInt(fields[i]).value]
  {
    TakeOneMore(fields, i);
  }

  /** What WriteRecord returned is the record of the route EncodedRoute describes. */
  lemma MaskedRecordHex(quad: seq<string>, mask: int, gateway: string, networkFields: seq<string>)
    requires |quad| == 4 && 0 <= mask <= 32 && networkFields == quad[..SignificantOctets(mask)]
    requires QuadGroups(gateway).Some? && ByteFields(QuadGroups(gateway).value) && ByteFields(networkFields)
    ensures MaskedRoute(quad, mask, gateway).Some?
    ensures MaskedHex(quad, mask, gateway)
            == HexByte(mask) + HexBytes(FieldValues(networkFields)) + HexBytes(FieldValues(QuadGroups(gateway).value))
  {
    var values := FieldValues(networkFields);
    var sig := |values|;
    assert (values + Zeros(4 - sig))[..sig] == values;
  }

  lemma LenientStart(s: string)
    ensures DecodeLenient(s) == [] + DecodeLenient(s[0..])
  {
    assert s[0..] == s;
  }

  /** A record that cannot be read leaves the routes decoded so far. */
  lemma LenientStops(s: string, start: nat, decoded: seq<Route>)
    requires start < |s| && DecodeLenient(s) == decoded + DecodeLenient(s[start..])
    requires !ReadRecord(s[start..]).Got?
    ensures DecodeLenient(s) == decoded
  {
    DecodeStops(s[start..]);
    assert decoded + [] == decoded;
  }

  /** A whole record moves one route from the rest of the text to the routes decoded. */
  lemma LenientStep(s: string, start: nat, next: nat, decoded: seq<Route>, route: Route)
    requires start <= next <= |s| && DecodeLenient(s) == decoded + DecodeLenient(s[start..])
    requires ReadRecord(s[start..]) == Got(route, s[next..])
    ensures DecodeLenient(s) == decoded + [route] + DecodeLenient(s[next..])
  {
    DecodeAfterRecord(s[start..], route, s[next..]);
    assert decoded + ([route] + DecodeLenient(s[next..])) == decoded + [route] + DecodeLenient(s[next..]);
  }

  lemma PayloadSnoc(networks: seq<string>, gateways: seq<string>, i: nat)
    requires |networks| == |gateways| && i < |networks|
    ensures Payload(networks[..i + 1], gateways[..i + 1])
            == Payload(networks[..i], gateways[..i]) + RouteHex(networks[i], gateways[i])
  {
    assert networks[..i + 1][..i] == networks[..i];
    assert gateways[..i + 1][..i] == gateways[..i];
  }

  // ---------------------------------------------------------------------------------
  // The patterns

  /** Four fields with a dot between neighbours. */
  function DottedQuad(fields: seq<string>): string
    requires |fields| == 4
  {
    fields[0] + "." + (fields[1] + "." + (fields[2] + "." + fields[3]))
  }

  lemma OctetFieldLacks(f: string, c: char)
    requires IsOctetField(f) && !IsDigit(c)
    ensures Lacks(f, c)
  {
  }

  /**
   * Every text the CIDR pattern describes matches it, with its parts as the groups:
   * four fields of one to three digits, dots between them, "/" and one or two digits.
   */
  lemma CidrOfFields(fields: seq<string>, length: string)
    requires |fields| == 4 && forall i | 0 <= i < 4 :: IsOctetField(fields[i])
    requires 1 <= |length| <= 2 && AllDigits(length)
    ensures QuadGroups(DottedQuad(fields)) == Some(fields)
    ensures CidrGroups(DottedQuad(fields) + "/" + length) == Some((DottedQuad(fields), length))
  {
    var f0, f1, f2, f3 := fields[0], fields[1], fields[2], fields[3];
    var r2 := f2 + "." + f3;
    var r1 := f1 + "." + r2;
    OctetFieldLacks(f0, '.');
    OctetFieldLacks(f1, '.');
    OctetFieldLacks(f2, '.');
    OctetFieldLacks(f3, '.');
    SplitAt(f0, ".", r1);
    SplitAt(f1, ".", r2);
    SplitAt(f2, ".", f3);
    SplitWithout(f3, ".");
    FourPieces(fields, f0, f1, f2, f3);
    OctetFieldLacks(f0, '/');
    OctetFieldLacks(f1, '/');
    OctetFieldLacks(f2, '/');
    OctetFieldLacks(f3, '/');
    LacksAppend(f2, ".", f3, '/');
    LacksAppend(f1, ".", r2, '/');
    LacksAppend(f0, ".", r1, '/');
    DigitsLack(length, '/');
    SplitInTwo(DottedQuad(fields), "/", length);
  }

  /** A text the dotted-quad pattern matches is its four groups with dots between them. */
  lemma QuadGroupsCover(s: string)
    requires QuadGroups(s).Some?
    ensures s == DottedQuad(QuadGroups(s).value)
  {
    JoinOfSplit(s, ".");
    JoinFour(QuadGroups(s).value, ".");
  }

  /** A network the CIDR pattern matches is its two groups with "/" between them. */
  lemma CidrGroupsCover(network: string)
    requires CidrGroups(network).Some?
    ensures network == CidrGroups(network).value.0 + "/" + CidrGroups(network).value.1
  {
    JoinOfSplit(network, "/");
    JoinTwo(Split(network, "/"), "/");
  }

  // ---------------------------------------------------------------------------------
  // Encoding and decoding

  lemma DecodedIsNormal(r: Route)
    requires IsDecoded(r)
    ensures Encodable(r) && Normalize(r) == r
  {
    ZeroPadded(r.network, SignificantOctets(r.mask));
  }

  /**
   * The record convertToHexRoute writes reads back, whatever follows it, as the route
   * it was written from.
   */
  lemma EncodeThenDecode(network: string, gateway: string, rest: string)
    requires EncodedRoute(network, gateway).Some?
    ensures ReadRecord(RouteHex(network, gateway) + rest) == Got(EncodedRoute(network, gateway).value, rest)
  {
    var r := EncodedRoute(network, gateway).value;
    DecodedIsNormal(r);
    ReadRecordOfRecordHex(r, rest);
  }

  /** Decimal text of a value below 1000 has at most three digits, below 100 at most two. */
  lemma DecimalLength(n: nat)
    requires n < 1000
    ensures |Decimal(n)| <= 3 && (n < 100 ==> |Decimal(n)| <= 2)
  {
    if n >= 10 {
      assert |Decimal(n)| == |Decimal(n / 10)| + 1;
      if n / 10 >= 10 {
        assert |Decimal(n / 10)| == |Decimal(n / 100)| + 1;
      }
    }
  }

  /** The decimal texts of four bytes are what the dotted-quad pattern takes apart. */
  lemma QuadTextGroups(q: seq<int>)
    requires |q| == 4 && AllBytes(q)
    ensures QuadGroups(QuadText(q)) == Some(Texts(q))
    ensures ByteFields(Texts(q)) && FieldValues(Texts(q)) == q
  {
    QuadTextSplit(q);
    var texts := Texts(q);
    forall i | 0 <= i < 4
      ensures IsOctetField(texts[i]) && ParseInt(texts[i]) == Some(q[i])
    {
      DecimalLength(q[i]);
      ParseIntOfDecimal(q[i]);
    }
  }

  /** The network text of a decoded route matches the CIDR pattern with its own parts. */
  lemma NetworkTextGroups(r: Route)
    requires IsDecoded(r)
    ensures CidrGroups(NetworkText(r)) == Some((QuadText(r.network), IntText(r.mask)))
    ensures PrefixLength(NetworkText(r)) == Some(r.mask)
  {
    QuadTextGroups(r.network);
    DecimalLength(r.mask);
    ParseIntOfDecimal(r.mask);
    QuadTextLacks(r.network, '/');
    IntTextLacks(r.mask, '/');
    SplitInTwo(QuadText(r.network), "/", IntText(r.mask));
  }

  /** The leading decimal texts of bytes read back as those bytes. */
  lemma LeadingTexts(q: seq<int>, n: nat)
    requires AllBytes(q) && n <= |q|
    ensures ByteFields(Texts(q)[..n]) && FieldValues(Texts(q)[..n]) == q[..n]
  {
    var texts := Texts(q)[..n];
    forall i | 0 <= i < n
      ensures ParseInt(texts[i]) == Some(q[i])
    {
      ParseIntOfDecimal(q[i]);
    }
  }

  /**
   * A route line of parseDhcpOptions converts back to the record it was read from: its
   * network and gateway texts, given to convertToHexRoute, give the same route.
   */
  lemma DecodeThenEncode(r: Route)
    requires IsDecoded(r)
    ensures EncodedRoute(NetworkText(r), QuadText(r.gateway)) == Some(r)
    ensures RouteHex(NetworkText(r), QuadText(r.gateway)) == RecordHex(r)
  {
    NetworkTextGroups(r);
    QuadTextGroups(r.network);
    MaskedOfDecoded(r);
  }

  lemma MaskedOfDecoded(r: Route)
    requires IsDecoded(r)
    ensures MaskedRoute(Texts(r.network), r.mask, QuadText(r.gateway)) == Some(r)
  {
    var sig := SignificantOctets(r.mask);
    QuadTextGroups(r.gateway);
    LeadingTexts(r.network, sig);
    LeadingTexts(r.gateway, 4);
    ZeroPadded(r.network, sig);
    assert Texts(r.gateway)[..4] == Texts(r.gateway) && r.gateway[..4] == r.gateway;
  }

  lemma {:induction false} RecordsHexSnoc(rs: seq<Route>, r: Route)
    requires AllEncodable(rs) && Encodable(r)
    ensures AllEncodable(rs + [r]) && RecordsHex(rs + [r]) == RecordsHex(rs) + RecordHex(r)
    decreases |rs|
  {
    if |rs| == 0 {
      assert [r][1..] == [];
    } else {
      assert (rs + [r])[1..] == rs[1..] + [r];
      RecordsHexSnoc(rs[1..], r);
    }
  }

  /** The payload is the records of the accepted routes, back to back. */
  lemma {:induction false} PayloadIsRecords(networks: seq<string>, gateways: seq<string>)
    requires |networks| == |gateways|
    ensures AllEncodable(AcceptedRoutes(networks, gateways))
    ensures Payload(networks, gateways) == RecordsHex(AcceptedRoutes(networks, gateways))
    decreases |networks|
  {
    if |networks| > 0 {
      var last := |networks| - 1;
      var ns, gs := networks[..last], gateways[..last];
      PayloadIsRecords(ns, gs);
      var encoded := PairStep(networks, gateways);
      if encoded.Some? {
        RecordsHexSnoc(AcceptedRoutes(ns, gs), encoded.value);
      }
    }
  }

  /** One more pair adds its record to the payload and its route, if any, to the routes. */
  lemma PairStep(networks: seq<string>, gateways: seq<string>) returns (encoded: Option<Route>)
    requires |networks| == |gateways| > 0
    ensures var last := |networks| - 1;
            encoded == EncodedRoute(networks[last], gateways[last])
            && AllEncodable(AcceptedRoutes(networks, gateways))
            && (encoded.Some? ==>
                  Encodable(encoded.value)
                  && AcceptedRoutes(networks, gateways) == AcceptedRoutes(networks[..last], gateways[..last]) + [encoded.value]
                  && Payload(networks, gateways) == Payload(networks[..last], gateways[..last]) + RecordHex(encoded.value))
            && (encoded.None? ==>
                  AcceptedRoutes(networks, gateways) == AcceptedRoutes(networks[..last], gateways[..last])
                  && Payload(networks, gateways) == Payload(networks[..last], gateways[..last]))
  {
    var last := |networks| - 1;
    encoded := EncodedRoute(networks[last], gateways[last]);
    var prefix := AcceptedRoutes(networks[..last], gateways[..last]);
    assert prefix + [] == prefix;
    assert Payload(networks[..last], gateways[..last]) + "" == Payload(networks[..last], gateways[..last]);
  }

  lemma {:induction false} NormalizeAllDecoded(rs: seq<Route>)
    requires forall i | 0 <= i < |rs| :: IsDecoded(rs[i])
    ensures AllEncodable(rs) && NormalizeAll(rs) == rs
    decreases |rs|
  {
    if |rs| > 0 {
      DecodedIsNormal(rs[0]);
      NormalizeAllDecoded(rs[1..]);
    }
  }

  /**
   * The round trip of the newer converter: decoding the payload generateDhcpOptions
   * builds gives the accepted routes in their order, with the octets past each prefix
   * as 0.
   */
  lemma PayloadRoundTrip(networks: seq<string>, gateways: seq<string>)
    requires |networks| == |gateways|
    ensures DecodeLenient(Payload(networks, gateways)) == AcceptedRoutes(networks, gateways)
  {
    PayloadIsRecords(networks, gateways);
    DecodeOfRecordsHex(AcceptedRoutes(networks, gateways));
    NormalizeAllDecoded(AcceptedRoutes(networks, gateways));
  }

  /** A generated payload is hex text, so the ISC formatter never throws on it. */
  lemma GeneratedNeverThrows(networks: seq<string>, gateways: seq<string>, withOption249: bool,
                             format: Formats.Format, junosPoolName: Option<string>, ciscoPoolName: Option<string>)
    requires |networks| == |gateways|
    ensures OutputFormatter.Rendered(Payload(networks, gateways), withOption249, format, junosPoolName, ciscoPoolName).Ok?
  {
    PayloadIsRecords(networks, gateways);
    RecordsHexIsLower(AcceptedRoutes(networks, gateways));
    LowerHexIsHex(Payload(networks, gateways));
    OutputFormatter.IscOnHexDigits(Payload(networks, gateways), withOption249, format, junosPoolName, ciscoPoolName);
  }

  /**
   * Only the significant network fields are read: two networks that agree on them and
   * on the prefix length convert the same way, whatever the other fields hold.
   */
  lemma HostFieldsUnread(fields: seq<string>, others: seq<string>, length: string, gateway: string)
    requires |fields| == 4 && forall i | 0 <= i < 4 :: IsOctetField(fields[i])
    requires |others| == 4 && forall i | 0 <= i < 4 :: IsOctetField(others[i])
    requires 1 <= |length| <= 2 && AllDigits(length)
    requires ParseInt(length).Some? && 0 <= ParseInt(length).value <= 32
    requires fields[..SignificantOctets(ParseInt(length).value)] == others[..SignificantOctets(ParseInt(length).value)]
    ensures RouteHex(DottedQuad(fields) + "/" + length, gateway) == RouteHex(DottedQuad(others) + "/" + length, gateway)
  {
    CidrOfFields(fields, length);
    CidrOfFields(others, length);
  }

}
