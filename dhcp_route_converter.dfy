/**
 * DhcpRouteConverter, the older static converter: it checks each network/gateway pair
 * against a dotted-quad pattern that only admits octets up to 255, writes the RFC 3442
 * record of every pair it keeps with its own toHex helper, prints the payload in one of
 * six vendor formats (always both option 121 and option 249), and reads a payload back.
 */
module RouteConverter {
  import opened Wrappers
  import opened JavaText
  import opened Hex
  import opened Rfc3442
  import Formats
  import OutputFormatter
  import OptionConverter

  // ---------------------------------------------------------------------------------
  // IP_PATTERN

  /** [01]?[0-9][0-9]?: an optional 0 or 1, one digit, an optional second digit. */
  predicate ShortOctet(s: string)
  {
    (|s| == 1 && IsDigit(s[0]))
    || (|s| == 2 && IsDigit(s[0]) && IsDigit(s[1]))
    || (|s| == 3 && (s[0] == '0' || s[0] == '1') && IsDigit(s[1]) && IsDigit(s[2]))
  }

  /** 25[0-5]|2[0-4][0-9]|[01]?[0-9][0-9]?: one octet of IP_REGEX. */
  predicate OctetPattern(s: string)
  {
    (|s| == 3 && s[0] == '2' && s[1] == '5' && '0' <= s[2] <= '5')
    || (|s| == 3 && s[0] == '2' && '0' <= s[1] <= '4' && IsDigit(s[2]))
    || ShortOctet(s)
  }

  /** ^IP_REGEX$: four octets with a dot between neighbours and nothing else. */
  predicate IpPattern(s: string)
  {
    var pieces := Split(s, ".");
    |pieces| == 4 && forall i | 0 <= i < 4 :: OctetPattern(pieces[i])
  }

  lemma OneDigit(s: string)
    requires |s| == 1 && AllDigits(s)
    ensures DigitsValue(s) == DigitValue(s[0])
  {
    assert s[..0] == [];
  }

  lemma TwoDigits(s: string)
    requires |s| == 2 && AllDigits(s)
    ensures DigitsValue(s) == 10 * DigitValue(s[0]) + DigitValue(s[1])
  {
    OneDigit(s[..1]);
  }

  lemma ThreeDigits(s: string)
    requires |s| == 3 && AllDigits(s)
    ensures DigitsValue(s) == 100 * DigitValue(s[0]) + 10 * DigitValue(s[1]) + DigitValue(s[2])
  {
    TwoDigits(s[..2]);
  }

  /**
   * An octet matches the pattern exactly when it is one to three decimal digits whose
   * value is at most 255; leading zeros are allowed.
   */
  lemma OctetPatternValue(s: string)
    ensures OctetPattern(s) <==> 1 <= |s| <= 3 && AllDigits(s) && DigitsValue(s) <= 255
  {
    if 1 <= |s| <= 3 && AllDigits(s) {
      if |s| == 1 {
        OneDigit(s);
      } else if |s| == 2 {
        TwoDigits(s);
      } else {
        ThreeDigits(s);
      }
    }
  }

  /** Integer.parseInt of a string of digits that fits in an int is the value they write. */
  lemma ParseDigits(s: string)
    requires |s| > 0 && AllDigits(s) && DigitsValue(s) <= INT_MAX
    ensures ParseInt(s) == Some(DigitsValue(s) as int)
  {
  }

  /** The value Integer.parseInt reads from an octet that matches the pattern. */
  function OctetValue(s: string): (v: int)
    requires OctetPattern(s)
    ensures IsByte(v) && ParseInt(s) == Some(v)
  {
    OctetPatternValue(s);
    ParseDigits(s);
    DigitsValue(s)
  }

  function OctetValues(octets: seq<string>): (vs: seq<int>)
    requires forall i | 0 <= i < |octets| :: OctetPattern(octets[i])
    ensures |vs| == |octets| && AllBytes(vs)
  {
    seq(|octets|, i requires 0 <= i < |octets| => OctetValue(octets[i]))
  }

  /** split("\\.") of a text that matches the pattern gives its four octets. */
  lemma IpSplit(s: string)
    requires IpPattern(s)
    ensures JavaSplit(s, ".") == Split(s, ".")
  {
    var pieces := Split(s, ".");
    assert |pieces[3]| > 0;
    JavaSplitKeepsPieces(s, ".");
  }

  // ---------------------------------------------------------------------------------
  // toHex

  /** Integer.toHexString of a value read as unsigned: lower-case digits, no leading zero. */
  function HexString(u: nat): (h: string)
    ensures |h| > 0
  {
    if u < 16 then [HexDigit(u)] else HexString(u / 16) + [HexDigit(u % 16)]
  }

  /** The 32 bits of an int read as unsigned, as Integer.toHexString reads them. */
  function Unsigned(n: int): (u: nat)
    requires INT_MIN <= n <= INT_MAX
    ensures u % 256 == n % 256
  {
    if n < 0 then n + 0x1_0000_0000 else n
  }

  /** The last two digits of a hex text, with a 0 in front of a single digit. */
  function LastTwo(hex: string): string
    requires |hex| > 0
  {
    if |hex| == 1 then "0" + hex else hex[|hex| - 2..]
  }

  /** toHex: "00" for 0, else Integer.toHexString cut or padded to its last two digits. */
  function ToHex(n: int): string
    requires INT_MIN <= n <= INT_MAX
  {
    if n == 0 then "00" else LastTwo(HexString(Unsigned(n)))
  }

  lemma HexStringLast(u: nat)
    ensures HexString(u)[|HexString(u)| - 1] == HexDigit(u % 16)
  {
  }

  lemma LowNibbles(u: nat)
    ensures (u % 256) / 16 == (u / 16) % 16 && (u % 256) % 16 == u % 16
  {
    var q, r := u / 256, u % 256;
    assert u == 256 * q + r;
    assert u / 16 == 16 * q + r / 16;
    assert u % 16 == r % 16;
  }

  /** The last two digits of a value's hex text are its low byte. */
  lemma LastTwoIsLowByte(u: nat)
    ensures LastTwo(HexString(u)) == HexByte(u % 256)
  {
    LowNibbles(u);
    if u >= 16 {
      HexStringLast(u / 16);
    }
  }

  /**
   * toHex writes the low byte of its argument as two lower-case digits: for the values
   * the converter passes it (0 to 255) that is the byte itself, and for a negative int
   * the low byte of its two's complement.
   */
  lemma ToHexIsLowByte(n: int)
    requires INT_MIN <= n <= INT_MAX
    ensures ToHex(n) == HexByte(n % 256)
  {
    if n != 0 {
      LastTwoIsLowByte(Unsigned(n));
    }
  }

  lemma ToHexOfByte(b: int)
    requires IsByte(b)
    ensures ToHex(b) == HexByte(b)
  {
    ToHexIsLowByte(b);
  }

  // ---------------------------------------------------------------------------------
  // One pass of generateDhcpOptions' loop

  /** What the loop keeps of a pair it accepts: the three list entries it adds. */
  datatype Kept = Kept(mask: int, destination: string, router: string)

  predicate KeptValid(k: Kept)
  {
    0 <= k.mask <= 32 && IpPattern(k.destination) && IpPattern(k.router)
  }

  /**
   * The pair the loop keeps, or None where it prints an error and continues: the network
   * must split on "/" into two pieces, the second must parse as an int from 0 to 32, and
   * both the first piece and the gateway must match IP_PATTERN.
   */
  function Admitted(net: string, gw: string): (k: Option<Kept>)
    ensures k.Some? ==> KeptValid(k.value) && k.value.router == gw
  {
    var networkParts := JavaSplit(net, "/");
    if |networkParts| != 2 then None
    else
      match ParseInt(networkParts[1])
      case None => None
      case Some(mask) =>
        if mask < 0 || mask > 32 || !IpPattern(networkParts[0]) || !IpPattern(gw) then None
        else Some(Kept(mask, networkParts[0], gw))
  }

  /** The route whose record the loop writes for a kept pair. */
  function KeptRoute(k: Kept): (r: Route)
    requires KeptValid(k)
    ensures IsDecoded(r) && r.mask == k.mask
  {
    var sig := SignificantOctets(k.mask);
    var network := OctetValues(Split(k.destination, "."));
    Route(network[..sig] + Zeros(4 - sig), k.mask, OctetValues(Split(k.router, ".")))
  }

  /** The routeHex the loop appends for a pair, or "" for a pair it skips. */
  function PairHex(net: string, gw: string): (hex: string)
    ensures |hex| == 0 <==> Admitted(net, gw).None?
  {
    match Admitted(net, gw)
    case Some(k) => RecordHex(KeptRoute(k))
    case None => ""
  }

  /** generateDhcpOptions' if-ladder counts the octets a prefix length puts on the wire. */
  lemma LadderIsSignificant(mask: int, significantOctets: nat)
    requires 0 <= mask <= 32
    requires significantOctets == if 1 <= mask <= 8 then 1 else if 9 <= mask <= 16 then 2
                                  else if 17 <= mask <= 24 then 3 else if 25 <= mask <= 32 then 4 else 0
    ensures significantOctets == SignificantOctets(mask)
  {
  }

  /** The body of generateDhcpOptions' loop for one pair: the entries it keeps and the hex it appends. */
  method ConvertPair(net: string, gw: string) returns (kept: Option<Kept>, routeHex: string)
    ensures kept == Admitted(net, gw) && routeHex == PairHex(net, gw)
  {
    var networkParts := JavaSplit(net, "/");
    if |networkParts| != 2 {
      return None, "";
    }
    var network := networkParts[0];
    var parsed := ParseInt(networkParts[1]);
    if parsed.None? {
      return None, "";
    }
    var subnetMask := parsed.value;
    if subnetMask < 0 || subnetMask > 32 || !IpPattern(network) || !IpPattern(gw) {
      return None, "";
    }
    var destinationParts := JavaSplit(network, ".");
    var routerParts := JavaSplit(gw, ".");
    IpSplit(network);
    IpSplit(gw);
    var significantOctets := 0;
    if subnetMask >= 1 && subnetMask <= 8 {
      significantOctets := 1;
    } else if subnetMask >= 9 && subnetMask <= 16 {
      significantOctets := 2;
    } else if subnetMask >= 17 && subnetMask <= 24 {
      significantOctets := 3;
    } else if subnetMask >= 25 && subnetMask <= 32 {
      significantOctets := 4;
    }
    LadderIsSignificant(subnetMask, significantOctets);
    var networkLen := ToHex(subnetMask);
    ToHexOfByte(subnetMask);
    var destination := OctetsHex(destinationParts, significantOctets);
    var router := OctetsHex(routerParts, |routerParts|);
    routeHex := networkLen + destination + router;
    kept := Some(Kept(subnetMask, network, gw));
    KeptRecord(kept.value, destination, router);
  }

  /** The destination and router loops: toHex of Integer.parseInt of each of the first count octets. */
  method OctetsHex(octets: seq<string>, count: nat) returns (hex: string)
    requires count <= |octets| && forall i | 0 <= i < |octets| :: OctetPattern(octets[i])
    ensures hex == HexBytes(OctetValues(octets)[..count])
  {
    hex := "";
    ghost var values := OctetValues(octets);
    for j := 0 to count
      invariant hex == HexBytes(values[..j])
    {
      assert values[j] == OctetValue(octets[j]);
      var value := ParseInt(octets[j]).value;
      ToHexOfByte(value);
      HexBytesSnoc(values, j);
      hex := hex + ToHex(value);
    }
  }

  lemma HexBytesSnoc(vs: seq<int>, j: nat)
    requires j < |vs| && AllBytes(vs)
    ensures HexBytes(vs[..j + 1]) == HexBytes(vs[..j]) + HexByte(vs[j])
  {
    TakeOneMore(vs, j);
    HexBytesAppend(vs[..j], [vs[j]]);
    assert HexBytes([vs[j]]) == HexByte(vs[j]) + HexBytes([]);
  }

  lemma KeptRecord(k: Kept, destination: string, router: string)
    requires KeptValid(k)
    requires destination == HexBytes(OctetValues(Split(k.destination, "."))[..SignificantOctets(k.mask)])
    requires router == HexBytes(OctetValues(Split(k.router, "."))[..4])
    ensures HexByte(k.mask) + destination + router == RecordHex(KeptRoute(k))
  {
    var gateway := OctetValues(Split(k.router, "."));
    assert gateway[..4] == gateway;
    RecordOfParts(OctetValues(Split(k.destination, ".")), k.mask, gateway);
  }

  lemma RecordOfParts(network: seq<int>, mask: int, gateway: seq<int>)
    requires |network| == 4 && |gateway| == 4 && AllBytes(network) && AllBytes(gateway) && 0 <= mask <= 32
    ensures var sig := SignificantOctets(mask);
            RecordHex(Route(network[..sig] + Zeros(4 - sig), mask, gateway))
            == HexByte(mask) + HexBytes(network[..sig]) + HexBytes(gateway)
  {
    var sig := SignificantOctets(mask);
    assert (network[..sig] + Zeros(4 - sig))[..sig] == network[..sig];
  }

  // ---------------------------------------------------------------------------------
  // generateDhcpOptions

  /** The loop runs while both lists have an element left: pairs past the shorter list are never read. */
  function PairCount(networks: seq<string>, gateways: seq<string>): (n: nat)
    ensures n <= |networks| && n <= |gateways|
  {
    if |networks| < |gateways| then |networks| else |gateways|
  }

  /** The entries of the three lists after the loop has seen the first n pairs, in order. */
  function KeptOf(networks: seq<string>, gateways: seq<string>, n: nat): (ks: seq<Kept>)
    requires n <= |networks| && n <= |gateways|
    ensures forall i | 0 <= i < |ks| :: KeptValid(ks[i])
  {
    if n == 0 then []
    else
      var k := Admitted(networks[n - 1], gateways[n - 1]);
      KeptOf(networks, gateways, n - 1) + (if k.Some? then [k.value] else [])
  }

  /** aggregateHex after the loop has seen the first n pairs. */
  function AggregateOf(networks: seq<string>, gateways: seq<string>, n: nat): string
    requires n <= |networks| && n <= |gateways|
  {
    if n == 0 then "" else AggregateOf(networks, gateways, n - 1) + PairHex(networks[n - 1], gateways[n - 1])
  }

  function Masks(ks: seq<Kept>): (ms: seq<int>)
    ensures |ms| == |ks| && forall i | 0 <= i < |ks| :: ms[i] == ks[i].mask
  {
    seq(|ks|, i requires 0 <= i < |ks| => ks[i].mask)
  }

  function Destinations(ks: seq<Kept>): (ds: seq<string>)
    ensures |ds| == |ks| && forall i | 0 <= i < |ks| :: ds[i] == ks[i].destination
  {
    seq(|ks|, i requires 0 <= i < |ks| => ks[i].destination)
  }

  function Routers(ks: seq<Kept>): (rs: seq<string>)
    ensures |rs| == |ks| && forall i | 0 <= i < |ks| :: rs[i] == ks[i].router
  {
    seq(|ks|, i requires 0 <= i < |ks| => ks[i].router)
  }

  /** The routes whose records make up the payload. */
  function KeptRoutes(ks: seq<Kept>): (rs: seq<Route>)
    requires forall i | 0 <= i < |ks| :: KeptValid(ks[i])
    ensures |rs| == |ks| && forall i | 0 <= i < |ks| :: rs[i] == KeptRoute(ks[i]) && IsDecoded(rs[i])
  {
    seq(|ks|, i requires 0 <= i < |ks| => KeptRoute(ks[i]))
  }

  /** What generateDhcpOptions returns: nothing when no pair was kept, else the format's lines. */
  function Generated(networks: seq<string>, gateways: seq<string>, format: Formats.Format,
                     junosPoolName: Option<string>): seq<string>
  {
    var n := PairCount(networks, gateways);
    var aggregateHex := AggregateOf(networks, gateways, n);
    var ks := KeptOf(networks, gateways, n);
    if |aggregateHex| == 0 then []
    else
      KeptFit(ks);
      FormatLines(format, aggregateHex, Masks(ks), Destinations(ks), Routers(ks), junosPoolName)
  }

  /** The lines each format of generateDhcpOptions' switch prints. */
  function FormatLines(format: Formats.Format, aggregateHex: string, masks: seq<int>, destinations: seq<string>,
                       routers: seq<string>, junosPoolName: Option<string>): seq<string>
    requires IscFits(masks, destinations, routers)
  {
    match format
    case Default => FormatDefault(aggregateHex)
    case Isc => IscOptionLines(masks, destinations, routers)
    case RouterOs => FormatRouterOs(aggregateHex)
    case Junos => FormatJunos(aggregateHex, junosPoolName)
    case Cisco => FormatCisco(aggregateHex)
    case Windows => FormatWindows(aggregateHex)
  }

  /**
   * generateDhcpOptions: the pairs up to the end of the shorter list are converted in
   * order, the kept ones appended to the payload and to the three lists, and the result
   * printed in the chosen format. The debug flag only prints each route.
   */
  method GenerateDhcpOptions(networks: seq<string>, gateways: seq<string>, debug: bool,
                             format: Formats.Format, junosPoolName: Option<string>)
      returns (results: seq<string>)
    ensures results == Generated(networks, gateways, format, junosPoolName)
  {
    results := [];
    var aggregateHex, maskList, destinationList, routerList := Aggregate(networks, gateways);
    if |aggregateHex| == 0 {
      return results;
    }
    KeptFit(KeptOf(networks, gateways, PairCount(networks, gateways)));
    results := FormatOptions(format, aggregateHex, maskList, destinationList, routerList, junosPoolName);
  }

  /** The switch at the end of generateDhcpOptions. */
  method FormatOptions(format: Formats.Format, aggregateHex: string, maskList: seq<int>, destinationList: seq<string>,
                       routerList: seq<string>, junosPoolName: Option<string>) returns (results: seq<string>)
    requires IscFits(maskList, destinationList, routerList)
    ensures results == FormatLines(format, aggregateHex, maskList, destinationList, routerList, junosPoolName)
  {
    match format {
      case Default =>
        results := FormatDefault(aggregateHex);
        DefaultLines(aggregateHex, maskList, destinationList, routerList, junosPoolName);
      case Isc =>
        results := FormatIsc(maskList, destinationList, routerList);
        IscLines(aggregateHex, maskList, destinationList, routerList, junosPoolName);
      case RouterOs =>
        results := FormatRouterOs(aggregateHex);
        RouterOsLines(aggregateHex, maskList, destinationList, routerList, junosPoolName);
      case Junos =>
        results := FormatJunos(aggregateHex, junosPoolName);
        JunosLines(aggregateHex, maskList, destinationList, routerList, junosPoolName);
      case Cisco =>
        results := FormatCisco(aggregateHex);
        CiscoLines(aggregateHex, maskList, destinationList, routerList, junosPoolName);
      case Windows =>
        results := FormatWindows(aggregateHex);
        WindowsLines(aggregateHex, maskList, destinationList, routerList, junosPoolName);
    }
  }

  lemma DefaultLines(aggregateHex: string, masks: seq<int>, destinations: seq<string>, routers: seq<string>,
           junosPoolName: Option<string>)
    requires IscFits(masks, destinations, routers)
    ensures FormatLines(Formats.Default, aggregateHex, masks, destinations, routers, junosPoolName) == FormatDefault(aggregateHex)
  {
  }

  lemma IscLines(aggregateHex: string, masks: seq<int>, destinations: seq<string>, routers: seq<string>,
       junosPoolName: Option<string>)
    requires IscFits(masks, destinations, routers)
    ensures FormatLines(Formats.Isc, aggregateHex, masks, destinations, routers, junosPoolName) == IscOptionLines(masks, destinations, routers)
  {
  }

  lemma RouterOsLines(aggregateHex: string, masks: seq<int>, destinations: seq<string>, routers: seq<string>,
            junosPoolName: Option<string>)
    requires IscFits(masks, destinations, routers)
    ensures FormatLines(Formats.RouterOs, aggregateHex, masks, destinations, routers, junosPoolName) == FormatRouterOs(aggregateHex)
  {
  }

  lemma JunosLines(aggregateHex: string, masks: seq<int>, destinations: seq<string>, routers: seq<string>,
         junosPoolName: Option<string>)
    requires IscFits(masks, destinations, routers)
    ensures FormatLines(Formats.Junos, aggregateHex, masks, destinations, routers, junosPoolName) == FormatJunos(aggregateHex, junosPoolName)
  {
  }

  lemma CiscoLines(aggregateHex: string, masks: seq<int>, destinations: seq<string>, routers: seq<string>,
         junosPoolName: Option<string>)
    requires IscFits(masks, destinations, routers)
    ensures FormatLines(Formats.Cisco, aggregateHex, masks, destinations, routers, junosPoolName) == FormatCisco(aggregateHex)
  {
  }

  lemma WindowsLines(aggregateHex: string, masks: seq<int>, destinations: seq<string>, routers: seq<string>,
           junosPoolName: Option<string>)
    requires IscFits(masks, destinations, routers)
    ensures FormatLines(Formats.Windows, aggregateHex, masks, destinations, routers, junosPoolName) == FormatWindows(aggregateHex)
  {
  }

  /** The loop of generateDhcpOptions. */
  method Aggregate(networks: seq<string>, gateways: seq<string>)
      returns (aggregateHex: string, maskList: seq<int>, destinationList: seq<string>, routerList: seq<string>)
    ensures aggregateHex == AggregateOf(networks, gateways, PairCount(networks, gateways))
    ensures maskList == Masks(KeptOf(networks, gateways, PairCount(networks, gateways)))
    ensures destinationList == Destinations(KeptOf(networks, gateways, PairCount(networks, gateways)))
    ensures routerList == Routers(KeptOf(networks, gateways, PairCount(networks, gateways)))
  {
    aggregateHex, maskList, destinationList, routerList := "", [], [], [];
    var i := 0;
    while i < PairCount(networks, gateways)
      invariant i <= PairCount(networks, gateways)
      invariant aggregateHex == AggregateOf(networks, gateways, i)
      invariant maskList == Masks(KeptOf(networks, gateways, i))
      invariant destinationList == Destinations(KeptOf(networks, gateways, i))
      invariant routerList == Routers(KeptOf(networks, gateways, i))
    {
      aggregateHex, maskList, destinationList, routerList :=
        ConvertNext(networks, gateways, i, aggregateHex, maskList, destinationList, routerList);
      i := i + 1;
    }
  }

  lemma PairStep(networks: seq<string>, gateways: seq<string>, i: nat)
    requires i < |networks| && i < |gateways|
    ensures KeptOf(networks, gateways, i + 1)
            == KeptOf(networks, gateways, i) + (if Admitted(networks[i], gateways[i]).Some? then [Admitted(networks[i], gateways[i]).value] else [])
    ensures AggregateOf(networks, gateways, i + 1) == AggregateOf(networks, gateways, i) + PairHex(networks[i], gateways[i])
  {
  }

  /** One pass of the loop: convert pair i and append what is kept. */
  method ConvertNext(networks: seq<string>, gateways: seq<string>, i: nat,
                     aggregateHex: string, maskList: seq<int>, destinationList: seq<string>, routerList: seq<string>)
      returns (nextHex: string, nextMasks: seq<int>, nextDestinations: seq<string>, nextRouters: seq<string>)
    requires i < |networks| && i < |gateways|
    requires aggregateHex == AggregateOf(networks, gateways, i)
    requires maskList == Masks(KeptOf(networks, gateways, i))
    requires destinationList == Destinations(KeptOf(networks, gateways, i))
    requires routerList == Routers(KeptOf(networks, gateways, i))
    ensures nextHex == AggregateOf(networks, gateways, i + 1)
    ensures nextMasks == Masks(KeptOf(networks, gateways, i + 1))
    ensures nextDestinations == Destinations(KeptOf(networks, gateways, i + 1))
    ensures nextRouters == Routers(KeptOf(networks, gateways, i + 1))
  {
    nextHex, nextMasks, nextDestinations, nextRouters := aggregateHex, maskList, destinationList, routerList;
    var kept, routeHex := ConvertPair(networks[i], gateways[i]);
    AggregateStep(networks, gateways, i, aggregateHex, maskList, destinationList, routerList);
    if kept.Some? {
      nextHex := aggregateHex + routeHex;
      nextMasks := maskList + [kept.value.mask];
      nextDestinations := destinationList + [kept.value.destination];
      nextRouters := routerList + [kept.value.router];
    }
  }

  /** One pass of the loop takes the payload and the three lists from the first i pairs to the first i + 1. */
  lemma AggregateStep(networks: seq<string>, gateways: seq<string>, i: nat,
                      aggregateHex: string, maskList: seq<int>, destinationList: seq<string>, routerList: seq<string>)
    requires i < |networks| && i < |gateways|
    requires aggregateHex == AggregateOf(networks, gateways, i)
    requires maskList == Masks(KeptOf(networks, gateways, i))
    requires destinationList == Destinations(KeptOf(networks, gateways, i))
    requires routerList == Routers(KeptOf(networks, gateways, i))
    ensures var kept := Admitted(networks[i], gateways[i]);
            (if kept.Some? then aggregateHex + PairHex(networks[i], gateways[i]) else aggregateHex)
            == AggregateOf(networks, gateways, i + 1)
    ensures var kept := Admitted(networks[i], gateways[i]);
            (if kept.Some? then maskList + [kept.value.mask] else maskList) == Masks(KeptOf(networks, gateways, i + 1))
    ensures var kept := Admitted(networks[i], gateways[i]);
            (if kept.Some? then destinationList + [kept.value.destination] else destinationList)
            == Destinations(KeptOf(networks, gateways, i + 1))
    ensures var kept := Admitted(networks[i], gateways[i]);
            (if kept.Some? then routerList + [kept.value.router] else routerList) == Routers(KeptOf(networks, gateways, i + 1))
  {
    PairStep(networks, gateways, i);
    KeptSnoc(KeptOf(networks, gateways, i), Admitted(networks[i], gateways[i]));
    if Admitted(networks[i], gateways[i]).None? {
      assert aggregateHex + "" == aggregateHex;
    }
  }

  lemma KeptSnoc(ks: seq<Kept>, kept: Option<Kept>)
    ensures var next := ks + (if kept.Some? then [kept.value] else []);
            kept.Some? ==> Masks(next) == Masks(ks) + [kept.value.mask]
                           && Destinations(next) == Destinations(ks) + [kept.value.destination]
                           && Routers(next) == Routers(ks) + [kept.value.router]
    ensures kept.None? ==> ks + [] == ks
  {
  }

  /** Every kept entry has the destination octets the ISC loop reads. */
  lemma KeptFit(ks: seq<Kept>)
    requires forall i | 0 <= i < |ks| :: KeptValid(ks[i])
    ensures IscFits(Masks(ks), Destinations(ks), Routers(ks))
  {
    forall i | 0 <= i < |ks|
      ensures IscCountAsWritten(ks[i].mask) <= |JavaSplit(ks[i].destination, ".")|
    {
      IpSplit(ks[i].destination);
    }
  }

  // ---------------------------------------------------------------------------------
  // The format helpers

  /** The pool name formatCisco writes. */
  const CISCO_POOL := "mypool"

  /** formatDefault: the payload as option 121, then as option 249. */
  function FormatDefault(aggregateHex: string): seq<string>
  {
    ["aggregate_opt_121 : 0x" + aggregateHex, "aggregate_opt_249 : 0x" + aggregateHex]
  }

  /** formatRouterOs: a RouterOS command adding each option. */
  function FormatRouterOs(aggregateHex: string): seq<string>
  {
    ["/ip dhcp-server option add code=121 name=aggregate_opt_121 value=0x" + aggregateHex,
     "/ip dhcp-server option add code=249 name=aggregate_opt_249 value=0x" + aggregateHex]
  }

  /** formatJunos: a JunOS set command for each option in the named pool ("null" for none). */
  function FormatJunos(aggregateHex: string, poolName: Option<string>): seq<string>
  {
    ["set access address-assignment pool " + OutputFormatter.PoolText(poolName)
     + " family inet dhcp-attributes option 121 hex-string " + aggregateHex,
     "set access address-assignment pool " + OutputFormatter.PoolText(poolName)
     + " family inet dhcp-attributes option 249 hex-string " + aggregateHex]
  }

  /** formatCisco: the pool line, then each option in it. */
  function FormatCisco(aggregateHex: string): seq<string>
  {
    ["ip dhcp pool " + CISCO_POOL, " option 121 hex " + aggregateHex, " option 249 hex " + aggregateHex]
  }

  /** formatWindows: a PowerShell command setting each option. */
  function FormatWindows(aggregateHex: string): seq<string>
  {
    ["Set-DhcpServerv4OptionValue -OptionId 121 -Value 0x" + aggregateHex,
     "Set-DhcpServerv4OptionValue -OptionId 249 -Value 0x" + aggregateHex]
  }

  // ---------------------------------------------------------------------------------
  // formatIsc

  /** The destination octets the wire carries for a prefix length: 0 for 0, else as formatIsc counts them. */
  function IscCount(mask: int): nat
  {
    if mask == 0 then 0 else IscCountAsWritten(mask)
  }

  /** The count as formatIsc's conditional computes it, which gives 1 for a prefix length of 0. */
  function IscCountAsWritten(mask: int): nat
  {
    if mask <= 8 then 1 else if mask <= 16 then 2 else if mask <= 24 then 3 else 4
  }

  /** One route of the ISC arrays: the prefix length, count destination octets and the gateway octets, comma separated. */
  function IscEntryWith(mask: int, destination: string, router: string, count: nat): string
    requires count <= |JavaSplit(destination, ".")|
  {
    Join([IntText(mask)] + JavaSplit(destination, ".")[..count] + JavaSplit(router, "."), ",")
  }

  /** The entry RFC 3442 calls for: the corrected count, with no destination octet for a default route. */
  function IscEntry(mask: int, destination: string, router: string): string
    requires IscCount(mask) <= |JavaSplit(destination, ".")|
  {
    IscEntryWith(mask, destination, router, IscCount(mask))
  }

  /** The entry formatIsc writes, with the count its conditional computes. */
  function IscEntryAsWritten(mask: int, destination: string, router: string): string
    requires IscCountAsWritten(mask) <= |JavaSplit(destination, ".")|
  {
    IscEntryWith(mask, destination, router, IscCountAsWritten(mask))
  }

  /** The lists formatIsc reads: a destination with enough octets for every mask, and a router for each. */
  predicate IscFits(masks: seq<int>, destinations: seq<string>, routers: seq<string>)
  {
    |masks| <= |destinations| && |masks| <= |routers|
    && forall i | 0 <= i < |masks| :: IscCountAsWritten(masks[i]) <= |JavaSplit(destinations[i], ".")|
  }

  function IscEntries(masks: seq<int>, destinations: seq<string>, routers: seq<string>): (es: seq<string>)
    requires IscFits(masks, destinations, routers)
    ensures |es| == |masks|
  {
    seq(|masks|, i requires 0 <= i < |masks| && IscFits(masks, destinations, routers) =>
                   IscEntryAsWritten(masks[i], destinations[i], routers[i]))
  }

  /**
   * formatIsc: both declarations, then option 121 and option 249 each set to every
   * route's entry, ", " between entries and ";" at the end.
   */
  function IscOptionLines(masks: seq<int>, destinations: seq<string>, routers: seq<string>): seq<string>
    requires IscFits(masks, destinations, routers)
  {
    var routes := Join(IscEntries(masks, destinations, routers), ", ");
    [OutputFormatter.ISC_DECLARE_121, OutputFormatter.ISC_DECLARE_249,
     OutputFormatter.ISC_OPTION_121 + routes + ";", OutputFormatter.ISC_OPTION_249 + routes + ";"]
  }

  method FormatIsc(maskList: seq<int>, destinationList: seq<string>, routerList: seq<string>)
      returns (results: seq<string>)
    requires IscFits(maskList, destinationList, routerList)
    ensures results == IscOptionLines(maskList, destinationList, routerList)
  {
    results := [OutputFormatter.ISC_DECLARE_121];
    var opt121 := OutputFormatter.ISC_OPTION_121;
    results := results + [OutputFormatter.ISC_DECLARE_249];
    var opt249 := OutputFormatter.ISC_OPTION_249;
    ghost var entries := IscEntries(maskList, destinationList, routerList);
    for i := 0 to |maskList|
      invariant opt121 == OutputFormatter.ISC_OPTION_121 + Join(entries[..i], ", ")
      invariant opt249 == OutputFormatter.ISC_OPTION_249 + Join(entries[..i], ", ")
    {
      var entry := IscEntryText(maskList[i], destinationList[i], routerList[i]);
      assert entry == entries[i];
      ghost var before121, before249 := opt121, opt249;
      if i > 0 {
        opt121 := opt121 + ", ";
        opt249 := opt249 + ", ";
      }
      opt121 := opt121 + entry;
      opt249 := opt249 + entry;
      IscAppend(OutputFormatter.ISC_OPTION_121, before121, opt121, entries, i);
      IscAppend(OutputFormatter.ISC_OPTION_249, before249, opt249, entries, i);
    }
    TakeAll(entries);
    results := results + [opt121 + ";", opt249 + ";"];
  }

  /** Appending the next entry, after ", " unless it is the first, extends the joined entries. */
  lemma IscAppend(prefix: string, before: string, after: string, entries: seq<string>, i: nat)
    requires i < |entries| && before == prefix + Join(entries[..i], ", ")
    requires after == (if i > 0 then before + ", " else before) + entries[i]
    ensures after == prefix + Join(entries[..i + 1], ", ")
  {
    TakeOneMore(entries, i);
    if i > 0 {
      JoinSnoc(entries[..i], entries[i], ", ");
    } else {
      assert entries[..1] == [entries[0]];
    }
  }

  /** One pass of formatIsc's loop: the prefix length, then the destination octets, then the gateway octets. */
  method IscEntryText(mask: int, destination: string, router: string) returns (entry: string)
    requires IscCountAsWritten(mask) <= |JavaSplit(destination, ".")|
    ensures entry == IscEntryAsWritten(mask, destination, router)
  {
    var destParts := JavaSplit(destination, ".");
    var gwParts := JavaSplit(router, ".");
    var significantOctets := if mask <= 8 then 1 else if mask <= 16 then 2 else if mask <= 24 then 3 else 4;
    entry := IntText(mask);
    ghost var head := [IntText(mask)];
    AppendNothing(head, destParts);
    for j := 0 to significantOctets
      invariant entry == Join(head + destParts[..j], ",")
    {
      TakeOneMore(destParts, j);
      AppendOne(head, destParts[..j], destParts[j]);
      JoinSnoc(head + destParts[..j], destParts[j], ",");
      entry := entry + "," + destParts[j];
    }
    ghost var front := head + destParts[..significantOctets];
    AppendNothing(front, gwParts);
    for j := 0 to |gwParts|
      invariant entry == Join(front + gwParts[..j], ",")
    {
      TakeOneMore(gwParts, j);
      AppendOne(front, gwParts[..j], gwParts[j]);
      JoinSnoc(front + gwParts[..j], gwParts[j], ",");
      entry := entry + "," + gwParts[j];
    }
    TakeAll(gwParts);
  }

  lemma AppendNothing(front: seq<string>, parts: seq<string>)
    ensures front + parts[..0] == front
  {
  }

  // ---------------------------------------------------------------------------------
  // parseDhcpOptions

  /** The text the older parser decodes: lower-cased, with one leading "0x" removed. */
  function CleanedHex(option: string): string
  {
    var hex := ToLowerCase(option);
    if StartsWith(hex, "0x") then hex[2..] else hex
  }

  /**
   * What the older parseDhcpOptions decodes: nothing for null, nor for a cleaned text
   * that is not one or more lower-case hex digits; otherwise the records read from it
   * until one cannot be read.
   */
  function LegacyDecode(option: Option<string>): (rs: seq<Route>)
    ensures AllShaped(rs)
  {
    match option
    case None => []
    case Some(text) =>
      var hex := CleanedHex(text);
      if |hex| == 0 || !AllLowerHexDigits(hex) then [] else DecodeLenient(hex)
  }

  /** parseDhcpOptions: one "network/mask via gateway" line per route decoded. */
  method ParseDhcpOptions(option: Option<string>) returns (results: seq<string>)
    ensures results == RouteLines(LegacyDecode(option))
  {
    results := [];
    if option.None? {
      return;
    }
    var hex := ToLowerCase(option.value);
    if StartsWith(hex, "0x") {
      hex := hex[2..];
    }
    if |hex| == 0 || !AllLowerHexDigits(hex) {
      return;
    }
    results := ReadRoutes(hex);
  }

  /** The loop of parseDhcpOptions over the cleaned text. */
  method ReadRoutes(hex: string) returns (results: seq<string>)
    ensures results == RouteLines(DecodeLenient(hex))
  {
    results := [];
    ghost var decoded: seq<Route> := [];
    var index := 0;
    OptionConverter.LenientStart(hex);
    while index < |hex|
      invariant 0 <= index <= |hex|
      invariant AllShaped(decoded) && results == RouteLines(decoded)
      invariant DecodeLenient(hex) == decoded + DecodeLenient(hex[index..])
      decreases |hex| - index
    {
      var start := index;
      if index + 2 > |hex| {
        OptionConverter.LenientStops(hex, start, decoded);
        break;
      }
      MaskAt(hex, start);
      var subnetMask := ParseHexPair(hex[index..index + 2]);
      if subnetMask.None? {
        OptionConverter.LenientStops(hex, start, decoded);
        break;
      }
      var mask := subnetMask.value;
      if mask < 0 || mask > 32 {
        OptionConverter.LenientStops(hex, start, decoded);
        break;
      }
      index := index + 2;
      var significantOctets := 0;
      if mask >= 1 && mask <= 8 {
        significantOctets := 1;
      } else if mask >= 9 && mask <= 16 {
        significantOctets := 2;
      } else if mask >= 17 && mask <= 24 {
        significantOctets := 3;
      } else if mask >= 25 && mask <= 32 {
        significantOctets := 4;
      }
      LadderIsSignificant(mask, significantOctets);
      var read, destination, gateway := ReadRouteFields(hex, start, mask, significantOctets);
      if !read.Filled? {
        OptionConverter.LenientStops(hex, start, decoded);
        return;
      }
      index := read.next;
      ghost var route := Route(destination[..], mask, gateway[..]);
      OptionConverter.LenientStep(hex, start, index, decoded, route);
      RouteLinesSnoc(decoded, route);
      var network := QuadText(destination[..]) + "/" + IntText(mask);
      var gw := QuadText(gateway[..]);
      results := results + [network + " via " + gw];
      decoded := decoded + [route];
    }
  }

  // ---------------------------------------------------------------------------------
  // Properties: the format helpers

  /** formatDefault prints what the newer formatter prints for DEFAULT with option 249 on. */
  lemma DefaultAgrees(aggregateHex: string)
    ensures FormatDefault(aggregateHex) == OutputFormatter.PlainLines(aggregateHex, true, Formats.Default, None, None)
  {
  }

  /** formatRouterOs prints what the newer formatter prints for ROUTEROS with option 249 on. */
  lemma RouterOsAgrees(aggregateHex: string)
    ensures FormatRouterOs(aggregateHex) == OutputFormatter.PlainLines(aggregateHex, true, Formats.RouterOs, None, None)
  {
  }

  /** formatJunos prints what the newer formatter prints for JUNOS, for the same pool name. */
  lemma JunosAgrees(aggregateHex: string, poolName: Option<string>)
    ensures FormatJunos(aggregateHex, poolName) == OutputFormatter.PlainLines(aggregateHex, true, Formats.Junos, poolName, None)
  {
  }

  /** formatCisco prints what the newer formatter prints for CISCO with the pool "mypool". */
  lemma CiscoAgrees(aggregateHex: string)
    ensures FormatCisco(aggregateHex) == OutputFormatter.PlainLines(aggregateHex, true, Formats.Cisco, None, Some(CISCO_POOL))
  {
  }

  /** formatWindows prints what the newer formatter prints for WINDOWS with option 249 on. */
  lemma WindowsAgrees(aggregateHex: string)
    ensures FormatWindows(aggregateHex) == OutputFormatter.PlainLines(aggregateHex, true, Formats.Windows, None, None)
  {
  }

  // ---------------------------------------------------------------------------------
  // Properties: formatIsc

  /** Away from a prefix length of 0, formatIsc's count is the count the wire carries. */
  lemma IscCountIsSignificant(mask: int)
    requires 0 <= mask <= 32
    ensures IscCount(mask) == SignificantOctets(mask)
    ensures mask > 0 ==> IscCountAsWritten(mask) == SignificantOctets(mask)
  {
  }

  /** Every piece of an ISC entry of a kept pair is decimal digits. */
  lemma EntryPiecesLackComma(k: Kept, count: nat)
    requires KeptValid(k) && count <= 4
    ensures var parts := [IntText(k.mask)] + Split(k.destination, ".")[..count] + Split(k.router, ".");
            forall i | 0 <= i < |parts| :: Lacks(parts[i], ',')
  {
    var dp, gp := Split(k.destination, "."), Split(k.router, ".");
    var parts := [IntText(k.mask)] + dp[..count] + gp;
    forall i | 0 <= i < |parts|
      ensures Lacks(parts[i], ',')
    {
      if i == 0 {
        DigitsLack(IntText(k.mask), ',');
      } else if i <= count {
        assert parts[i] == dp[i - 1];
        OctetPatternValue(dp[i - 1]);
        DigitsLack(dp[i - 1], ',');
      } else {
        assert parts[i] == gp[i - 1 - count];
        OctetPatternValue(gp[i - 1 - count]);
        DigitsLack(gp[i - 1 - count], ',');
      }
    }
  }

  /**
   * The ISC entry of a kept pair lists the bytes of its wire record: split on ",", it
   * has as many values as the record, and Integer.parseInt reads each as the record's
   * byte at that place.
   */
  lemma IscEntryCarriesRecord(k: Kept)
    requires KeptValid(k)
    ensures IscCount(k.mask) <= |JavaSplit(k.destination, ".")|
    ensures var fields := Split(IscEntry(k.mask, k.destination, k.router), ",");
            var record := Record(KeptRoute(k));
            |fields| == |record| && forall i | 0 <= i < |fields| :: ParseInt(fields[i]) == Some(record[i])
  {
    IpSplit(k.destination);
    IpSplit(k.router);
    var sig := SignificantOctets(k.mask);
    var dp, gp := Split(k.destination, "."), Split(k.router, ".");
    var r := KeptRoute(k);
    assert IscEntry(k.mask, k.destination, k.router) == Join([IntText(k.mask)] + dp[..sig] + gp, ",");
    forall i | 0 <= i < 4
      ensures AllDigits(dp[i]) && AllDigits(gp[i]) && ParseInt(gp[i]) == Some(r.gateway[i])
      ensures i < sig ==> ParseInt(dp[i]) == Some(r.network[i])
    {
      OctetPatternValue(dp[i]);
      OctetPatternValue(gp[i]);
    }
    EntryFieldsParse(dp, gp, r);
  }

  /**
   * The fields of an entry built from digit pieces that Integer.parseInt reads as the
   * octets of a route are the route's record.
   */
  lemma EntryFieldsParse(dp: seq<string>, gp: seq<string>, r: Route)
    requires Shaped(r) && 0 <= r.mask <= 32 && |dp| == 4 && |gp| == 4
    requires forall i | 0 <= i < 4 :: AllDigits(dp[i]) && AllDigits(gp[i]) && ParseInt(gp[i]) == Some(r.gateway[i])
    requires forall i | 0 <= i < SignificantOctets(r.mask) :: ParseInt(dp[i]) == Some(r.network[i])
    ensures var fields := Split(Join([IntText(r.mask)] + dp[..SignificantOctets(r.mask)] + gp, ","), ",");
            |fields| == |Record(r)| && forall i | 0 <= i < |fields| :: ParseInt(fields[i]) == Some(Record(r)[i])
  {
    var sig := SignificantOctets(r.mask);
    var parts := [IntText(r.mask)] + dp[..sig] + gp;
    forall i | 0 <= i < |parts|
      ensures Lacks(parts[i], ',')
    {
      if i == 0 {
        DigitsLack(IntText(r.mask), ',');
      } else if i <= sig {
        assert parts[i] == dp[i - 1];
        DigitsLack(dp[i - 1], ',');
      } else {
        assert parts[i] == gp[i - 1 - sig];
        DigitsLack(gp[i - 1 - sig], ',');
      }
    }
    SplitOfJoin(parts, ",");
    ParseIntOfDecimal(r.mask);
    PiecesParse(IntText(r.mask), dp[..sig], gp, r.mask, r.network[..sig], r.gateway);
  }

  /** Pieces that Integer.parseInt reads as given values still do after concatenation. */
  lemma PiecesParse(first: string, middle: seq<string>, last: seq<string>, v: int, vm: seq<int>, vl: seq<int>)
    requires ParseInt(first) == Some(v)
    requires |middle| == |vm| && forall i | 0 <= i < |middle| :: ParseInt(middle[i]) == Some(vm[i])
    requires |last| == |vl| && forall i | 0 <= i < |last| :: ParseInt(last[i]) == Some(vl[i])
    ensures var parts, values := [first] + middle + last, [v] + vm + vl;
            |parts| == |values| && forall i | 0 <= i < |parts| :: ParseInt(parts[i]) == Some(values[i])
  {
    var parts, values := [first] + middle + last, [v] + vm + vl;
    forall i | 0 <= i < |parts|
      ensures ParseInt(parts[i]) == Some(values[i])
    {
      if i == 0 {
      } else if i <= |middle| {
        assert parts[i] == middle[i - 1] && values[i] == vm[i - 1];
      } else {
        assert parts[i] == last[i - 1 - |middle|] && values[i] == vl[i - 1 - |middle|];
      }
    }
  }

  /** For every prefix length from 1 to 32 the entry formatIsc writes is the corrected entry. */
  lemma IscEntryAsWrittenAgrees(mask: int, destination: string, router: string)
    requires 1 <= mask <= 32 && IscCountAsWritten(mask) <= |JavaSplit(destination, ".")|
    ensures IscCount(mask) == IscCountAsWritten(mask) == SignificantOctets(mask)
    ensures IscEntryAsWritten(mask, destination, router) == IscEntry(mask, destination, router)
  {
    IscCountIsSignificant(mask);
  }

  /**
   * Away from a default route, every entry formatIsc writes for the kept pairs lists
   * the bytes of that pair's wire record, in decimal and in order.
   */
  lemma IscEntriesCarryRecords(ks: seq<Kept>)
    requires forall i | 0 <= i < |ks| :: KeptValid(ks[i]) && ks[i].mask != 0
    ensures IscFits(Masks(ks), Destinations(ks), Routers(ks))
    ensures var es := IscEntries(Masks(ks), Destinations(ks), Routers(ks));
            forall i | 0 <= i < |ks| ::
              var fields, record := Split(es[i], ","), Record(KeptRoute(ks[i]));
              |fields| == |record| && forall j | 0 <= j < |fields| :: ParseInt(fields[j]) == Some(record[j])
  {
    KeptFit(ks);
    var es := IscEntries(Masks(ks), Destinations(ks), Routers(ks));
    forall i | 0 <= i < |ks|
      ensures var fields, record := Split(es[i], ","), Record(KeptRoute(ks[i]));
              |fields| == |record| && forall j | 0 <= j < |fields| :: ParseInt(fields[j]) == Some(record[j])
    {
      var k := ks[i];
      assert es[i] == IscEntryAsWritten(k.mask, k.destination, k.router);
      IscEntryAsWrittenAgrees(k.mask, k.destination, k.router);
      IscEntryCarriesRecord(k);
    }
  }

  /**
   * formatIsc as written, for a default route: its count gives one destination octet
   * for the prefix length 0, so the entry is "0", the first destination octet and the
   * gateway octets, one value more than the record the payload carries for the same
   * route. A client reading the array as RFC 3442 takes that octet for the first
   * gateway octet.
   */
  lemma IscDefaultRouteAsWritten(k: Kept)
    requires KeptValid(k) && k.mask == 0
    ensures IscCountAsWritten(k.mask) == 1 && SignificantOctets(k.mask) == 0
    ensures IscCountAsWritten(k.mask) <= |JavaSplit(k.destination, ".")|
    ensures var dp, gp := Split(k.destination, "."), Split(k.router, ".");
            IscEntryAsWritten(k.mask, k.destination, k.router) == Join(["0", dp[0]] + gp, ",")
    ensures Record(KeptRoute(k)) == [0] + KeptRoute(k).gateway
    ensures |Split(IscEntryAsWritten(k.mask, k.destination, k.router), ",")| == |Record(KeptRoute(k))| + 1
  {
    DefaultEntry(k);
    DefaultEntryFields(k);
    var r := KeptRoute(k);
    assert r.network[..0] == [];
  }

  /** The entry as written for a default route, piece by piece. */
  lemma DefaultEntry(k: Kept)
    requires KeptValid(k) && k.mask == 0
    ensures IscCountAsWritten(k.mask) <= |JavaSplit(k.destination, ".")|
    ensures var dp, gp := Split(k.destination, "."), Split(k.router, ".");
            IscEntryAsWritten(k.mask, k.destination, k.router) == Join(["0", dp[0]] + gp, ",")
  {
    IpSplit(k.destination);
    IpSplit(k.router);
    DefaultParts(Split(k.destination, "."), Split(k.router, "."));
  }

  /** Split on ",", the entry as written for a default route has six values. */
  lemma DefaultEntryFields(k: Kept)
    requires KeptValid(k) && k.mask == 0
    ensures var dp, gp := Split(k.destination, "."), Split(k.router, ".");
            |dp| == 4 && |Split(Join(["0", dp[0]] + gp, ","), ",")| == 6
  {
    var dp, gp := Split(k.destination, "."), Split(k.router, ".");
    DefaultParts(dp, gp);
    EntryPiecesLackComma(k, 1);
    SplitOfJoin([IntText(k.mask)] + dp[..1] + gp, ",");
  }

  lemma DefaultParts(dp: seq<string>, gp: seq<string>)
    requires |dp| > 0
    ensures [IntText(0)] + dp[..1] + gp == ["0", dp[0]] + gp
  {
    assert IntText(0) == "0";
  }

  /** The input of the finding: the default route via 10.0.0.1 as formatIsc writes it. */
  lemma IscDefaultRouteExample()
    ensures KeptValid(Kept(0, "0.0.0.0", "10.0.0.1"))
    ensures IscCountAsWritten(0) <= |JavaSplit("0.0.0.0", ".")|
    ensures IscEntryAsWritten(0, "0.0.0.0", "10.0.0.1") == "0,0,10,0,0,1"
    ensures IscEntry(0, "0.0.0.0", "10.0.0.1") == "0,10,0,0,1"
  {
    var network, gateway := ExampleKept();
    var k := Kept(0, "0.0.0.0", "10.0.0.1");
    IscDefaultRouteAsWritten(k);
    ExampleEntries(network, gateway);
    assert IscEntry(k.mask, k.destination, k.router) == Join([IntText(0)] + network[..0] + gateway, ",");
  }

  /** The pair of the finding is kept, and its addresses split into their octets. */
  lemma ExampleKept() returns (network: seq<string>, gateway: seq<string>)
    ensures network == ["0", "0", "0", "0"] && gateway == ["10", "0", "0", "1"]
    ensures KeptValid(Kept(0, "0.0.0.0", "10.0.0.1"))
    ensures Split("0.0.0.0", ".") == JavaSplit("0.0.0.0", ".") == network
    ensures Split("10.0.0.1", ".") == JavaSplit("10.0.0.1", ".") == gateway
  {
    network := ExampleNetwork();
    gateway := ExampleGateway();
  }

  lemma ExampleNetwork() returns (network: seq<string>)
    ensures network == ["0", "0", "0", "0"]
    ensures IpPattern("0.0.0.0") && Split("0.0.0.0", ".") == JavaSplit("0.0.0.0", ".") == network
  {
    network := ["0", "0", "0", "0"];
    assert Join(network, ".") == "0.0.0.0";
    QuadOfPieces("0.0.0.0", network);
  }

  lemma ExampleGateway() returns (gateway: seq<string>)
    ensures gateway == ["10", "0", "0", "1"]
    ensures IpPattern("10.0.0.1") && Split("10.0.0.1", ".") == JavaSplit("10.0.0.1", ".") == gateway
  {
    gateway := ["10", "0", "0", "1"];
    assert Join(gateway, ".") == "10.0.0.1";
    QuadOfPieces("10.0.0.1", gateway);
  }

  /** Four octet texts joined by dots match IP_PATTERN and split back into themselves. */
  lemma QuadOfPieces(s: string, pieces: seq<string>)
    requires |pieces| == 4 && Join(pieces, ".") == s
    requires forall i | 0 <= i < 4 :: ShortOctet(pieces[i])
    ensures IpPattern(s) && Split(s, ".") == JavaSplit(s, ".") == pieces
  {
    forall i | 0 <= i < 4
      ensures Lacks(pieces[i], '.')
    {
      DigitsLack(pieces[i], '.');
    }
    SplitOfJoin(pieces, ".");
    IpSplit(s);
  }

  /** The two entries of the default route via 10.0.0.1, joined. */
  lemma ExampleEntries(network: seq<string>, gateway: seq<string>)
    requires network == ["0", "0", "0", "0"] && gateway == ["10", "0", "0", "1"]
    ensures Join(["0", network[0]] + gateway, ",") == "0,0,10,0,0,1"
    ensures Join([IntText(0)] + network[..0] + gateway, ",") == "0,10,0,0,1"
  {
    assert IntText(0) == "0";
    var tail := ["10", "0", "0", "1"];
    assert Join(tail[3..], ",") == "1";
    assert Join(tail[2..], ",") == "0,1";
    assert Join(tail[1..], ",") == "0,0,1";
    assert Join(tail, ",") == "10,0,0,1";
    assert Join(["0"] + tail, ",") == "0,10,0,0,1" by { assert (["0"] + tail)[1..] == tail; }
    assert Join(["0", "0"] + tail, ",") == "0,0,10,0,0,1" by { assert (["0", "0"] + tail)[1..] == ["0"] + tail; }
    assert ["0", network[0]] + gateway == ["0", "0"] + tail;
    assert [IntText(0)] + network[..0] + gateway == ["0"] + tail;
  }

  // ---------------------------------------------------------------------------------
  // Properties: generateDhcpOptions

  lemma KeptRoutesSnoc(ks: seq<Kept>, k: Kept)
    requires (forall i | 0 <= i < |ks| :: KeptValid(ks[i])) && KeptValid(k)
    ensures var next := ks + [k];
            (forall i | 0 <= i < |next| :: KeptValid(next[i]))
            && KeptRoutes(next) == KeptRoutes(ks) + [KeptRoute(k)]
  {
  }

  lemma NoRecords(rs: seq<Route>)
    requires AllEncodable(rs) && |RecordsHex(rs)| == 0
    ensures rs == []
  {
  }

  /** The payload is the records of the kept routes, back to back. */
  lemma {:induction false} AggregateIsRecords(networks: seq<string>, gateways: seq<string>, n: nat)
    requires n <= |networks| && n <= |gateways|
    ensures AllEncodable(KeptRoutes(KeptOf(networks, gateways, n)))
    ensures AggregateOf(networks, gateways, n) == RecordsHex(KeptRoutes(KeptOf(networks, gateways, n)))
  {
    if n > 0 {
      var m: nat := n - 1;
      AggregateIsRecords(networks, gateways, m);
      PairStep(networks, gateways, m);
      RecordsStep(KeptOf(networks, gateways, m), KeptOf(networks, gateways, n),
                  AggregateOf(networks, gateways, m), AggregateOf(networks, gateways, n),
                  networks[m], gateways[m]);
    }
  }

  /** Appending a pair's entries, when the loop keeps it, and its routeHex keeps the payload the records of the entries. */
  lemma RecordsStep(ks: seq<Kept>, next: seq<Kept>, aggregate: string, nextAggregate: string, net: string, gw: string)
    requires forall i | 0 <= i < |ks| :: KeptValid(ks[i])
    requires AllEncodable(KeptRoutes(ks)) && aggregate == RecordsHex(KeptRoutes(ks))
    requires next == ks + (if Admitted(net, gw).Some? then [Admitted(net, gw).value] else [])
    requires nextAggregate == aggregate + PairHex(net, gw)
    ensures forall i | 0 <= i < |next| :: KeptValid(next[i])
    ensures AllEncodable(KeptRoutes(next)) && nextAggregate == RecordsHex(KeptRoutes(next))
  {
    var kept := Admitted(net, gw);
    if kept.Some? {
      KeptRoutesSnoc(ks, kept.value);
      OptionConverter.RecordsHexSnoc(KeptRoutes(ks), KeptRoute(kept.value));
    } else {
      assert ks + [] == ks;
    }
  }

  /**
   * The older converter's round trip: parsing the payload generateDhcpOptions builds
   * gives the kept routes, in order, with the octets past each prefix as 0.
   */
  lemma GeneratedRoundTrip(networks: seq<string>, gateways: seq<string>)
    ensures var n := PairCount(networks, gateways);
            LegacyDecode(Some(AggregateOf(networks, gateways, n))) == KeptRoutes(KeptOf(networks, gateways, n))
  {
    var n := PairCount(networks, gateways);
    var rs := KeptRoutes(KeptOf(networks, gateways, n));
    AggregateIsRecords(networks, gateways, n);
    LegacyRoundTrip(rs);
    OptionConverter.NormalizeAllDecoded(rs);
  }

  /** Agreeing on the first n pairs, two inputs keep the same entries and build the same payload. */
  lemma {:induction false} SamePrefixSameKept(networks: seq<string>, gateways: seq<string>,
                                              otherNetworks: seq<string>, otherGateways: seq<string>, n: nat)
    requires n <= |networks| && n <= |gateways| && n <= |otherNetworks| && n <= |otherGateways|
    requires forall i | 0 <= i < n :: networks[i] == otherNetworks[i] && gateways[i] == otherGateways[i]
    ensures KeptOf(networks, gateways, n) == KeptOf(otherNetworks, otherGateways, n)
    ensures AggregateOf(networks, gateways, n) == AggregateOf(otherNetworks, otherGateways, n)
  {
    if n > 0 {
      var m: nat := n - 1;
      SamePrefixSameKept(networks, gateways, otherNetworks, otherGateways, m);
    }
  }

  /** Networks or gateways past the end of the other list are never read. */
  lemma UnpairedIgnored(networks: seq<string>, gateways: seq<string>, extra: seq<string>,
                        format: Formats.Format, junosPoolName: Option<string>)
    requires |networks| == |gateways|
    ensures Generated(networks + extra, gateways, format, junosPoolName) == Generated(networks, gateways, format, junosPoolName)
    ensures Generated(networks, gateways + extra, format, junosPoolName) == Generated(networks, gateways, format, junosPoolName)
  {
    var n := |networks|;
    SamePrefixSameKept(networks + extra, gateways, networks, gateways, n);
    SamePrefixSameKept(networks, gateways + extra, networks, gateways, n);
  }

  /** A field of one to three digits reads under Integer.parseInt as the value its digits write. */
  lemma ShortFieldValue(f: string)
    requires OptionConverter.IsOctetField(f)
    ensures DigitsValue(f) <= 999 && ParseInt(f) == Some(DigitsValue(f) as int)
  {
    if |f| == 1 {
      OneDigit(f);
    } else if |f| == 2 {
      TwoDigits(f);
    } else {
      ThreeDigits(f);
    }
    ParseDigits(f);
  }

  /**
   * Of the fields the newer dotted-quad pattern admits, Integer.parseInt finds values
   * 0 to 255 in exactly those that match an octet of IP_PATTERN, and both read them the same.
   */
  lemma OctetsAgree(fields: seq<string>)
    requires forall i | 0 <= i < |fields| :: OptionConverter.IsOctetField(fields[i])
    ensures OptionConverter.ByteFields(fields) <==> forall i | 0 <= i < |fields| :: OctetPattern(fields[i])
    ensures OptionConverter.ByteFields(fields) ==> OctetValues(fields) == OptionConverter.FieldValues(fields)
  {
    forall i | 0 <= i < |fields|
      ensures ParseInt(fields[i]) == Some(DigitsValue(fields[i]) as int)
      ensures OctetPattern(fields[i]) <==> DigitsValue(fields[i]) <= 255
    {
      ShortFieldValue(fields[i]);
      OctetPatternValue(fields[i]);
    }
  }

  lemma FieldValuesTake(fields: seq<string>, n: nat)
    requires n <= |fields| && OptionConverter.ByteFields(fields)
    ensures OptionConverter.ByteFields(fields[..n])
    ensures OptionConverter.FieldValues(fields[..n]) == OptionConverter.FieldValues(fields)[..n]
  {
    assert forall i | 0 <= i < n :: fields[..n][i] == fields[i];
  }

  /** A network the newer CIDR pattern matches splits on "/" the same way for the older converter. */
  lemma CidrSplit(net: string)
    requires OptionConverter.CidrGroups(net).Some?
    ensures JavaSplit(net, "/") == [OptionConverter.CidrGroups(net).value.0, OptionConverter.CidrGroups(net).value.1]
  {
    JavaSplitKeepsPieces(net, "/");
  }

  /**
   * Where the newer converter accepts a pair whose network octets are all at most 255,
   * the older converter keeps it too and writes the same route. (The older one rejects
   * a network octet above 255 even past the prefix, which the newer one never reads.)
   */
  lemma NewerAgrees(net: string, gw: string)
    requires OptionConverter.CidrGroups(net).Some? && OptionConverter.EncodedRoute(net, gw).Some?
    requires var quad := OptionConverter.QuadGroups(OptionConverter.CidrGroups(net).value.0).value;
             forall i | 0 <= i < 4 :: DigitsValue(quad[i]) <= 255
    ensures Admitted(net, gw).Some? && KeptRoute(Admitted(net, gw).value) == OptionConverter.EncodedRoute(net, gw).value
  {
    var groups := OptionConverter.CidrGroups(net).value;
    var quad := OptionConverter.QuadGroups(groups.0).value;
    var gatewayFields := OptionConverter.QuadGroups(gw).value;
    var mask := ParseInt(groups.1).value;
    var sig := SignificantOctets(mask);
    CidrSplit(net);
    forall i | 0 <= i < 4
      ensures OctetPattern(quad[i])
    {
      OctetPatternValue(quad[i]);
    }
    OctetsAgree(quad);
    FieldValuesTake(quad, sig);
    OctetsAgree(gatewayFields);
    assert Admitted(net, gw) == Some(Kept(mask, groups.0, gw));
  }

  // ---------------------------------------------------------------------------------
  // Properties: parseDhcpOptions

  lemma LowerKeepsHex(s: string)
    requires AllLowerHexDigits(s)
    ensures ToLowerCase(s) == s && ToLowerCase("0x" + s) == "0x" + s
  {
    var t := "0x" + s;
    assert forall i | 0 <= i < |t| :: LowerAscii(t[i]) == t[i] by {
      forall i | 0 <= i < |t| ensures LowerAscii(t[i]) == t[i] {
        if i >= 2 {
          assert t[i] == s[i - 2];
        }
      }
    }
  }

  /** A text of lower-case hex digits comes out of the cleaning as it went in, and so does its "0x" form. */
  lemma CleanedOfLowerHex(hex: string)
    requires AllLowerHexDigits(hex)
    ensures CleanedHex(hex) == hex && CleanedHex("0x" + hex) == hex
  {
    LowerKeepsHex(hex);
    assert ("0x" + hex)[2..] == hex;
    if |hex| >= 2 {
      assert hex[1] != 'x';
    }
  }

  lemma LegacyOfCleaned(text: string, hex: string)
    requires CleanedHex(text) == hex && AllLowerHexDigits(hex)
    ensures LegacyDecode(Some(text)) == if |hex| == 0 then [] else DecodeLenient(hex)
  {
  }

  /**
   * The older parser reads back any payload of records, given as is or after "0x":
   * the routes come back in order with the octets past each prefix as 0.
   */
  lemma LegacyRoundTrip(rs: seq<Route>)
    requires AllEncodable(rs)
    ensures LegacyDecode(Some(RecordsHex(rs))) == NormalizeAll(rs)
    ensures LegacyDecode(Some("0x" + RecordsHex(rs))) == NormalizeAll(rs)
  {
    var hex := RecordsHex(rs);
    RecordsHexIsLower(rs);
    CleanedOfLowerHex(hex);
    LegacyOfCleaned(hex, hex);
    LegacyOfCleaned("0x" + hex, hex);
    DecodeOfRecordsHex(rs);
    if |hex| == 0 {
      NoRecords(rs);
    }
  }

  /** Letter case does not matter to the older parser. */
  lemma CaseBlind(text: string)
    ensures LegacyDecode(Some(ToLowerCase(text))) == LegacyDecode(Some(text))
  {
    LowerTwice(text);
    assert CleanedHex(ToLowerCase(text)) == CleanedHex(text);
  }

  lemma LowerTwice(text: string)
    ensures ToLowerCase(ToLowerCase(text)) == ToLowerCase(text)
  {
  }
}
