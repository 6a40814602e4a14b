/**
 * OutputFormatter: renders an aggregate option payload as configuration lines for each
 * DHCP server format, reading the payload back for isc-dhcp-server, and joins the
 * lines into one text.
 */
module OutputFormatter {
  import opened Wrappers
  import opened JavaText
  import opened Hex
  import opened Rfc3442
  import Formats

  // ---------------------------------------------------------------------------------
  // Reading the payload back

  /** The routes rs put in front of what a decoder returned. */
  function Prepended(rs: seq<Route>, r: Result<seq<Route>>): Result<seq<Route>>
  {
    match r
    case Ok(more) => Ok(rs + more)
    case Thrown(e) => Thrown(e)
  }

  lemma PrependedStep(rs: seq<Route>, route: Route, r: Result<seq<Route>>)
    ensures Prepended(rs, if r.Ok? then Ok([route] + r.value) else r) == Prepended(rs + [route], r)
  {
    if r.Ok? {
      assert rs + ([route] + r.value) == rs + [route] + r.value;
    }
  }

  lemma PrependedNothing(rs: seq<Route>, r: Result<seq<Route>>)
    ensures r == Ok([]) ==> Prepended(rs, r) == Ok(rs)
    ensures Prepended([], r) == r
  {
    if r.Ok? {
      assert [] + r.value == r.value;
      assert rs + [] == rs;
    }
  }

  /**
   * parseHexToRoutes: reads records while text remains and prints each route. A short
   * field or a bad length field ends the loop with the routes so far; a destination or
   * gateway field that is not hex escapes as a NumberFormatException.
   */
  method ParseHexToRoutes(aggregateHex: string) returns (routes: Result<seq<string>>)
    ensures routes.Ok? <==> DecodeForIsc(aggregateHex).Ok?
    ensures routes.Ok? ==> routes.value == RouteLines(DecodeLenient(aggregateHex))
  {
    var lines: seq<string> := [];
    ghost var decoded: seq<Route> := [];
    var index := 0;
    assert aggregateHex[index..] == aggregateHex;
    PrependedNothing([], DecodeForIsc(aggregateHex));
    while index < |aggregateHex|
      invariant 0 <= index <= |aggregateHex|
      invariant AllShaped(decoded) && lines == RouteLines(decoded)
      invariant DecodeForIsc(aggregateHex) == Prepended(decoded, DecodeForIsc(aggregateHex[index..]))
      decreases |aggregateHex| - index
    {
      var start := index;
      if index + 2 > |aggregateHex| {
        DecodeStops(aggregateHex[start..]);
        break;
      }
      MaskAt(aggregateHex, start);
      var subnetMask := ParseHexPair(aggregateHex[index..index + 2]);
      if subnetMask.None? {
        DecodeStops(aggregateHex[start..]);
        break;
      }
      var mask := subnetMask.value;
      if mask < 0 || mask > 32 {
        DecodeStops(aggregateHex[start..]);
        break;
      }
      index := index + 2;
      var significantOctets := if mask == 0 then 0 else (mask + 7) / 8;
      var read, destination, gateway := ReadRouteFields(aggregateHex, start, mask, significantOctets);
      if read.RanShort? {
        DecodeStops(aggregateHex[start..]);
        PrependedNothing(decoded, Ok([]));
        return Ok(lines);
      }
      if read.NotHex? {
        DecodeStops(aggregateHex[start..]);
        return Thrown(NumberFormatException);
      }
      index := read.next;
      ghost var route := Route(destination[..], mask, gateway[..]);
      DecodeAfterRecord(aggregateHex[start..], route, aggregateHex[index..]);
      PrependedStep(decoded, route, DecodeForIsc(aggregateHex[index..]));
      RouteLinesSnoc(decoded, route);
      var network := QuadText(destination[..]) + "/" + IntText(mask);
      var gw := QuadText(gateway[..]);
      lines := lines + [network + " via " + gw];
      decoded := decoded + [route];
    }
    PrependedNothing(decoded, DecodeForIsc(aggregateHex[index..]));
    return Ok(lines);
  }

  // ---------------------------------------------------------------------------------
  // What each format prints

  /** %s of a pool name that may be null. */
  function PoolText(pool: Option<string>): string
  {
    match pool
    case Some(name) => name
    case None => "null"
  }

  const ISC_DECLARE_121 := "option rfc3442-classless-static-routes code 121 = array of unsigned integer 8;"
  const ISC_DECLARE_249 := "option ms-classless-static-routes code 249 = array of unsigned integer 8;"
  const ISC_OPTION_121 := "option rfc3442-classless-static-routes "
  const ISC_OPTION_249 := "option ms-classless-static-routes "

  /**
   * What precedes the payload on the option 121 line, or on the option 249 line, of
   * every format but ISC.
   */
  function OptionPrefix(format: Formats.Format, option249: bool, junosPoolName: Option<string>): string
    requires !format.Isc?
  {
    match format
    case Default => if option249 then "aggregate_opt_249 : 0x" else "aggregate_opt_121 : 0x"
    case RouterOs =>
      if option249 then "/ip dhcp-server option add code=249 name=aggregate_opt_249 value=0x"
      else "/ip dhcp-server option add code=121 name=aggregate_opt_121 value=0x"
    case Junos =>
      if option249 then
        "set access address-assignment pool " + PoolText(junosPoolName) + " family inet dhcp-attributes option 249 hex-string "
      else
        "set access address-assignment pool " + PoolText(junosPoolName) + " family inet dhcp-attributes option 121 hex-string "
    case Cisco => if option249 then " option 249 hex " else " option 121 hex "
    case Windows =>
      if option249 then "Set-DhcpServerv4OptionValue -OptionId 249 -Value 0x"
      else "Set-DhcpServerv4OptionValue -OptionId 121 -Value 0x"
  }

  /** The option 121 line, then the option 249 line when it is asked for. */
  function OptionLines(format: Formats.Format, aggregateHex: string, withOption249: bool,
                       junosPoolName: Option<string>): seq<string>
    requires !format.Isc?
  {
    var line121 := OptionPrefix(format, false, junosPoolName) + aggregateHex;
    if withOption249 then [line121, OptionPrefix(format, true, junosPoolName) + aggregateHex] else [line121]
  }

  /** One route in ISC's array notation: the record's values in decimal, comma separated. */
  function IscRouteText(r: Route): string
    requires Shaped(r)
  {
    Join(Texts(Record(r)), ",")
  }

  function IscRouteTexts(rs: seq<Route>): (ts: seq<string>)
    requires AllShaped(rs)
    ensures |ts| == |rs|
  {
    seq(|rs|, i requires 0 <= i < |rs| => IscRouteText(rs[i]))
  }

  /** The value of the ISC option lines: every decoded route, comma separated. */
  function IscFieldList(rs: seq<Route>): string
    requires AllShaped(rs)
  {
    Join(IscRouteTexts(rs), ",")
  }

  /**
   * The ISC lines: the option declarations, then the options with the routes read back
   * from the payload; a NumberFormatException from reading them escapes.
   */
  function IscLines(aggregateHex: string, withOption249: bool): Result<seq<string>>
  {
    match DecodeForIsc(aggregateHex)
    case Thrown(e) => Thrown(e)
    case Ok(rs) => Ok(IscDeclarations(withOption249) + IscValueLines(IscFieldList(rs), withOption249))
  }

  /** The declaration of option 121, then that of option 249 when it is asked for. */
  function IscDeclarations(withOption249: bool): seq<string>
  {
    if withOption249 then [ISC_DECLARE_121, ISC_DECLARE_249] else [ISC_DECLARE_121]
  }

  /** Option 121 set to the routes, then option 249 set to them when it is asked for. */
  function IscValueLines(fields: string, withOption249: bool): seq<string>
  {
    if withOption249 then [ISC_OPTION_121 + fields, ISC_OPTION_249 + fields] else [ISC_OPTION_121 + fields]
  }

  /** What formatDhcpOptions returns: nothing for an empty payload, else the format's lines. */
  function Rendered(aggregateHex: string, withOption249: bool, format: Formats.Format,
                    junosPoolName: Option<string>, ciscoPoolName: Option<string>): Result<seq<string>>
  {
    if |aggregateHex| == 0 then Ok([])
    else if format.Isc? then IscLines(aggregateHex, withOption249)
    else Ok(PlainLines(aggregateHex, withOption249, format, junosPoolName, ciscoPoolName))
  }

  /** Every format but ISC prints its lines without reading the payload. */
  function PlainLines(aggregateHex: string, withOption249: bool, format: Formats.Format,
                      junosPoolName: Option<string>, ciscoPoolName: Option<string>): seq<string>
    requires !format.Isc?
  {
    PoolHeader(format, ciscoPoolName) + OptionLines(format, aggregateHex, withOption249, junosPoolName)
  }

  /** Only Cisco opens a pool before the option lines. */
  function PoolHeader(format: Formats.Format, ciscoPoolName: Option<string>): seq<string>
  {
    if format.Cisco? then [CiscoPoolLine(ciscoPoolName)] else []
  }

  /** The line that opens the Cisco pool the options go into. */
  function CiscoPoolLine(ciscoPoolName: Option<string>): string
  {
    "ip dhcp pool " + PoolText(ciscoPoolName)
  }

  /**
   * formatDhcpOptions: the lines that configure the payload for one DHCP server. Only
   * the JunOS lines name junosPoolName and only the Cisco lines name ciscoPoolName.
   */
  method FormatDhcpOptions(aggregateHex: string, withOption249: bool, format: Formats.Format,
                           junosPoolName: Option<string>, ciscoPoolName: Option<string>)
      returns (results: Result<seq<string>>)
    ensures results == Rendered(aggregateHex, withOption249, format, junosPoolName, ciscoPoolName)
  {
    var lines: seq<string> := [];
    if |aggregateHex| == 0 {
      return Ok(lines);
    }
    if format.Isc? {
      results := IscOptions(aggregateHex, withOption249);
      return;
    }
    lines := PlainOptions(aggregateHex, withOption249, format, junosPoolName, ciscoPoolName);
    return Ok(lines);
  }

  /**
   * The other five cases of formatDhcpOptions: the Cisco pool line first for Cisco,
   * then the format's option 121 line and, when asked for, its option 249 line.
   */
  method PlainOptions(aggregateHex: string, withOption249: bool, format: Formats.Format,
                      junosPoolName: Option<string>, ciscoPoolName: Option<string>)
      returns (lines: seq<string>)
    requires !format.Isc?
    ensures lines == PlainLines(aggregateHex, withOption249, format, junosPoolName, ciscoPoolName)
  {
    var header: seq<string> := [];
    if format.Cisco? {
      header := [CiscoPoolLine(ciscoPoolName)];
    }
    var options := [OptionPrefix(format, false, junosPoolName) + aggregateHex];
    if withOption249 {
      options := options + [OptionPrefix(format, true, junosPoolName) + aggregateHex];
    }
    lines := header + options;
  }

  // ---------------------------------------------------------------------------------
  // The ISC lines, as formatDhcpOptions builds them

  lemma TextsSnoc(xs: seq<int>, x: int)
    requires |xs| > 0
    ensures Join(Texts(xs + [x]), ",") == Join(Texts(xs), ",") + "," + IntText(x)
  {
    assert Texts(xs + [x]) == Texts(xs) + [IntText(x)];
    JoinSnoc(Texts(xs), IntText(x), ",");
  }

  /**
   * One route line of parseHexToRoutes turned back into ISC's notation: it is split on
   * " via ", "/" and ".", the length parsed with Integer.parseInt, and the significant
   * destination octets and the gateway octets appended after it.
   */
  method IscRoute(line: string, ghost route: Route) returns (iscRoute: string)
    requires IsDecoded(route) && line == RouteLine(route)
    ensures iscRoute == IscRouteText(route)
  {
    RouteLineFields(route);
    ParseIntOfDecimal(route.mask);
    var parts := JavaSplit(line, " via ");
    assert parts == [NetworkText(route), QuadText(route.gateway)];
    var netParts := JavaSplit(parts[0], "/");
    assert netParts == [QuadText(route.network), IntText(route.mask)];
    var mask := ParseInt(netParts[1]).value;
    assert mask == route.mask;
    var destOctets := JavaSplit(netParts[0], ".");
    assert destOctets == Texts(route.network);
    var gwOctets := JavaSplit(parts[1], ".");
    assert gwOctets == Texts(route.gateway);
    iscRoute := IscRouteFields(mask, destOctets, gwOctets, route);
  }

  method IscRouteFields(mask: int, destOctets: seq<string>, gwOctets: seq<string>, ghost route: Route)
      returns (iscRoute: string)
    requires Shaped(route) && mask == route.mask
    requires destOctets == Texts(route.network) && gwOctets == Texts(route.gateway)
    ensures iscRoute == IscRouteText(route)
  {
    iscRoute := IntText(mask);
    var significantOctets := if mask == 0 then 0 else (mask + 7) / 8;
    FieldsStart([mask], route.network);
    for j := 0 to significantOctets
      invariant iscRoute == Join(Texts([mask] + route.network[..j]), ",")
    {
      FieldsStep([mask], route.network, j, iscRoute, destOctets[j]);
      iscRoute := iscRoute + "," + destOctets[j];
    }
    ghost var head := [mask] + route.network[..significantOctets];
    FieldsStart(head, route.gateway);
    for k := 0 to |gwOctets|
      invariant iscRoute == Join(Texts(head + route.gateway[..k]), ",")
    {
      FieldsStep(head, route.gateway, k, iscRoute, gwOctets[k]);
      iscRoute := iscRoute + "," + gwOctets[k];
    }
    assert route.gateway[..4] == route.gateway;
  }

  lemma FieldsStart(prefix: seq<int>, xs: seq<int>)
    ensures prefix + xs[..0] == prefix
    ensures |prefix| == 1 ==> Join(Texts(prefix), ",") == IntText(prefix[0])
  {
  }

  /** One more value appended after a comma. */
  lemma FieldsStep(prefix: seq<int>, xs: seq<int>, j: nat, acc: string, piece: string)
    requires |prefix| > 0 && j < |xs| && acc == Join(Texts(prefix + xs[..j]), ",") && piece == IntText(xs[j])
    ensures acc + "," + piece == Join(Texts(prefix + xs[..j + 1]), ",")
  {
    SliceSnoc(prefix, xs, j);
    TextsSnoc(prefix + xs[..j], xs[j]);
  }

  lemma SliceSnoc(prefix: seq<int>, xs: seq<int>, j: nat)
    requires j < |xs|
    ensures prefix + xs[..j + 1] == prefix + xs[..j] + [xs[j]]
  {
    assert xs[..j + 1] == xs[..j] + [xs[j]];
  }

  /** The routes joined so far, with the "," a following route is still owed. */
  function IscSoFar(rs: seq<Route>, i: nat): string
    requires AllShaped(rs) && i <= |rs|
  {
    IscFieldList(rs[..i]) + (if 0 < i < |rs| then "," else "")
  }

  lemma IscSoFarStart(rs: seq<Route>, option121: string, option249: string)
    requires AllShaped(rs)
    ensures option121 + IscSoFar(rs, 0) == option121 && option249 + IscSoFar(rs, 0) == option249
  {
    assert IscSoFar(rs, 0) == "";
  }

  lemma IscSoFarEnd(rs: seq<Route>)
    requires AllShaped(rs)
    ensures IscSoFar(rs, |rs|) == IscFieldList(rs)
  {
    assert rs[..|rs|] == rs;
  }

  /** Appending the next route, and the "," owed to the one after it. */
  lemma IscSoFarStep(rs: seq<Route>, i: nat)
    requires AllShaped(rs) && i < |rs|
    ensures i < |rs| - 1 ==> IscSoFar(rs, i) + IscRouteText(rs[i]) + "," == IscSoFar(rs, i + 1)
    ensures i == |rs| - 1 ==> IscSoFar(rs, i) + IscRouteText(rs[i]) == IscSoFar(rs, i + 1)
  {
    assert IscRouteTexts(rs[..i + 1]) == IscRouteTexts(rs[..i]) + [IscRouteText(rs[i])];
    if i > 0 {
      JoinSnoc(IscRouteTexts(rs[..i]), IscRouteText(rs[i]), ",");
    }
  }

  /**
   * The ISC case of formatDhcpOptions, which ISC.formatDhcpOptions repeats: the
   * declarations, then the options built route by route from parseHexToRoutes.
   */
  method IscOptions(aggregateHex: string, withOption249: bool) returns (results: Result<seq<string>>)
    ensures results == IscLines(aggregateHex, withOption249)
  {
    var lines := [ISC_DECLARE_121];
    if withOption249 {
      lines := lines + [ISC_DECLARE_249];
    }
    assert lines == IscDeclarations(withOption249);
    var parsed := ParseHexToRoutes(aggregateHex);
    if parsed.Thrown? {
      return Thrown(parsed.exception);
    }
    var values := IscValues(parsed.value, aggregateHex, withOption249);
    return Ok(lines + values);
  }

  /**
   * The route loop of the ISC case: each route line in ISC's notation, appended to the
   * option 121 builder and, when option 249 was asked for, to the option 249 builder
   * (null otherwise), with a "," between routes; then the lines of both builders.
   */
  method IscValues(routes: seq<string>, ghost aggregateHex: string, withOption249: bool)
      returns (values: seq<string>)
    requires routes == RouteLines(DecodeLenient(aggregateHex))
    ensures values == IscValueLines(IscFieldList(DecodeLenient(aggregateHex)), withOption249)
  {
    ghost var decoded := DecodeLenient(aggregateHex);
    var opt121 := ISC_OPTION_121;
    var opt249: Option<string> := if withOption249 then Some(ISC_OPTION_249) else None;
    IscSoFarStart(decoded, ISC_OPTION_121, ISC_OPTION_249);
    for i := 0 to |routes|
      invariant opt121 == ISC_OPTION_121 + IscSoFar(decoded, i)
      invariant withOption249 ==> opt249 == Some(ISC_OPTION_249 + IscSoFar(decoded, i))
      invariant !withOption249 ==> opt249 == None
    {
      var iscRoute := IscRoute(routes[i], decoded[i]);
      IscSoFarStep(decoded, i);
      Reassociate(ISC_OPTION_121, IscSoFar(decoded, i), iscRoute, ",");
      Reassociate(ISC_OPTION_249, IscSoFar(decoded, i), iscRoute, ",");
      opt121 := opt121 + iscRoute;
      if withOption249 {
        opt249 := Some(opt249.value + iscRoute);
      }
      if i < |routes| - 1 {
        opt121 := opt121 + ",";
        if withOption249 {
          opt249 := Some(opt249.value + ",");
        }
      }
    }
    IscSoFarEnd(decoded);
    values := [opt121];
    if withOption249 {
      values := values + [opt249.value];
    }
  }

  // ---------------------------------------------------------------------------------
  // Joining the lines

  /** Every option followed by a newline, in order. */
  function NewlineTerminated(options: seq<string>): string
  {
    if |options| == 0 then "" else options[0] + "\n" + NewlineTerminated(options[1..])
  }

  lemma {:induction false} NewlineTerminatedSnoc(options: seq<string>, option: string)
    ensures NewlineTerminated(options + [option]) == NewlineTerminated(options) + option + "\n"
    decreases |options|
  {
    if |options| == 0 {
      assert options + [option] == [option];
    } else {
      assert (options + [option])[1..] == options[1..] + [option];
      NewlineTerminatedSnoc(options[1..], option);
    }
  }

  /** format: each option and a newline appended to one builder. */
  method Format(dhcpOptions: seq<string>) returns (output: string)
    ensures output == NewlineTerminated(dhcpOptions)
  {
    output := "";
    for i := 0 to |dhcpOptions|
      invariant output == NewlineTerminated(dhcpOptions[..i])
    {
      NewlineTerminatedSnoc(dhcpOptions[..i], dhcpOptions[i]);
      assert dhcpOptions[..i + 1] == dhcpOptions[..i] + [dhcpOptions[i]];
      output := output + dhcpOptions[i] + "\n";
    }
    assert dhcpOptions[..|dhcpOptions|] == dhcpOptions;
  }

  /** The joined text splits back on "\n" into the options, then the empty text after the last newline. */
  lemma {:induction false} NewlineTerminatedSplits(options: seq<string>)
    requires forall i | 0 <= i < |options| :: Lacks(options[i], '\n')
    ensures Split(NewlineTerminated(options), "\n") == options + [""]
    decreases |options|
  {
    if |options| > 0 {
      assert "\n"[0] == '\n';
      SplitAt(options[0], "\n", NewlineTerminated(options[1..]));
      NewlineTerminatedSplits(options[1..]);
      assert options == [options[0]] + options[1..];
    }
  }

  /** The joined text has one character per option character and one newline per option. */
  lemma {:induction false} NewlineTerminatedLength(options: seq<string>)
    ensures |NewlineTerminated(options)| == TotalLength(options) + |options|
    decreases |options|
  {
    if |options| > 0 {
      NewlineTerminatedLength(options[1..]);
    }
  }

  function TotalLength(options: seq<string>): nat
  {
    if |options| == 0 then 0 else |options[0]| + TotalLength(options[1..])
  }

  // ---------------------------------------------------------------------------------
  // Properties of the rendered lines

  /** How many lines each format prints. */
  lemma RenderedLineCount(aggregateHex: string, withOption249: bool, format: Formats.Format,
                          junosPoolName: Option<string>, ciscoPoolName: Option<string>)
    requires Rendered(aggregateHex, withOption249, format, junosPoolName, ciscoPoolName).Ok?
    ensures var lines := Rendered(aggregateHex, withOption249, format, junosPoolName, ciscoPoolName).value;
            var extra := if withOption249 then 1 else 0;
            |lines| == if |aggregateHex| == 0 then 0
                       else if format.Isc? then 2 + 2 * extra
                       else if format.Cisco? then 2 + extra
                       else 1 + extra
  {
  }

  /**
   * Asking for option 249 adds the option 249 line after the option 121 line and
   * changes nothing else, in every format but ISC.
   */
  lemma Option249Appends(aggregateHex: string, format: Formats.Format,
                         junosPoolName: Option<string>, ciscoPoolName: Option<string>)
    requires |aggregateHex| > 0 && !format.Isc?
    ensures Rendered(aggregateHex, true, format, junosPoolName, ciscoPoolName)
            == Ok(Rendered(aggregateHex, false, format, junosPoolName, ciscoPoolName).value
                  + [OptionPrefix(format, true, junosPoolName) + aggregateHex])
  {
    SnocPair(PoolHeader(format, ciscoPoolName), OptionPrefix(format, false, junosPoolName) + aggregateHex,
             OptionPrefix(format, true, junosPoolName) + aggregateHex);
  }

  lemma SnocPair(header: seq<string>, first: string, second: string)
    ensures header + [first, second] == header + [first] + [second]
  {
  }

  /**
   * ISC declares option 249 after option 121 and sets it after option 121 to the same
   * routes; without option 249 the other two lines are the same.
   */
  lemma IscOption249(aggregateHex: string, junosPoolName: Option<string>, ciscoPoolName: Option<string>)
    requires |aggregateHex| > 0 && DecodeForIsc(aggregateHex).Ok?
    ensures var without := Rendered(aggregateHex, false, Formats.Isc, junosPoolName, ciscoPoolName).value;
            var with := Rendered(aggregateHex, true, Formats.Isc, junosPoolName, ciscoPoolName).value;
            |without| == 2 && |with| == 4
            && with[0] == without[0] && with[2] == without[1]
            && with[1] == ISC_DECLARE_249
            && with[3] == ISC_OPTION_249 + without[1][|ISC_OPTION_121|..]
  {
    var fields := IscFieldList(DecodeLenient(aggregateHex));
    assert (ISC_OPTION_121 + fields)[|ISC_OPTION_121|..] == fields;
  }

  predicate EndsWith(line: string, suffix: string)
  {
    |suffix| <= |line| && line[|line| - |suffix|..] == suffix
  }

  /**
   * Every format but ISC copies the payload unchanged to the end of each option line,
   * and only the Cisco lines start with another line.
   */
  lemma PlainLinesCarryPayload(aggregateHex: string, withOption249: bool, format: Formats.Format,
                               junosPoolName: Option<string>, ciscoPoolName: Option<string>)
    requires |aggregateHex| > 0 && !format.Isc?
    ensures Rendered(aggregateHex, withOption249, format, junosPoolName, ciscoPoolName).Ok?
    ensures var lines := Rendered(aggregateHex, withOption249, format, junosPoolName, ciscoPoolName).value;
            forall k | (if format.Cisco? then 1 else 0) <= k < |lines| :: EndsWith(lines[k], aggregateHex)
  {
    var header := PoolHeader(format, ciscoPoolName);
    var prefix121, prefix249 := OptionPrefix(format, false, junosPoolName), OptionPrefix(format, true, junosPoolName);
    LinesCarry(header, prefix121, prefix249, aggregateHex, withOption249);
    assert |header| == (if format.Cisco? then 1 else 0);
    assert Rendered(aggregateHex, withOption249, format, junosPoolName, ciscoPoolName).value
           == header + (if withOption249 then [prefix121 + aggregateHex, prefix249 + aggregateHex]
                        else [prefix121 + aggregateHex]);
  }

  lemma LinesCarry(header: seq<string>, prefix121: string, prefix249: string, suffix: string, both: bool)
    ensures var lines := header + (if both then [prefix121 + suffix, prefix249 + suffix] else [prefix121 + suffix]);
            forall k | |header| <= k < |lines| :: EndsWith(lines[k], suffix)
  {
    SuffixKept(prefix121, suffix);
    SuffixKept(prefix249, suffix);
  }

  lemma SuffixKept(prefix: string, suffix: string)
    ensures EndsWith(prefix + suffix, suffix)
  {
    assert (prefix + suffix)[|prefix|..] == suffix;
  }

  /** Only the JunOS lines depend on junosPoolName. */
  lemma JunosPoolNameOnly(aggregateHex: string, withOption249: bool, format: Formats.Format,
                          junosPoolName: Option<string>, ciscoPoolName: Option<string>, otherJunos: Option<string>)
    requires !format.Junos?
    ensures Rendered(aggregateHex, withOption249, format, otherJunos, ciscoPoolName)
            == Rendered(aggregateHex, withOption249, format, junosPoolName, ciscoPoolName)
  {
  }

  /** Only the Cisco lines depend on ciscoPoolName. */
  lemma CiscoPoolNameOnly(aggregateHex: string, withOption249: bool, format: Formats.Format,
                          junosPoolName: Option<string>, ciscoPoolName: Option<string>, otherCisco: Option<string>)
    requires !format.Cisco?
    ensures Rendered(aggregateHex, withOption249, format, junosPoolName, otherCisco)
            == Rendered(aggregateHex, withOption249, format, junosPoolName, ciscoPoolName)
  {
  }

  /** ISC reads the payload back: text made only of hex digits always renders. */
  lemma IscOnHexDigits(aggregateHex: string, withOption249: bool, format: Formats.Format,
                       junosPoolName: Option<string>, ciscoPoolName: Option<string>)
    requires AllHexDigits(aggregateHex)
    ensures Rendered(aggregateHex, withOption249, format, junosPoolName, ciscoPoolName).Ok?
  {
    DecodeForIscOnHex(aggregateHex);
  }

  /** A first record whose destination or gateway field is not hex makes ISC throw. */
  lemma IscThrowsOnBadOctet(aggregateHex: string, withOption249: bool,
                            junosPoolName: Option<string>, ciscoPoolName: Option<string>)
    requires |aggregateHex| > 0 && ReadRecord(aggregateHex).BadOctet?
    ensures Rendered(aggregateHex, withOption249, Formats.Isc, junosPoolName, ciscoPoolName)
            == Thrown(NumberFormatException)
  {
  }

  lemma TextsAppend(a: seq<int>, b: seq<int>)
    ensures Texts(a + b) == Texts(a) + Texts(b)
  {
  }

  lemma {:induction false} NormalizedEncodable(rs: seq<Route>)
    requires AllEncodable(rs)
    ensures AllEncodable(NormalizeAll(rs)) && AllShaped(NormalizeAll(rs))
    decreases |rs|
  {
    if |rs| > 0 {
      NormalizeKeepsRecord(rs[0]);
      NormalizedEncodable(rs[1..]);
      var ns := NormalizeAll(rs);
      assert forall i | 1 <= i < |ns| :: ns[i] == NormalizeAll(rs[1..])[i - 1];
    }
  }

  lemma IscRouteTextsCons(rs: seq<Route>)
    requires AllShaped(rs) && |rs| > 0
    ensures IscRouteTexts(rs) == [IscRouteText(rs[0])] + IscRouteTexts(rs[1..])
  {
    var ts, rest := IscRouteTexts(rs), IscRouteTexts(rs[1..]);
    forall k | 1 <= k < |rs|
      ensures ts[k] == rest[k - 1]
    {
      assert rs[1..][k - 1] == rs[k];
    }
  }

  /** The ISC value of routes read back from their payload: the payload's bytes in decimal. */
  lemma {:induction false} IscFieldListOfBytes(rs: seq<Route>)
    requires AllEncodable(rs) && |rs| > 0
    ensures AllShaped(NormalizeAll(rs))
    ensures IscFieldList(NormalizeAll(rs)) == Join(Texts(RecordsBytes(rs)), ",")
    decreases |rs|
  {
    NormalizedEncodable(rs);
    var ns := NormalizeAll(rs);
    NormalizeKeepsRecord(rs[0]);
    var head := Texts(Record(rs[0]));
    assert IscRouteText(ns[0]) == Join(head, ",");
    IscRouteTextsCons(ns);
    if |rs| == 1 {
      assert RecordsBytes(rs) == Record(rs[0]);
    } else {
      IscFieldListOfBytes(rs[1..]);
      assert ns[1..] == NormalizeAll(rs[1..]);
      assert |RecordsBytes(rs[1..])| > 0;
      TextsAppend(Record(rs[0]), RecordsBytes(rs[1..]));
      JoinAppend(head, Texts(RecordsBytes(rs[1..])), ",");
    }
  }

  /** The routes ISC reads back from a payload written from routes, as ISC joins them. */
  lemma IscFieldsOfRecordsHex(rs: seq<Route>)
    requires AllEncodable(rs) && |rs| > 0
    ensures |RecordsHex(rs)| > 0
    ensures DecodeForIsc(RecordsHex(rs)) == Ok(NormalizeAll(rs)) && AllShaped(NormalizeAll(rs))
    ensures IscFieldList(NormalizeAll(rs)) == Join(Texts(RecordsBytes(rs)), ",")
  {
    DecodeOfRecordsHex(rs);
    IscFieldListOfBytes(rs);
    assert RecordsHex(rs) == RecordHex(rs[0]) + RecordsHex(rs[1..]);
  }

  /**
   * The ISC lines for a payload written from routes: both options are set to the
   * payload's bytes in decimal, comma separated, the bytes the other formats print in hex.
   */
  lemma IscOfRecordsHex(rs: seq<Route>, withOption249: bool,
                        junosPoolName: Option<string>, ciscoPoolName: Option<string>)
    requires AllEncodable(rs) && |rs| > 0
    ensures Rendered(RecordsHex(rs), withOption249, Formats.Isc, junosPoolName, ciscoPoolName)
            == Ok(IscDeclarations(withOption249) + IscValueLines(Join(Texts(RecordsBytes(rs)), ","), withOption249))
  {
    IscFieldsOfRecordsHex(rs);
  }
}
