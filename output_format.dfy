/**
 * OutputFormats: the per-server output classes. outputFormatAbstract holds the
 * constructor-set fields and the defaults; DEFAULT, ISC, ROUTEROS and JUNOS each
 * render the aggregate payload as their own configuration lines, and JUNOS also builds
 * the NETCONF edit request that would push the payload to a router.
 *
 * The Java hierarchy is one class here: its `kind` says which subclass an object is,
 * and `Abstract` stands for a subclass that keeps outputFormatAbstract's own bodies.
 */
module OutputFormats {
  import opened Wrappers
  import OutputFormatter
  import Formats
  import Rfc3442

  /** Which class of the hierarchy an object is. */
  datatype Kind = Abstract | Default | Isc | RouterOs | Junos

  /** The name of an apply method, as the ApplyMethod enumeration spells it. */
  datatype ApplyMethod = ApplyMethod(name: string)

  /** One pool as read back from a router. */
  datatype PoolDeviceConfig = PoolDeviceConfig(defaultGateway: string, network: string, option121: string)

  // ---------------------------------------------------------------------------------
  // What each class renders

  /** DEFAULT: the option 121 line, then the option 249 line when it is asked for. */
  function DefaultLines(aggregateHex: string, withOption249: bool): seq<string>
  {
    if |aggregateHex| == 0 then []
    else ["aggregate_opt_121 : 0x" + aggregateHex]
         + (if withOption249 then ["aggregate_opt_249 : 0x" + aggregateHex] else [])
  }

  const ROUTEROS_121 := "/ip dhcp-server option add code=121 name=aggregate_opt_121 value=0x"
  const ROUTEROS_249 := "/ip dhcp-server option add code=249 name=aggregate_opt_249 value=0x"

  /** ROUTEROS: one `/ip dhcp-server option add` command per option. */
  function RouterOsLines(aggregateHex: string, withOption249: bool): seq<string>
  {
    if |aggregateHex| == 0 then []
    else [ROUTEROS_121 + aggregateHex] + (if withOption249 then [ROUTEROS_249 + aggregateHex] else [])
  }

  const JUNOS_POOL := "set access address-assignment pool "
  const JUNOS_121 := " family inet dhcp-attributes option 121 hex-string "
  const JUNOS_249 := " family inet dhcp-attributes option 249 hex-string "

  /** JUNOS: one `set access address-assignment pool` command per option, the payload without "0x". */
  function JunosLines(aggregateHex: string, withOption249: bool, poolName: Option<string>): seq<string>
  {
    if |aggregateHex| == 0 then []
    else [JUNOS_POOL + OutputFormatter.PoolText(poolName) + JUNOS_121 + aggregateHex]
         + (if withOption249 then [JUNOS_POOL + OutputFormatter.PoolText(poolName) + JUNOS_249 + aggregateHex] else [])
  }

  /** ISC: the declarations and the decimal value lines, read back from the payload. */
  function IscClassLines(aggregateHex: string, withOption249: bool): Result<seq<string>>
  {
    if |aggregateHex| == 0 then Ok([]) else OutputFormatter.IscLines(aggregateHex, withOption249)
  }

  /** formatDhcpOptions of each class; only ISC reads the payload, and so only ISC can throw. */
  function ClassLines(kind: Kind, aggregateHex: string, withOption249: bool, poolName: Option<string>): Result<seq<string>>
  {
    match kind
    case Abstract => Ok([])
    case Default => Ok(DefaultLines(aggregateHex, withOption249))
    case Isc => IscClassLines(aggregateHex, withOption249)
    case RouterOs => Ok(RouterOsLines(aggregateHex, withOption249))
    case Junos => Ok(JunosLines(aggregateHex, withOption249, poolName))
  }

  /** The format name each concrete class renders for. */
  function FormatOf(kind: Kind): Formats.Format
    requires !kind.Abstract?
  {
    match kind
    case Default => Formats.Default
    case Isc => Formats.Isc
    case RouterOs => Formats.RouterOs
    case Junos => Formats.Junos
  }

  // ---------------------------------------------------------------------------------
  // The NETCONF edit request of JUNOS

  const REQUEST_OPEN := "<rpc><edit-config><target><candidate/></target><config><configuration><access><address-assignment><pool><name>"
  const ATTRIBUTES_OPEN := "</name><family><inet><dhcp-attributes>"
  const REQUEST_CLOSE := "</dhcp-attributes></inet></family></pool></address-assignment></access></configuration></config></edit-config></rpc>"

  /** One `<option>` element of the DHCP attributes. */
  function OptionElement(id: string, hexValue: string): string
  {
    "<option><id>" + id + "</id><hex-string>" + hexValue + "</hex-string></option>"
  }

  /** The option 249 element when it is asked for, and nothing otherwise. */
  function OptionalElement(withOption249: bool, hexValue: string): string
  {
    if withOption249 then OptionElement("249", hexValue) else ""
  }

  /** The request after the pool name: the DHCP attributes and the closing tags. */
  function RequestRest(withOption249: bool, hexValue: string): string
  {
    ATTRIBUTES_OPEN + OptionElement("121", hexValue) + OptionalElement(withOption249, hexValue) + REQUEST_CLOSE
  }

  /**
   * buildNetconfEditRequest: the candidate-configuration edit that sets option 121,
   * and option 249 when it is asked for, on one address-assignment pool.
   */
  function NetconfEditRequest(withOption249: bool, localPoolName: string, hexValue: string): string
  {
    REQUEST_OPEN + localPoolName + RequestRest(withOption249, hexValue)
  }

  // ---------------------------------------------------------------------------------
  // The objects

  class OutputFormat {
    const kind: Kind
    // Set by the render constructor.
    var aggregateHex: Option<string>
    var withOption249: bool
    var poolName: Option<string>
    // Set by the apply constructor.
    var config: Option<string>
    var username: Option<string>
    var password: Option<string>
    var applyMethod: Option<ApplyMethod>

    /** The constructor for rendering: it keeps the payload, the flag and the pool name as given. */
    constructor Render(kind: Kind, aggregateHex: string, withOption249: bool, poolName: Option<string>)
      ensures this.kind == kind
      ensures this.aggregateHex == Some(aggregateHex)
      ensures this.withOption249 == withOption249
      ensures this.poolName == poolName
      ensures config == None && username == None && password == None && applyMethod == None
    {
      this.kind := kind;
      this.aggregateHex := Some(aggregateHex);
      this.withOption249 := withOption249;
      this.poolName := poolName;
      config := None;
      username := None;
      password := None;
      applyMethod := None;
    }

    /** The constructor for applying: it leaves the payload unset, so such an object cannot render. */
    constructor Apply(kind: Kind, config: Option<string>, username: Option<string>, password: Option<string>,
                      applyMethod: Option<ApplyMethod>)
      requires !kind.Isc?
      ensures this.kind == kind
      ensures this.config == config && this.username == username && this.password == password
      ensures this.applyMethod == applyMethod
      ensures aggregateHex == None && !withOption249 && poolName == None
    {
      this.kind := kind;
      this.config := config;
      this.username := username;
      this.password := password;
      this.applyMethod := applyMethod;
      aggregateHex := None;
      withOption249 := false;
      poolName := None;
    }

    /** formatDhcpOptions, as the object's class defines it. */
    method FormatDhcpOptions() returns (results: Result<seq<string>>)
      requires aggregateHex.Some?
      ensures results == ClassLines(kind, aggregateHex.value, withOption249, poolName)
    {
      var hex := aggregateHex.value;
      match kind
      case Abstract =>
        results := Ok([]);
      case Default =>
        results := Ok(DefaultLines(hex, withOption249));
      case Isc =>
        if |hex| == 0 {
          results := Ok([]);
        } else {
          results := OutputFormatter.IscOptions(hex, withOption249);
        }
      case RouterOs =>
        results := Ok(RouterOsLines(hex, withOption249));
      case Junos =>
        results := Ok(JunosLines(hex, withOption249, poolName));
    }

    /** getConfig of every class but JUNOS: nothing is read from the router. */
    method GetConfig(routerName: string) returns (pools: map<string, PoolDeviceConfig>)
      requires !kind.Junos?
      ensures pools == map[]
    {
      pools := map[];
    }

    /** JUNOS's buildNetconfEditRequest, which reads the option 249 flag of the object. */
    function BuildNetconfEditRequest(localPoolName: string, hexValue: string): string
      reads this
      requires kind.Junos?
    {
      NetconfEditRequest(withOption249, localPoolName, hexValue)
    }
  }

  // ---------------------------------------------------------------------------------
  // Properties

  /** Every class renders an empty payload as no lines. */
  lemma EmptyPayloadNoLines(kind: Kind, withOption249: bool, poolName: Option<string>)
    ensures ClassLines(kind, "", withOption249, poolName) == Ok([])
  {
  }

  /** outputFormatAbstract's own formatDhcpOptions gives no lines, whatever the payload. */
  lemma AbstractNoLines(aggregateHex: string, withOption249: bool, poolName: Option<string>)
    ensures ClassLines(Abstract, aggregateHex, withOption249, poolName) == Ok([])
  {
  }

  /** DEFAULT renders what OutputFormatter renders for the DEFAULT format. */
  lemma DefaultAgrees(aggregateHex: string, withOption249: bool, poolName: Option<string>)
    ensures ClassLines(Default, aggregateHex, withOption249, poolName)
            == OutputFormatter.Rendered(aggregateHex, withOption249, Formats.Default, poolName, None)
  {
    if |aggregateHex| > 0 {
      var plain := OutputFormatter.PlainLines(aggregateHex, withOption249, Formats.Default, poolName, None);
      assert plain == OutputFormatter.OptionLines(Formats.Default, aggregateHex, withOption249, poolName);
      assert DefaultLines(aggregateHex, withOption249) == plain;
    }
  }

  /** ROUTEROS renders what OutputFormatter renders for the ROUTEROS format. */
  lemma RouterOsAgrees(aggregateHex: string, withOption249: bool, poolName: Option<string>)
    ensures ClassLines(RouterOs, aggregateHex, withOption249, poolName)
            == OutputFormatter.Rendered(aggregateHex, withOption249, Formats.RouterOs, poolName, None)
  {
    if |aggregateHex| > 0 {
      RouterOsPrefixes(poolName);
      var plain := OutputFormatter.PlainLines(aggregateHex, withOption249, Formats.RouterOs, poolName, None);
      assert plain == OutputFormatter.OptionLines(Formats.RouterOs, aggregateHex, withOption249, poolName);
      assert RouterOsLines(aggregateHex, withOption249) == plain;
    }
  }

  /** ROUTEROS and OutputFormatter open the option lines with the same text. */
  lemma RouterOsPrefixes(poolName: Option<string>)
    ensures ROUTEROS_121 == OutputFormatter.OptionPrefix(Formats.RouterOs, false, poolName)
    ensures ROUTEROS_249 == OutputFormatter.OptionPrefix(Formats.RouterOs, true, poolName)
  {
  }

  /** JUNOS renders what OutputFormatter renders for the JUNOS format, with the object's pool name. */
  lemma JunosAgrees(aggregateHex: string, withOption249: bool, poolName: Option<string>)
    ensures ClassLines(Junos, aggregateHex, withOption249, poolName)
            == OutputFormatter.Rendered(aggregateHex, withOption249, Formats.Junos, poolName, None)
  {
    if |aggregateHex| > 0 {
      JunosPrefixes(poolName);
      var plain := OutputFormatter.PlainLines(aggregateHex, withOption249, Formats.Junos, poolName, None);
      assert plain == OutputFormatter.OptionLines(Formats.Junos, aggregateHex, withOption249, poolName);
      assert JunosLines(aggregateHex, withOption249, poolName) == plain;
    }
  }

  /** JUNOS and OutputFormatter open the option lines with the same text. */
  lemma JunosPrefixes(poolName: Option<string>)
    ensures JUNOS_POOL + OutputFormatter.PoolText(poolName) + JUNOS_121
            == OutputFormatter.OptionPrefix(Formats.Junos, false, poolName)
    ensures JUNOS_POOL + OutputFormatter.PoolText(poolName) + JUNOS_249
            == OutputFormatter.OptionPrefix(Formats.Junos, true, poolName)
  {
  }

  /** ISC renders, and throws, exactly as OutputFormatter does for the ISC format. */
  lemma IscAgrees(aggregateHex: string, withOption249: bool, poolName: Option<string>)
    ensures ClassLines(Isc, aggregateHex, withOption249, poolName)
            == OutputFormatter.Rendered(aggregateHex, withOption249, Formats.Isc, poolName, None)
  {
  }

  /** Every concrete class renders as OutputFormatter does for its format. */
  lemma ClassesAgree(kind: Kind, aggregateHex: string, withOption249: bool, poolName: Option<string>)
    requires !kind.Abstract?
    ensures ClassLines(kind, aggregateHex, withOption249, poolName)
            == OutputFormatter.Rendered(aggregateHex, withOption249, FormatOf(kind), poolName, None)
  {
    match kind
    case Default => DefaultAgrees(aggregateHex, withOption249, poolName);
    case Isc => IscAgrees(aggregateHex, withOption249, poolName);
    case RouterOs => RouterOsAgrees(aggregateHex, withOption249, poolName);
    case Junos => JunosAgrees(aggregateHex, withOption249, poolName);
  }

  /**
   * A concrete class gives one line per option and ISC two, and only ISC can throw:
   * 1 or 2 lines, or 2 or 4 for ISC, as option 249 is asked for or not.
   */
  lemma ClassLineCount(kind: Kind, aggregateHex: string, withOption249: bool, poolName: Option<string>)
    requires !kind.Abstract? && |aggregateHex| > 0
    requires !kind.Isc? || Rfc3442.DecodeForIsc(aggregateHex).Ok?
    ensures ClassLines(kind, aggregateHex, withOption249, poolName).Ok?
    ensures |ClassLines(kind, aggregateHex, withOption249, poolName).value|
            == (if kind.Isc? then 2 else 1) * (if withOption249 then 2 else 1)
  {
    ClassesAgree(kind, aggregateHex, withOption249, poolName);
    OutputFormatter.RenderedLineCount(aggregateHex, withOption249, FormatOf(kind), poolName, None);
  }

  /** Only JUNOS prints the pool name: every other class ignores it. */
  lemma PoolNameOnlyForJunos(kind: Kind, aggregateHex: string, withOption249: bool,
                             poolName: Option<string>, otherPoolName: Option<string>)
    requires !kind.Junos?
    ensures ClassLines(kind, aggregateHex, withOption249, poolName)
            == ClassLines(kind, aggregateHex, withOption249, otherPoolName)
  {
  }

  /** Cutting a concatenation of three parts at their borders gives the parts back. */
  lemma ThreeParts(a: string, b: string, c: string)
    ensures (a + b + c)[..|a|] == a
    ensures (a + b + c)[|a|..|a| + |b|] == b
    ensures (a + b + c)[|a| + |b|..] == c
  {
    assert (a + b + c)[..|a|] == a;
    assert (a + b + c)[|a|..|a| + |b|] == b;
    assert (a + b + c)[|a| + |b|..] == c;
  }

  /** A slice of the second part of a concatenation is a slice of the whole, shifted. */
  lemma ShiftedSlice(a: string, b: string, i: nat, k: nat)
    requires i <= k <= |b|
    ensures (a + b)[|a| + i..|a| + k] == b[i..k]
  {
  }

  /**
   * The pool name follows the `<name>` opening of the pool element, and what follows
   * it, from the closing `</name>` on, does not depend on the pool name.
   */
  lemma NetconfPoolName(withOption249: bool, localPoolName: string, hexValue: string)
    ensures var request := NetconfEditRequest(withOption249, localPoolName, hexValue);
            && request[..|REQUEST_OPEN|] == REQUEST_OPEN
            && request[|REQUEST_OPEN|..|REQUEST_OPEN| + |localPoolName|] == localPoolName
            && request[|REQUEST_OPEN| + |localPoolName|..] == RequestRest(withOption249, hexValue)
  {
    ThreeParts(REQUEST_OPEN, localPoolName, RequestRest(withOption249, hexValue));
  }

  /** The third part of a request whose rest is made of four parts. */
  lemma ThirdOfRest(open: string, name: string, attributes: string, element: string, optional: string, close: string)
    ensures var request := open + name + (attributes + element + optional + close);
            var j := |open| + |name| + |attributes|;
            && j + |element| <= |request|
            && request[j..j + |element|] == element
  {
    var rest := attributes + element + optional + close;
    ThreeParts(attributes, element, optional + close);
    assert rest == attributes + element + (optional + close);
    ShiftedSlice(open + name, rest, |attributes|, |attributes| + |element|);
  }

  /** Putting a part just before the last one of a request's rest. */
  lemma InsertedBeforeClose(open: string, name: string, attributes: string, element: string, absent: string,
                            inserted: string, close: string)
    requires absent == ""
    ensures var without := open + name + (attributes + element + absent + close);
            var with := open + name + (attributes + element + inserted + close);
            var j := |open| + |name| + |attributes| + |element|;
            && j <= |without|
            && with == without[..j] + inserted + without[j..]
  {
    var head := open + name + attributes + element;
    var without := open + name + (attributes + element + absent + close);
    assert without == head + close;
    assert open + name + (attributes + element + inserted + close) == head + inserted + close;
    assert without[..|head|] == head;
    assert without[|head|..] == close;
  }

  /** The option 121 element, carrying the payload as given, opens the DHCP attributes. */
  lemma NetconfOption121(withOption249: bool, localPoolName: string, hexValue: string)
    ensures var request := NetconfEditRequest(withOption249, localPoolName, hexValue);
            var element := OptionElement("121", hexValue);
            var j := |REQUEST_OPEN| + |localPoolName| + |ATTRIBUTES_OPEN|;
            && j + |element| <= |request|
            && request[j..j + |element|] == element
  {
    ThirdOfRest(REQUEST_OPEN, localPoolName, ATTRIBUTES_OPEN, OptionElement("121", hexValue),
                OptionalElement(withOption249, hexValue), REQUEST_CLOSE);
  }

  /**
   * Asking for option 249 inserts its element, carrying the same payload, right after
   * the option 121 element and changes nothing else.
   */
  lemma NetconfOption249Inserted(localPoolName: string, hexValue: string)
    ensures var without := NetconfEditRequest(false, localPoolName, hexValue);
            var with := NetconfEditRequest(true, localPoolName, hexValue);
            var j := |REQUEST_OPEN| + |localPoolName| + |ATTRIBUTES_OPEN| + |OptionElement("121", hexValue)|;
            && j <= |without|
            && with == without[..j] + OptionElement("249", hexValue) + without[j..]
  {
    assert OptionalElement(true, hexValue) == OptionElement("249", hexValue);
    InsertedBeforeClose(REQUEST_OPEN, localPoolName, ATTRIBUTES_OPEN, OptionElement("121", hexValue),
                        OptionalElement(false, hexValue), OptionalElement(true, hexValue), REQUEST_CLOSE);
  }
}
