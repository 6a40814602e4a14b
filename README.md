# DHCP classless static route converter, modelled in Dafny

The repository is a Java command-line tool. It turns a list of IPv4 networks in CIDR
form and their gateways into the DHCP classless static route option (option 121 of
RFC 3442, and the same payload as Microsoft's option 249). It also decodes such a
payload back into "network/mask via gateway" lines. It prints the payload in the
configuration syntax of several DHCP servers: a plain aggregate line, isc-dhcp-server,
MikroTik RouterOS, Juniper JunOS, Cisco IOS and Windows PowerShell.

This project models the tool's core and proves properties of the model:

- the RFC 3442 codec, in two revisions: the newer stateful `DhcpOptionConverter` and
  the older static `DhcpRouteConverter`;
- the renderer `OutputFormatter`;
- the per-server classes under `outputFormat/`.

Modules, one concept each:

| module | file | what it holds |
|---|---|---|
| `Wrappers` | `wrappers.dfy` | `Option` (also a Java reference that may be null) and `Result` (a value, or an escaping `NumberFormatException`) |
| `JavaText` | `java_text.dfy` | the Java library behaviour the code relies on: `Integer.parseInt`, `%d`, `String.split` with its removal of trailing empty strings, ASCII `toLowerCase`, joining |
| `Hex` | `hex.dfy` | hex digits, `%02x` and two-digit `Integer.parseInt(s, 16)` |
| `Rfc3442` | `rfc3442.dfy` | the wire record (prefix length, significant destination octets, gateway), the record reader, the decoders, the route lines, and the encode/decode round trips |
| `Formats` | `formats.dfy` | the six output formats |
| `OptionConverter` | `dhcp_option_converter.dfy` | class `DhcpOptionConverter` with its `hasDefaultRoute` and `debugMode` state, the route encoder, the aggregate loop and the decoder loop |
| `OutputFormatter` | `output_formatter.dfy` | `formatDhcpOptions` for every format, `parseHexToRoutes`, `format` |
| `RouteConverter` | `dhcp_route_converter.dfy` | the older `generateDhcpOptions` with its six `format*` helpers, `parseDhcpOptions`, `toHex` |
| `OutputFormats` | `output_format.dfy` | `outputFormatAbstract`, `DEFAULT`, `ISC`, `ROUTEROS` and `JUNOS` as one class with a kind tag, and JUNOS's NETCONF edit request |

Modelling choices:

- Java methods that change state or loop are Dafny methods with loops. Each is proved
  against a specification function. The lemmas are stated about those functions.
- `DhcpOptionConverter` is a class. Its `converted` ghost history records every
  network passed to `convertToHexRoute`. Its invariant ties `hasDefaultRoute` to that
  history.
- Java's decoders read fixed-size `int[]` arrays. `Rfc3442.ReadOctetsInto` and
  `OptionConverter.ReadGatewayOctets` fill Dafny arrays in the same way.
- A Java class hierarchy cannot be a trait here. `OutputFormats.OutputFormat` is
  therefore one class whose `kind` field names the subclass. Its methods dispatch on
  that field as Java's virtual calls do.
- Where the code throws `NumberFormatException` without catching it, the model returns
  `Thrown(NumberFormatException)`. This happens in `parseHexToRoutes` when a
  destination or gateway byte is not hex (OutputFormatter.java:170 and 182). Every
  caught error path is modelled as the code handles it: the route is skipped, or
  decoding stops.
- Byte values are `int`s between 0 and 255. Java's 32-bit `int` range appears only
  where `Integer.parseInt` can overflow.

## Model

| member | source | states |
|---|---|---|
| JavaText.ParseInt | src/main/java/net/ukrcom/dhcprouteconverter/DhcpOptionConverter.java:100-105 | what `Integer.parseInt` accepts yields a 32-bit value; without a leading minus the value is never negative |
| JavaText.ParseIntOfDecimal | src/main/java/net/ukrcom/dhcprouteconverter/OutputFormatter.java:63 | parsing the `%d` text of a prefix length gives the prefix length back |
| JavaText.DigitsValueOfDecimal | src/main/java/net/ukrcom/dhcprouteconverter/DhcpOptionConverter.java:245-248 | the decimal text `%d` writes denotes the number written |
| JavaText.IntText | src/main/java/net/ukrcom/dhcprouteconverter/DhcpOptionConverter.java:245-249 | `%d` text is non-empty digits with at most a leading minus, and is the plain decimal for non-negative values |
| JavaText.StripTrailingEmpty | src/main/java/net/ukrcom/dhcprouteconverter/DhcpOptionConverter.java:98 | `split` drops exactly the trailing empty strings and keeps the rest in order |
| JavaText.JavaSplitKeepsPieces | src/main/java/net/ukrcom/dhcprouteconverter/DhcpRouteConverter.java:199 | when the last piece is non-empty, Java's `split` returns every piece |
| JavaText.JoinOfSplit | src/main/java/net/ukrcom/dhcprouteconverter/DhcpRouteConverter.java:222-223 | joining the pieces of a split with the separator gives the text back |
| JavaText.SplitOfJoin | src/main/java/net/ukrcom/dhcprouteconverter/OutputFormatter.java:61-74 | splitting a join of separator-free pieces gives the pieces back |
| JavaText.ToLowerCase | src/main/java/net/ukrcom/dhcprouteconverter/DhcpRouteConverter.java:415 | lower-casing keeps the length and maps each character |
| Hex.HexDigitValue | src/main/java/net/ukrcom/dhcprouteconverter/OutputFormatter.java:170 | a hex digit's value is below 16 |
| Hex.ParseHexPair | src/main/java/net/ukrcom/dhcprouteconverter/DhcpOptionConverter.java:193-200 | a two-character field parses exactly when both characters are hex digits, and then to a byte |
| Hex.HexDigitReadsBack | src/main/java/net/ukrcom/dhcprouteconverter/DhcpOptionConverter.java:146 | the digit `%x` writes is lower-case and reads back as its value |
| Hex.HexByte | src/main/java/net/ukrcom/dhcprouteconverter/DhcpOptionConverter.java:157 | `%02x` of a byte is two characters |
| Hex.HexByteIsLower | src/main/java/net/ukrcom/dhcprouteconverter/DhcpOptionConverter.java:166 | `%02x` writes lower-case hex digits only |
| Hex.HexBytes | src/main/java/net/ukrcom/dhcprouteconverter/DhcpOptionConverter.java:165-167 | bytes written with `%02x` take two characters each |
| Hex.HexBytesIsLower | src/main/java/net/ukrcom/dhcprouteconverter/DhcpOptionConverter.java:145-167 | a payload written byte by byte is lower-case hex |
| Hex.ParseHexByte | src/main/java/net/ukrcom/dhcprouteconverter/DhcpOptionConverter.java:219 | reading back a byte written with `%02x` gives that byte |
| Hex.HexByteOfParsed | src/main/java/net/ukrcom/dhcprouteconverter/DhcpRouteConverter.java:420 | a lower-case two-digit field is exactly what `%02x` writes for the value it parses to |
| Hex.HexBytesAppend | src/main/java/net/ukrcom/dhcprouteconverter/DhcpRouteConverter.java:247-248 | the hex of concatenated bytes is the concatenation of their hex |
| Rfc3442.SignificantOctets | src/main/java/net/ukrcom/dhcprouteconverter/DhcpOptionConverter.java:149 | the destination octets on the wire are the fewest that cover the prefix: at most 4, and 0 exactly for prefix length 0 |
| Rfc3442.Record | src/main/java/net/ukrcom/dhcprouteconverter/DhcpOptionConverter.java:145-167 | a route's record is 5 fields plus the significant octets, all bytes |
| Rfc3442.RecordHex | src/main/java/net/ukrcom/dhcprouteconverter/DhcpOptionConverter.java:174 | the record's text is two hex digits per field |
| Rfc3442.RecordHexIsBytes | src/main/java/net/ukrcom/dhcprouteconverter/DhcpOptionConverter.java:144-167 | the record's text is the `%02x` of its fields in order |
| Rfc3442.RecordsHexIsLower | src/main/java/net/ukrcom/dhcprouteconverter/DhcpOptionConverter.java:62-68 | every aggregate payload is lower-case hex |
| Rfc3442.RecordsBytes | src/main/java/net/ukrcom/dhcprouteconverter/DhcpRouteConverter.java:248 | the payload's fields are bytes |
| Rfc3442.Zeros | src/main/java/net/ukrcom/dhcprouteconverter/DhcpRouteConverter.java:470-472 | the padding past the prefix is all zeros |
| Rfc3442.NormalizeAll | src/main/java/net/ukrcom/dhcprouteconverter/DhcpOptionConverter.java:211 | normalising keeps one route per route |
| Rfc3442.ReadOctets | src/main/java/net/ukrcom/dhcprouteconverter/DhcpOptionConverter.java:212-225 | a successful read takes exactly two characters per octet, returns bytes and leaves the rest unread |
| Rfc3442.ReadOctetsInto | src/main/java/net/ukrcom/dhcprouteconverter/DhcpOptionConverter.java:228-242 | the array loop stops short, stops on a bad digit or fills the array exactly as the reading function says, touching no element past the count |
| Rfc3442.ReadRecord | src/main/java/net/ukrcom/dhcprouteconverter/DhcpOptionConverter.java:187-249 | a record read gives a decoded route and consumes exactly its record's length |
| Rfc3442.DestinationAt | src/main/java/net/ukrcom/dhcprouteconverter/DhcpOptionConverter.java:212-223 | a short or non-hex destination ends the record as truncated or bad |
| Rfc3442.GatewayAt | src/main/java/net/ukrcom/dhcprouteconverter/DhcpOptionConverter.java:229-240 | a short or non-hex gateway ends the record as truncated or bad |
| Rfc3442.ReadRouteFields | src/main/java/net/ukrcom/dhcprouteconverter/OutputFormatter.java:159-184 | the two array loops of parseHexToRoutes read the record the reading function describes and advance past it |
| Rfc3442.DecodeStops | src/main/java/net/ukrcom/dhcprouteconverter/DhcpOptionConverter.java:189-204 | an unreadable first record gives no routes; for ISC a non-hex octet throws and anything else returns the empty list |
| Rfc3442.DecodeLenient | src/main/java/net/ukrcom/dhcprouteconverter/DhcpOptionConverter.java:183-253 | every route decoded has a prefix length 0 to 32, byte octets and zeros past the prefix |
| Rfc3442.DecodeForIsc | src/main/java/net/ukrcom/dhcprouteconverter/OutputFormatter.java:135-195 | when parseHexToRoutes does not throw, it decodes what the newer converter decodes |
| Rfc3442.RouteLines | src/main/java/net/ukrcom/dhcprouteconverter/DhcpOptionConverter.java:244-249 | one "network/mask via gateway" line per route |
| Rfc3442.RouteLinesSnoc | src/main/java/net/ukrcom/dhcprouteconverter/OutputFormatter.java:191 | a route decoded later adds its line after the earlier lines |
| Rfc3442.Texts | src/main/java/net/ukrcom/dhcprouteconverter/OutputFormatter.java:187-190 | each octet is printed in decimal, in order |
| Rfc3442.ReadOctetsOfHex | src/main/java/net/ukrcom/dhcprouteconverter/DhcpOptionConverter.java:217-219 | reading back octets written with `%02x` gives them and leaves what follows |
| Rfc3442.ReadRecordOfRecordHex | src/main/java/net/ukrcom/dhcprouteconverter/DhcpOptionConverter.java:208-242 | a written record reads back as its route with the host octets zeroed, leaving what follows |
| Rfc3442.DecodeAfterRecord | src/main/java/net/ukrcom/dhcprouteconverter/DhcpOptionConverter.java:187 | after one record the decoder goes on with the rest, for both decoders |
| Rfc3442.DecodeRecordsHex | src/main/java/net/ukrcom/dhcprouteconverter/DhcpOptionConverter.java:186-250 | decoding consecutive records gives their routes, then whatever follows decodes to |
| Rfc3442.DecodeOfRecordsHex | src/main/java/net/ukrcom/dhcprouteconverter/DhcpOptionConverter.java:183-253 | decoding an aggregate payload gives its routes back, normalised, and ISC does not throw |
| Rfc3442.NormalizeKeepsRecord | src/main/java/net/ukrcom/dhcprouteconverter/DhcpOptionConverter.java:150-162 | zeroing the host octets is idempotent and changes no field on the wire |
| Rfc3442.ReadOctetsOnHex | src/main/java/net/ukrcom/dhcprouteconverter/OutputFormatter.java:164-172 | on hex text a read fails only for lack of characters |
| Rfc3442.ReadRecordOnHex | src/main/java/net/ukrcom/dhcprouteconverter/OutputFormatter.java:145-184 | on hex text a record is never rejected for a non-hex digit |
| Rfc3442.DecodeForIscOnHex | src/main/java/net/ukrcom/dhcprouteconverter/OutputFormatter.java:169-182 | on hex text parseHexToRoutes never throws and decodes as the newer converter does |
| Rfc3442.PartialRecord | src/main/java/net/ukrcom/dhcprouteconverter/DhcpOptionConverter.java:213-216 | a record cut anywhere decodes to nothing |
| Rfc3442.TruncatedPayload | src/main/java/net/ukrcom/dhcprouteconverter/outputFormat/ISC.java:91-151 | a payload whose last record is cut decodes to the complete records only, and ISC does not throw |
| Rfc3442.MaskOutOfRangeStops | src/main/java/net/ukrcom/dhcprouteconverter/DhcpOptionConverter.java:201-204 | a prefix length above 32 ends decoding after the records before it |
| Rfc3442.ReadOctetsLower | src/main/java/net/ukrcom/dhcprouteconverter/DhcpRouteConverter.java:466-467 | lower-case hex that reads as octets is exactly their `%02x` text followed by the rest |
| Rfc3442.ReadRecordLower | src/main/java/net/ukrcom/dhcprouteconverter/DhcpRouteConverter.java:433-484 | a lower-case record that reads is the written text of the route it reads as |
| Rfc3442.RecordsHexOfDecode | src/main/java/net/ukrcom/dhcprouteconverter/DhcpRouteConverter.java:427-492 | a well-formed lower-case payload is exactly the aggregate of the routes it decodes to |
| Rfc3442.WellFormedRecordsHex | src/main/java/net/ukrcom/dhcprouteconverter/DhcpRouteConverter.java:188-248 | every aggregate payload is well formed |
| Rfc3442.QuadTextSplit | src/main/java/net/ukrcom/dhcprouteconverter/OutputFormatter.java:64 | splitting a printed address on "." gives its four decimal octets |
| Rfc3442.RouteLineFields | src/main/java/net/ukrcom/dhcprouteconverter/OutputFormatter.java:61-71 | the ISC re-split of a route line recovers the network, prefix length, and destination and gateway octets |
| OptionConverter.QuadGroups | src/main/java/net/ukrcom/dhcprouteconverter/DhcpOptionConverter.java:117-122 | a match of the address pattern gives four fields of one to three digits |
| OptionConverter.CidrGroups | src/main/java/net/ukrcom/dhcprouteconverter/DhcpOptionConverter.java:91-96 | a match of the CIDR pattern gives an address and a one- or two-digit length |
| OptionConverter.CidrOfFields | src/main/java/net/ukrcom/dhcprouteconverter/DhcpOptionConverter.java:91 | every text the CIDR pattern describes matches, with the groups it is made of |
| OptionConverter.QuadGroupsCover | src/main/java/net/ukrcom/dhcprouteconverter/DhcpOptionConverter.java:117 | a matched address is exactly its four groups joined by dots |
| OptionConverter.CidrGroupsCover | src/main/java/net/ukrcom/dhcprouteconverter/DhcpOptionConverter.java:92-93 | a matched network is exactly its address, "/" and its length |
| OptionConverter.QuadSplit | src/main/java/net/ukrcom/dhcprouteconverter/DhcpOptionConverter.java:98 | splitting a matched address on "." gives the pattern's groups |
| OptionConverter.FieldValues | src/main/java/net/ukrcom/dhcprouteconverter/DhcpOptionConverter.java:124-136 | fields that all parse to bytes give one byte each |
| OptionConverter.EncodedRoute | src/main/java/net/ukrcom/dhcprouteconverter/DhcpOptionConverter.java:91-136 | a pair the converter accepts gives a route of decoded shape |
| OptionConverter.MaskedRoute | src/main/java/net/ukrcom/dhcprouteconverter/DhcpOptionConverter.java:116-162 | after the length check, an accepted gateway and significant octets give a decoded route |
| OptionConverter.MaskedHex | src/main/java/net/ukrcom/dhcprouteconverter/DhcpOptionConverter.java:144-174 | the text is empty exactly when that part of the conversion rejects the pair |
| OptionConverter.RouteHex | src/main/java/net/ukrcom/dhcprouteconverter/DhcpOptionConverter.java:93-161 | convertToHexRoute returns "" exactly on one of its error paths |
| OptionConverter.AcceptedRoutes | src/main/java/net/ukrcom/dhcprouteconverter/DhcpOptionConverter.java:63-68 | the routes the aggregate keeps all have decoded shape |
| OptionConverter.DhcpOptionConverter.constructor | src/main/java/net/ukrcom/dhcprouteconverter/DhcpOptionConverter.java:35-38 | a new converter has seen no route and no default route |
| OptionConverter.DhcpOptionConverter.HasDefaultRoute | src/main/java/net/ukrcom/dhcprouteconverter/DhcpOptionConverter.java:260-262 | true exactly when some network converted so far had a prefix length of 0 |
| OptionConverter.DhcpOptionConverter.ConvertToHexRoute | src/main/java/net/ukrcom/dhcprouteconverter/DhcpOptionConverter.java:89-175 | returns the route's record text, or "" on an error; sets the default-route flag for a prefix length 0 network that passes the length check |
| OptionConverter.DhcpOptionConverter.AggregateHex | src/main/java/net/ukrcom/dhcprouteconverter/DhcpOptionConverter.java:62-68 | the loop concatenates every pair's route text in order and converts each network once |
| OptionConverter.DhcpOptionConverter.GenerateDhcpOptions | src/main/java/net/ukrcom/dhcprouteconverter/DhcpOptionConverter.java:52-80 | lists of different sizes give nothing and convert nothing; otherwise the aggregate is rendered in the chosen format |
| OptionConverter.DhcpOptionConverter.ParseDhcpOptions | src/main/java/net/ukrcom/dhcprouteconverter/DhcpOptionConverter.java:183-253 | one line per record read, stopping at the first record that cannot be read |
| OptionConverter.EncodeMasked | src/main/java/net/ukrcom/dhcprouteconverter/DhcpOptionConverter.java:116-174 | the code after the length check computes the specified record text or "" |
| OptionConverter.ReadGatewayOctets | src/main/java/net/ukrcom/dhcprouteconverter/DhcpOptionConverter.java:124-136 | the gateway array is filled exactly when all four fields are bytes, with their values |
| OptionConverter.WriteRecord | src/main/java/net/ukrcom/dhcprouteconverter/DhcpOptionConverter.java:145-167 | the length, the significant octets and the gateway in `%02x`, or nothing when a network octet is not a byte |
| OptionConverter.DecodedIsNormal | src/main/java/net/ukrcom/dhcprouteconverter/DhcpOptionConverter.java:211 | a decoded route already has zero host octets |
| OptionConverter.EncodeThenDecode | src/main/java/net/ukrcom/dhcprouteconverter/DhcpOptionConverter.java:208-242 | the text of an accepted pair reads back as exactly its route, leaving what follows |
| OptionConverter.QuadTextGroups | src/main/java/net/ukrcom/dhcprouteconverter/DhcpOptionConverter.java:247-248 | a printed gateway matches the address pattern and its fields read back as its octets |
| OptionConverter.NetworkTextGroups | src/main/java/net/ukrcom/dhcprouteconverter/DhcpOptionConverter.java:245-246 | a printed network matches the CIDR pattern with its prefix length |
| OptionConverter.LeadingTexts | src/main/java/net/ukrcom/dhcprouteconverter/DhcpOptionConverter.java:150-152 | the first printed octets read back as those octets |
| OptionConverter.DecodeThenEncode | src/main/java/net/ukrcom/dhcprouteconverter/DhcpOptionConverter.java:245-249 | converting a decoded line again gives the same route and the same record text |
| OptionConverter.RecordsHexSnoc | src/main/java/net/ukrcom/dhcprouteconverter/DhcpOptionConverter.java:65-66 | one more record extends the payload by its text |
| OptionConverter.PayloadIsRecords | src/main/java/net/ukrcom/dhcprouteconverter/DhcpOptionConverter.java:62-68 | the aggregate is exactly the records of the accepted routes, in order |
| OptionConverter.NormalizeAllDecoded | src/main/java/net/ukrcom/dhcprouteconverter/DhcpOptionConverter.java:208-225 | routes in decoded shape are their own normal form |
| OptionConverter.PayloadRoundTrip | src/main/java/net/ukrcom/dhcprouteconverter/DhcpOptionConverter.java:63-72 | decoding the aggregate gives back exactly the accepted routes |
| OptionConverter.GeneratedNeverThrows | src/main/java/net/ukrcom/dhcprouteconverter/DhcpOptionConverter.java:78-79 | the formatter never throws on an aggregate the converter built, in any format |
| OptionConverter.HostFieldsUnread | src/main/java/net/ukrcom/dhcprouteconverter/DhcpOptionConverter.java:149-162 | network fields past the prefix never change the route text |
| OptionConverter.DefaultInSnoc | src/main/java/net/ukrcom/dhcprouteconverter/DhcpOptionConverter.java:112-114 | one more network leaves a default route seen exactly when it was seen before or this one is one |
| OutputFormatter.ParseHexToRoutes | src/main/java/net/ukrcom/dhcprouteconverter/OutputFormatter.java:135-195 | throws exactly when the ISC decoder throws; otherwise one line per route the newer converter decodes |
| OutputFormatter.FormatDhcpOptions | src/main/java/net/ukrcom/dhcprouteconverter/OutputFormatter.java:37-127 | the lines produced are the rendering specified for the format, pool names and option 249 flag |
| OutputFormatter.PlainOptions | src/main/java/net/ukrcom/dhcprouteconverter/OutputFormatter.java:91-121 | the non-ISC cases build their optional pool line and one line per option |
| OutputFormatter.IscRoute | src/main/java/net/ukrcom/dhcprouteconverter/OutputFormatter.java:61-74 | re-splitting a route line gives the route's ISC entry |
| OutputFormatter.IscRouteFields | src/main/java/net/ukrcom/dhcprouteconverter/OutputFormatter.java:65-74 | the length, the significant destination octets and the gateway octets, comma separated |
| OutputFormatter.IscRouteTexts | src/main/java/net/ukrcom/dhcprouteconverter/OutputFormatter.java:59 | one ISC entry per route |
| OutputFormatter.IscOptions | src/main/java/net/ukrcom/dhcprouteconverter/OutputFormatter.java:51-90 | the ISC case: the declarations, then each option set to every route's entry, or the decoder's exception |
| OutputFormatter.IscValues | src/main/java/net/ukrcom/dhcprouteconverter/OutputFormatter.java:56-89 | the entry loop joins the entries with commas into the option lines |
| OutputFormatter.Format | src/main/java/net/ukrcom/dhcprouteconverter/OutputFormatter.java:203-209 | each option followed by a newline, in order |
| OutputFormatter.NewlineTerminatedSplits | src/main/java/net/ukrcom/dhcprouteconverter/OutputFormatter.java:206 | splitting the output at newlines gives the options back |
| OutputFormatter.NewlineTerminatedLength | src/main/java/net/ukrcom/dhcprouteconverter/OutputFormatter.java:204-208 | the output is as long as the options plus one newline each |
| OutputFormatter.RenderedLineCount | src/main/java/net/ukrcom/dhcprouteconverter/OutputFormatter.java:40-124 | no lines for an empty payload; otherwise 2 or 4 for ISC, 2 or 3 for Cisco and 1 or 2 otherwise, as option 249 is asked for |
| OutputFormatter.Option249Appends | src/main/java/net/ukrcom/dhcprouteconverter/OutputFormatter.java:94-97 | outside ISC, asking for option 249 appends its line and changes nothing else |
| OutputFormatter.IscOption249 | src/main/java/net/ukrcom/dhcprouteconverter/OutputFormatter.java:52-57 | ISC's option 249 declaration and values follow option 121's and carry the same routes |
| OutputFormatter.PlainLinesCarryPayload | src/main/java/net/ukrcom/dhcprouteconverter/OutputFormatter.java:92-120 | every option line outside ISC ends with the payload as given |
| OutputFormatter.JunosPoolNameOnly | src/main/java/net/ukrcom/dhcprouteconverter/OutputFormatter.java:99-108 | only JunOS output depends on the JunOS pool name |
| OutputFormatter.CiscoPoolNameOnly | src/main/java/net/ukrcom/dhcprouteconverter/OutputFormatter.java:109-115 | only Cisco output depends on the Cisco pool name |
| OutputFormatter.IscOnHexDigits | src/main/java/net/ukrcom/dhcprouteconverter/OutputFormatter.java:165-183 | a payload of hex digits renders without an exception in every format |
| OutputFormatter.IscThrowsOnBadOctet | src/main/java/net/ukrcom/dhcprouteconverter/OutputFormatter.java:170 | a non-hex destination or gateway byte in the first record makes the ISC case throw |
| OutputFormatter.IscFieldListOfBytes | src/main/java/net/ukrcom/dhcprouteconverter/OutputFormatter.java:59-85 | the ISC values are the payload's bytes in decimal, comma separated |
| OutputFormatter.IscFieldsOfRecordsHex | src/main/java/net/ukrcom/dhcprouteconverter/OutputFormatter.java:58-85 | on an aggregate payload ISC decodes without throwing, and its values are the payload's bytes |
| OutputFormatter.IscOfRecordsHex | src/main/java/net/ukrcom/dhcprouteconverter/OutputFormatter.java:51-89 | the ISC rendering of an aggregate is its declarations and the payload's bytes in decimal |
| OutputFormatter.NormalizedEncodable | src/main/java/net/ukrcom/dhcprouteconverter/OutputFormatter.java:187-191 | normalised routes can still be written and printed |
| RouteConverter.OctetPatternValue | src/main/java/net/ukrcom/dhcprouteconverter/DhcpRouteConverter.java:25-30 | an octet matches IP_REGEX exactly when it has one to three digits and a value of at most 255 |
| RouteConverter.ParseDigits | src/main/java/net/ukrcom/dhcprouteconverter/DhcpRouteConverter.java:208 | a run of digits in int range parses to its value |
| RouteConverter.OctetValue | src/main/java/net/ukrcom/dhcprouteconverter/DhcpRouteConverter.java:239 | an octet that matches the pattern parses to a byte |
| RouteConverter.OctetValues | src/main/java/net/ukrcom/dhcprouteconverter/DhcpRouteConverter.java:243-245 | one byte per matched octet |
| RouteConverter.IpSplit | src/main/java/net/ukrcom/dhcprouteconverter/DhcpRouteConverter.java:222-223 | splitting a matched address on "." keeps every piece |
| RouteConverter.Unsigned | src/main/java/net/ukrcom/dhcprouteconverter/DhcpRouteConverter.java:501 | `Integer.toHexString` reads the two's-complement value, which has the same low byte |
| RouteConverter.HexString | src/main/java/net/ukrcom/dhcprouteconverter/DhcpRouteConverter.java:501 | the hex text of a number is never empty |
| RouteConverter.HexStringLast | src/main/java/net/ukrcom/dhcprouteconverter/DhcpRouteConverter.java:502 | the last hex digit is the low nibble |
| RouteConverter.LastTwoIsLowByte | src/main/java/net/ukrcom/dhcprouteconverter/DhcpRouteConverter.java:502 | padding or cutting to two digits gives the low byte in `%02x` |
| RouteConverter.ToHexIsLowByte | src/main/java/net/ukrcom/dhcprouteconverter/DhcpRouteConverter.java:497-503 | `toHex` writes the low byte of any int as two lower-case digits |
| RouteConverter.ToHexOfByte | src/main/java/net/ukrcom/dhcprouteconverter/DhcpRouteConverter.java:236-244 | on a byte `toHex` agrees with the newer converter's `%02x` |
| RouteConverter.Admitted | src/main/java/net/ukrcom/dhcprouteconverter/DhcpRouteConverter.java:199-220 | a kept pair has a length from 0 to 32 and a network and gateway that match IP_REGEX |
| RouteConverter.KeptRoute | src/main/java/net/ukrcom/dhcprouteconverter/DhcpRouteConverter.java:222-245 | a kept pair denotes a decoded route with its prefix length |
| RouteConverter.PairHex | src/main/java/net/ukrcom/dhcprouteconverter/DhcpRouteConverter.java:247 | a pair adds text to the payload exactly when it is kept |
| RouteConverter.LadderIsSignificant | src/main/java/net/ukrcom/dhcprouteconverter/DhcpRouteConverter.java:225-234 | the if-ladder counts the significant octets RFC 3442 puts on the wire |
| RouteConverter.ConvertPair | src/main/java/net/ukrcom/dhcprouteconverter/DhcpRouteConverter.java:196-247 | one loop pass keeps the specified entries and appends the specified text |
| RouteConverter.OctetsHex | src/main/java/net/ukrcom/dhcprouteconverter/DhcpRouteConverter.java:237-240 | the first octets through `toHex` give their `%02x` text |
| RouteConverter.HexBytesSnoc | src/main/java/net/ukrcom/dhcprouteconverter/DhcpRouteConverter.java:238-240 | one more octet appends its hex |
| RouteConverter.KeptRecord | src/main/java/net/ukrcom/dhcprouteconverter/DhcpRouteConverter.java:247 | the length, destination and router text make the record of the kept route |
| RouteConverter.PairCount | src/main/java/net/ukrcom/dhcprouteconverter/DhcpRouteConverter.java:195 | the loop reads no further than either list's end |
| RouteConverter.KeptOf | src/main/java/net/ukrcom/dhcprouteconverter/DhcpRouteConverter.java:255-257 | every entry the loop stores is valid |
| RouteConverter.Masks | src/main/java/net/ukrcom/dhcprouteconverter/DhcpRouteConverter.java:255 | maskList holds each kept prefix length in order |
| RouteConverter.Destinations | src/main/java/net/ukrcom/dhcprouteconverter/DhcpRouteConverter.java:256 | destinationList holds each kept network address in order |
| RouteConverter.Routers | src/main/java/net/ukrcom/dhcprouteconverter/DhcpRouteConverter.java:257 | routerList holds each kept gateway in order |
| RouteConverter.KeptRoutes | src/main/java/net/ukrcom/dhcprouteconverter/DhcpRouteConverter.java:222-248 | one decoded route per kept entry |
| RouteConverter.Aggregate | src/main/java/net/ukrcom/dhcprouteconverter/DhcpRouteConverter.java:195-258 | the loop builds the specified payload and the three lists |
| RouteConverter.ConvertNext | src/main/java/net/ukrcom/dhcprouteconverter/DhcpRouteConverter.java:196-257 | one pass extends the payload and the lists by the next pair's contribution |
| RouteConverter.GenerateDhcpOptions | src/main/java/net/ukrcom/dhcprouteconverter/DhcpRouteConverter.java:186-287 | nothing when no pair is kept; otherwise the switch's lines for the format |
| RouteConverter.FormatOptions | src/main/java/net/ukrcom/dhcprouteconverter/DhcpRouteConverter.java:265-284 | each format renders through its own helper |
| RouteConverter.FormatIsc | src/main/java/net/ukrcom/dhcprouteconverter/DhcpRouteConverter.java:311-344 | both declarations, then both options set to every route's entry as the source's count writes it, ", " between entries and ";" at the end |
| RouteConverter.IscEntryText | src/main/java/net/ukrcom/dhcprouteconverter/DhcpRouteConverter.java:319-336 | the loop body writes one route's ISC entry: the prefix length, as many destination octets as the ladder at line 321 counts (one for a prefix length of 0), then the gateway octets |
| RouteConverter.IscEntries | src/main/java/net/ukrcom/dhcprouteconverter/DhcpRouteConverter.java:318 | one entry per stored route, each as formatIsc writes it |
| RouteConverter.IscAppend | src/main/java/net/ukrcom/dhcprouteconverter/DhcpRouteConverter.java:323-326 | appending ", " and the next entry extends the join of the entries |
| RouteConverter.KeptFit | src/main/java/net/ukrcom/dhcprouteconverter/DhcpRouteConverter.java:319-330 | every stored destination has the octets formatIsc reads |
| RouteConverter.LegacyDecode | src/main/java/net/ukrcom/dhcprouteconverter/DhcpRouteConverter.java:409-423 | the older decoder's routes are printable |
| RouteConverter.ParseDhcpOptions | src/main/java/net/ukrcom/dhcprouteconverter/DhcpRouteConverter.java:407-495 | nothing for null or non-hex text; otherwise one line per record read |
| RouteConverter.ReadRoutes | src/main/java/net/ukrcom/dhcprouteconverter/DhcpRouteConverter.java:427-492 | the older loop decodes exactly as the newer converter does |
| RouteConverter.DefaultAgrees | src/main/java/net/ukrcom/dhcprouteconverter/DhcpRouteConverter.java:296-301 | formatDefault prints what the newer renderer prints with option 249 |
| RouteConverter.RouterOsAgrees | src/main/java/net/ukrcom/dhcprouteconverter/DhcpRouteConverter.java:352-357 | formatRouterOs prints what the newer renderer prints with option 249 |
| RouteConverter.JunosAgrees | src/main/java/net/ukrcom/dhcprouteconverter/DhcpRouteConverter.java:366-371 | formatJunos prints what the newer renderer prints with option 249 and the same pool |
| RouteConverter.CiscoAgrees | src/main/java/net/ukrcom/dhcprouteconverter/DhcpRouteConverter.java:379-385 | formatCisco prints what the newer renderer prints with option 249 and the fixed pool name |
| RouteConverter.WindowsAgrees | src/main/java/net/ukrcom/dhcprouteconverter/DhcpRouteConverter.java:393-398 | formatWindows prints what the newer renderer prints with option 249 |
| RouteConverter.IscCountIsSignificant | src/main/java/net/ukrcom/dhcprouteconverter/DhcpRouteConverter.java:321 | the corrected count equals RFC 3442's significant octets; the count as written agrees for every positive prefix length |
| RouteConverter.IscEntryCarriesRecord | src/main/java/net/ukrcom/dhcprouteconverter/DhcpRouteConverter.java:327-336 | the corrected ISC entry holds exactly the route's wire record, field by field, in decimal |
| RouteConverter.IscDefaultRouteAsWritten | src/main/java/net/ukrcom/dhcprouteconverter/DhcpRouteConverter.java:321-332 | for a default route, the entry as written is "0", the first destination octet and the gateway octets: one field more than the wire record, which is 0 and the gateway |
| RouteConverter.IscDefaultRouteExample | src/main/java/net/ukrcom/dhcprouteconverter/DhcpRouteConverter.java:321-336 | the default route via 10.0.0.1 is written "0,0,10,0,0,1"; the corrected entry is "0,10,0,0,1" |
| RouteConverter.IscEntryAsWrittenAgrees | src/main/java/net/ukrcom/dhcprouteconverter/DhcpRouteConverter.java:321 | for every prefix length from 1 to 32 the entry as written equals the corrected entry |
| RouteConverter.IscEntriesCarryRecords | src/main/java/net/ukrcom/dhcprouteconverter/DhcpRouteConverter.java:318-336 | when no kept route is a default route, every entry formatIsc writes holds exactly that route's wire record, in decimal |
| RouteConverter.AggregateIsRecords | src/main/java/net/ukrcom/dhcprouteconverter/DhcpRouteConverter.java:247-248 | the older payload is exactly the records of the kept routes |
| RouteConverter.GeneratedRoundTrip | src/main/java/net/ukrcom/dhcprouteconverter/DhcpRouteConverter.java:188-258 | the older decoder reads the older payload back as the kept routes, in order |
| RouteConverter.UnpairedIgnored | src/main/java/net/ukrcom/dhcprouteconverter/DhcpRouteConverter.java:195 | entries past the end of the other list change nothing |
| RouteConverter.SamePrefixSameKept | src/main/java/net/ukrcom/dhcprouteconverter/DhcpRouteConverter.java:196-197 | the first n passes read only the first n pairs |
| RouteConverter.ShortFieldValue | src/main/java/net/ukrcom/dhcprouteconverter/DhcpOptionConverter.java:127 | a field of one to three digits parses to the value its digits write |
| RouteConverter.OctetsAgree | src/main/java/net/ukrcom/dhcprouteconverter/DhcpRouteConverter.java:26-29 | IP_REGEX's octet accepts exactly the fields the newer converter reads as bytes, with the same values |
| RouteConverter.CidrSplit | src/main/java/net/ukrcom/dhcprouteconverter/DhcpRouteConverter.java:199-203 | a network the newer pattern matches splits on "/" into its two groups |
| RouteConverter.NewerAgrees | src/main/java/net/ukrcom/dhcprouteconverter/DhcpRouteConverter.java:199-247 | a pair the newer converter accepts, with network octets at most 255, is kept by the older one as the same route |
| RouteConverter.CleanedOfLowerHex | src/main/java/net/ukrcom/dhcprouteconverter/DhcpRouteConverter.java:414-418 | a lower-case payload, with or without "0x", cleans to itself |
| RouteConverter.LegacyOfCleaned | src/main/java/net/ukrcom/dhcprouteconverter/DhcpRouteConverter.java:420-427 | hex text that passes the pattern decodes as the newer converter decodes it |
| RouteConverter.LegacyRoundTrip | src/main/java/net/ukrcom/dhcprouteconverter/DhcpRouteConverter.java:407-495 | an aggregate, with or without "0x", decodes to its routes |
| RouteConverter.CaseBlind | src/main/java/net/ukrcom/dhcprouteconverter/DhcpRouteConverter.java:415 | upper- and lower-case payloads decode alike |
| RouteConverter.LowerTwice | src/main/java/net/ukrcom/dhcprouteconverter/DhcpRouteConverter.java:415-416 | lower-casing is idempotent |
| OutputFormats.OutputFormat.Render | src/main/java/net/ukrcom/dhcprouteconverter/outputFormat/outputFormatAbstract.java:53-57 | the rendering constructor stores the payload, the option 249 flag and the pool name, and leaves the apply fields null |
| OutputFormats.OutputFormat.Apply | src/main/java/net/ukrcom/dhcprouteconverter/outputFormat/outputFormatAbstract.java:67-73 | the apply constructor stores the configuration, credentials and method, and leaves the rendering fields unset |
| OutputFormats.OutputFormat.FormatDhcpOptions | src/main/java/net/ukrcom/dhcprouteconverter/outputFormat/outputFormatAbstract.java:80-87 | each class renders its own lines, and the base class renders none |
| OutputFormats.OutputFormat.GetConfig | src/main/java/net/ukrcom/dhcprouteconverter/outputFormat/outputFormatAbstract.java:96-100 | classes other than JUNOS read no pools from a router |
| OutputFormats.AbstractNoLines | src/main/java/net/ukrcom/dhcprouteconverter/outputFormat/outputFormatAbstract.java:82-86 | the base class renders nothing, whatever the payload |
| OutputFormats.EmptyPayloadNoLines | src/main/java/net/ukrcom/dhcprouteconverter/outputFormat/DEFAULT.java:44-47 | an empty payload renders as no lines in every class |
| OutputFormats.DefaultAgrees | src/main/java/net/ukrcom/dhcprouteconverter/outputFormat/DEFAULT.java:43-53 | DEFAULT renders as OutputFormatter's DEFAULT case |
| OutputFormats.IscAgrees | src/main/java/net/ukrcom/dhcprouteconverter/outputFormat/ISC.java:36-83 | ISC renders as OutputFormatter's ISC case, exception included |
| OutputFormats.RouterOsAgrees | src/main/java/net/ukrcom/dhcprouteconverter/outputFormat/ROUTEROS.java:42-61 | ROUTEROS renders as OutputFormatter's ROUTEROS case |
| OutputFormats.JunosAgrees | src/main/java/net/ukrcom/dhcprouteconverter/outputFormat/JUNOS.java:68-89 | JUNOS renders as OutputFormatter's JUNOS case with its pool name |
| OutputFormats.ClassesAgree | src/main/java/net/ukrcom/dhcprouteconverter/outputFormat/ISC.java:37-41 | every concrete class renders as OutputFormatter does for its format |
| OutputFormats.ClassLineCount | src/main/java/net/ukrcom/dhcprouteconverter/outputFormat/ROUTEROS.java:49-58 | a non-empty payload gives 1 or 2 lines, or 2 or 4 for ISC, as option 249 is asked for |
| OutputFormats.PoolNameOnlyForJunos | src/main/java/net/ukrcom/dhcprouteconverter/outputFormat/JUNOS.java:75-85 | only JUNOS output depends on the pool name |
| OutputFormats.RouterOsPrefixes | src/main/java/net/ukrcom/dhcprouteconverter/outputFormat/ROUTEROS.java:50-55 | ROUTEROS's two line prefixes are OutputFormatter's |
| OutputFormats.JunosPrefixes | src/main/java/net/ukrcom/dhcprouteconverter/outputFormat/JUNOS.java:76-82 | JUNOS's two line prefixes are OutputFormatter's |
| OutputFormats.NetconfPoolName | src/main/java/net/ukrcom/dhcprouteconverter/outputFormat/JUNOS.java:235-245 | the pool name stands right after the `<name>` opening, and nothing after it depends on the name |
| OutputFormats.NetconfOption121 | src/main/java/net/ukrcom/dhcprouteconverter/outputFormat/JUNOS.java:246-252 | the option 121 element, with the payload as given, opens the DHCP attributes |
| OutputFormats.NetconfOption249Inserted | src/main/java/net/ukrcom/dhcprouteconverter/outputFormat/JUNOS.java:253-257 | option 249 inserts its element, with the same payload, right after option 121 and changes nothing else |

## Left out

- The command line: `Main`, the argument parser and the help text are not part of this model.
- Printing is left out: the debug lines on standard output and the error lines on
  standard error. Each error path is modelled by its effect.
- `OptionConverter.DhcpOptionConverter.ConvertToHexRoute`: the `debugMode` field is
  kept, but the lines it prints are not modelled.
- `OutputFormats.OutputFormat.GetConfig` is not modelled for JUNOS. JUNOS's
  `getConfig`, `parseNetconfResponse` and `applyConfig` talk to a router over
  NETCONF and SSH. Its `applyConfig` body is commented out in the source. The request
  those calls would send is modelled as `BuildNetconfEditRequest`.
- `applyConfig` of the base class and `OutputFormatter.apply` only print to standard
  error, so neither is modelled.
- `getConfig` takes a `RouterDeviceConfig` argument that it never reads. The argument
  is dropped.
- The parser stored by the apply constructor is never read by the modelled code. The
  field is dropped.
- `outputFormatInterface`, `JunosOutputFormatter` and the `ApplyMethod` enumeration
  add no behaviour. `ApplyMethod` is kept as a name.
- Java's `toLowerCase` is modelled for ASCII letters only. Other characters cannot pass
  the hex pattern that follows it, so the decoder's result does not depend on how
  they are lowered.
- `Hex.ParseHexPair`: accepts only two hex digits. Java's `Integer.parseInt(s, 16)`
  would also accept a sign, as in "+f" or "-1". A field like that turns up only in a
  payload that is not hex, and the model rejects it.
- `Hex.HexDigitValue`: models `Character.digit(c, 16)` for ASCII characters only.
  Java also reads other Unicode decimal digits, such as Arabic-Indic digits, and the
  fullwidth letters A-F and a-f as hex digits. For a payload holding such characters,
  `parseHexToRoutes` in Java returns a route where the model throws
  `NumberFormatException`, and the newer decoder in Java reads a record where the model
  stops.
- Payloads are modelled as strings of characters from the Basic Multilingual Plane.
  Java counts `length()` and `substring` in UTF-16 code units, while a Dafny `char` is a
  whole Unicode scalar value. A character outside that plane is two code units in Java
  and one character here, so the two would disagree on offsets and on truncation.
- A null payload passed to `formatDhcpOptions` or to the output classes is not
  modelled, because every caller passes a string.
- `OutputFormatter.FormatDhcpOptions`: the `default` branch, which throws
  `AssertionError`, is unreachable for the six formats and is not modelled.
- `OutputFormats.NetconfPoolName` states where the pool name sits in the request.
  It does not state that the name occurs exactly once, because a pool name may itself
  contain the surrounding tags.
- `RouteConverter.FormatIsc` follows the source's count, so for a default route it
  writes one destination octet that the payload does not carry; see Findings. That its
  entries hold the wire records is therefore proved only for routes other than the
  default route (`RouteConverter.IscEntriesCarryRecords`).
- `RouteConverter.PairCount` is the length of the shorter list. This is the bound of
  the loop condition at DhcpRouteConverter.java:195.
- In `RouteConverter.GenerateDhcpOptions`, the `debug` flag only prints, so it has
  no effect in the model.

## Findings

| source | as written | input that shows it | evidently intended | confidence | as-written member | corrected member |
|---|---|---|---|---|---|---|
| src/main/java/net/ukrcom/dhcprouteconverter/DhcpRouteConverter.java:321 | formatIsc counts one destination octet for every prefix length up to 8, including 0 | networks ["0.0.0.0/0"], gateways ["10.0.0.1"] in ISC format give the entry "0,0,10,0,0,1" | no destination octets for a default route, as the payload has them and as RFC 3442 encodes a default route: "0,10,0,0,1" | not executed | RouteConverter.IscDefaultRouteAsWritten | RouteConverter.IscEntryCarriesRecord |
