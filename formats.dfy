/**
 * The output formats of the converters. DhcpOptionConverter.Format and the older
 * DhcpRouteConverter.Format are two Java enums with the same six constants.
 */
module Formats {
  datatype Format = Default | Isc | RouterOs | Junos | Cisco | Windows
}
