/**
 * Code the reply builder calls but that lives outside the modelled file:
 * the NetBIOS name codec, the DNS type mnemonic table of the wire library,
 * and the admission policy. Each is an arbitrary function here, so every
 * property proved holds whatever they compute.
 */
module Collaborators {
  import opened Wrappers
  import opened Message

  datatype Library = Library(
    /** Hostname held in a first-level-encoded NetBIOS name. */
    decodeNetBIOSHostname: string -> string,
    /** Human-readable service label of the suffix byte of an encoded NetBIOS name. */
    decodeNetBIOSSuffix: string -> string,
    /** Locator payload naming an IPv4 address (`None` for a nil address). */
    encodeNetBIOSLocator: Option<IP> -> string,
    /** The library's mnemonic for a record type code ("A", "AAAA", ...). */
    typeString: uint16 -> string)

  /**
   * The responder's configuration as the reply builder reads it: the relay
   * addresses (absent when unset), the answer TTL in whole seconds, and the
   * admission policy over (normalised name, peer IP).
   */
  datatype Config = Config(
    relayIPv4: Option<IP>,
    relayIPv6: Option<IP>,
    ttlSeconds: uint32,
    shouldRespond: (string, IP) -> bool)
}
