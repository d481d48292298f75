/** IPLocator::createLocator, which joins kind, text and port, and what it rebuilds from the
    texts the printers give. */
module IPLocator {
  import opened IPv6Gate
  import opened IPv6Text
  import opened IPv6Meaning
  import opened IPv6Reader
  import opened IPv6Printer
  import opened IPv6Codec
  import opened Locators
  import IPv4
  import IPv4Numbers

  /** The address a text gives under a kind; texts that are refused leave zeros. */
  ghost function AddressFor(kind: int32, text: string): (b: seq<octet>)
    requires IsV6(kind) && Accepts(text) ==> StaysInside(text)
    ensures |b| == 16
  {
    if IsV4(kind) then IPv4.IPv4Outcome(kind, ZERO_ADDRESS, text).address
    else if IsV6(kind) && Accepts(text) then ReadText(text).address
    else ZERO_ADDRESS
  }

  method CreateLocator(kind: int32, address: string, port: uint32, locator: Locator)
    requires locator.Valid()
    requires IsV6(kind) && Accepts(address) ==> StaysInside(address)
    modifies locator, locator.address
    ensures locator.Valid() && locator.Value() == LocatorData(kind, port, AddressFor(kind, address))
    ensures kind !in [1, 2, 4, 8] ==> locator.address[..] == [0, 0, 0, 0, 0, 0, 0, 0, 0, 0, 0, 0, 0, 0, 0, 0]
  {
    hide ReadText, IPv4.IPv4Outcome, Accepts, StaysInside;
    locator.kind := kind;
    locator.port := port;
    locator.SetInvalidAddress();
    if kind == KIND_TCPv4 || kind == KIND_UDPv4 {
      var ok := IPv4.SetIPv4(locator, address);
    } else if kind == KIND_TCPv6 || kind == KIND_UDPv6 {
      var ok := SetIPv6(locator, address);
    }
  }

  /** createLocator ignores the flag, so a text with a port behind the address is stored. */
  lemma CreateTrailing()
    ensures AddressFor(KIND_UDPv4, "192.168.1.1:80") == [0, 0, 0, 0, 0, 0, 0, 0, 0, 0, 0, 0, 192, 168, 1, 1]
  {
    hide IPv4.IPv4Outcome;
    IPv4Numbers.TrailingPort(ZERO_ADDRESS);
  }

  /** An IPv6 locator is rebuilt from its printed address, alone or with a zone without a
      colon behind it. */
  lemma {:induction false} RecreateV6(l: LocatorValue, zone: string)
    requires IsV6(l.kind) && Tail(zone)
    ensures var text := CanonicalText(GroupsOf(l.address)) + zone;
      StaysInside(text) && AddressFor(l.kind, text) == l.address
  {
    hide ReadText, Accepts, StaysInside;
    RoundTrip(l.address, zone);
  }

  /** An IPv4 locator is rebuilt from its printed address exactly when it has neither a LAN
      identifier nor a WAN address: those bytes are not in the text. */
  lemma RecreateV4Iff(l: LocatorValue)
    requires IsV4(l.kind)
    ensures AddressFor(l.kind, IPv4.DottedText(l.address[12..])) == l.address <==>
            l.address[..12] == ZERO_ADDRESS[..12]
  {
    IPv4.IPv4RoundTrip(l.kind, ZERO_ADDRESS, l.address[12..]);
    assert l.address == l.address[..12] + l.address[12..];
    var b := ZERO_ADDRESS[..12] + l.address[12..];
    assert b[..12] == ZERO_ADDRESS[..12];
  }
}
