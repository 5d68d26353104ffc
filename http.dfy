/** The checks the HTTP client applies to the configured `from` address and
    the IP version a response reports. The request itself is not modelled. */
module Http {
  import Wrappers

  // ------------------------------------------------------------ from header

  /** A character the header library accepts in a header value: a visible
      ASCII character, a space or a tab; a non-ASCII character is accepted as
      its UTF-8 bytes, which are all above 127. */
  predicate IsHeaderChar(c: char) {
    (' ' <= c && c != '\U{7F}') || c == '\t'
  }

  /** A character `to_str` accepts back: the header characters that are
      ASCII. */
  predicate IsVisibleAscii(c: char) {
    (' ' <= c < '\U{7F}') || c == '\t'
  }

  const InvalidHeaderValue: string := "failed to parse header value"
  const NonAscii: string := "from contains non ASCII characters failed to convert header to a str"

  function NoEmail(from: string): string {
    "doesnt look like an email address: " + from
  }

  /** `validate_from`: a valid header value, made of ASCII characters only,
      holding an '@' and a '.'. */
  function ValidateFrom(from: string): (r: Wrappers.Result<()>)
    ensures r.Ok? <==> (forall i :: 0 <= i < |from| ==> IsVisibleAscii(from[i])) && '@' in from && '.' in from
    ensures (exists i :: 0 <= i < |from| && !IsHeaderChar(from[i])) ==> r == Wrappers.Err(InvalidHeaderValue)
    ensures (forall i :: 0 <= i < |from| ==> IsHeaderChar(from[i]))
            && (exists i :: 0 <= i < |from| && !IsVisibleAscii(from[i]))
            ==> r == Wrappers.Err(NonAscii)
    ensures (forall i :: 0 <= i < |from| ==> IsVisibleAscii(from[i])) && ('@' !in from || '.' !in from)
            ==> r == Wrappers.Err(NoEmail(from))
  {
    if exists i :: 0 <= i < |from| && !IsHeaderChar(from[i]) then Wrappers.Err(InvalidHeaderValue)
    else if exists i :: 0 <= i < |from| && !IsVisibleAscii(from[i]) then Wrappers.Err(NonAscii)
    else if '@' !in from || '.' !in from then Wrappers.Err(NoEmail(from))
    else Wrappers.Ok(())
  }

  /** An ordinary address is accepted. */
  lemma PlainAddressAccepted()
    ensures ValidateFrom("foo@bar.de").Ok?
  {
    var s := "foo@bar.de";
    assert s[3] == '@' && s[7] == '.';
  }

  /** A domain alone is not an address. */
  lemma DomainAloneRejected()
    ensures ValidateFrom("bla.de") == Wrappers.Err(NoEmail("bla.de"))
  {
    var s := "bla.de";
    assert s[3] == '.';
  }

  /** An address with umlauts is rejected for its non-ASCII characters. */
  lemma UmlautRejected()
    ensures ValidateFrom("föo@bär.de") == Wrappers.Err(NonAscii)
  {
    var s := "föo@bär.de";
    assert !IsVisibleAscii(s[1]);
  }

  // ------------------------------------------------------------ IP version

  datatype SocketAddr = V4(address: string) | V6(address: string)

  datatype IpVersion = IPv4 | IPv6 | None

  /** The version of the address the response came from. */
  function IpVersionOf(remote: Wrappers.Option<SocketAddr>): (r: IpVersion)
    ensures r.None? <==> remote.None?
    ensures r.IPv4? <==> remote.Some? && remote.value.V4?
    ensures r.IPv6? <==> remote.Some? && remote.value.V6?
  {
    match remote
    case Some(V4(_)) => IPv4
    case Some(V6(_)) => IPv6
    case None => None
  }

  /** `Display` writes the variant's name: four characters, "IPv" and the
      family's digit for an address, "None" without one. */
  function Display(v: IpVersion): (r: string)
    ensures |r| == 4
    ensures r[..3] == "IPv" <==> !v.None?
    ensures v.IPv4? <==> r[3] == '4'
    ensures v.IPv6? <==> r[3] == '6'
  {
    match v
    case IPv4 => "IPv4"
    case IPv6 => "IPv6"
    case None => assert "None"[0] == 'N'; "None"
  }

  /** The displayed version tells whether there was an address and of which
      family. */
  lemma DisplayTellsFamily(a: Wrappers.Option<SocketAddr>, b: Wrappers.Option<SocketAddr>)
    ensures Display(IpVersionOf(a)) == Display(IpVersionOf(b))
        <==> a.Some? == b.Some? && (a.Some? ==> a.value.V4? == b.value.V4?)
  {
    assert "IPv4"[3] != "IPv6"[3];
    assert |"None"| == 4 && "None"[0] != "IPv4"[0];
  }
}
