/** Bonjour service instances as the controllers see them, and the
    `ResolvedService` record built when one resolves: field defaults, the
    dotted-decimal IP of the first advertised address, and the MAC address
    read back from the C lookup's zero-initialised buffer. */
module ResolvedServices {
  import opened Common
  import Utf8
  import Ipv4

  /** A Bonjour service instance, identified by name, type and domain
      (`serviceType` is the source's `type`, a Dafny keyword). The meta-query
      reports service types in this shape too: name "_http", type
      "_tcp.local.". */
  datatype NetService = NetService(name: string, serviceType: string, domain: string)

  /** A resolved service as listed by the service browser. */
  datatype ResolvedService = ResolvedService(
    host: string,
    domain: string,
    ipAddr: string,
    macAddr: string,
    owner: string,
    icon: string,
    name: string,
    serviceType: string,
    status: bool)

  /** What the MAC lookup for one IP did: its error code (only logged) and the
      bytes it wrote at the start of the caller's buffer. */
  datatype MacLookup = MacLookup(error: int, written: seq<byte>)

  /** Size of the character buffer handed to the MAC lookup. */
  const MacBufferSize: nat := 64

  /** The buffer after the lookup: zero-initialised, then overwritten from the
      start with what the lookup wrote. */
  function MacBuffer(written: seq<byte>): (buf: seq<byte>)
    ensures |buf| == MacBufferSize
    ensures forall i | 0 <= i < MacBufferSize :: buf[i] == (if i < |written| then written[i] else 0)
  {
    seq(MacBufferSize, i requires 0 <= i < MacBufferSize => if i < |written| then written[i] else 0)
  }

  /** The bytes of a C string held in `buf`: everything before the first NUL,
      or the whole buffer when it holds none. */
  function CString(buf: seq<byte>): (r: seq<byte>)
    ensures r <= buf && 0 !in r
    ensures |r| < |buf| ==> buf[|r|] == 0
  {
    if |buf| == 0 || buf[0] == 0 then []
    else [buf[0]] + CString(buf[1..])
  }

  /** The `macAddr` that the lookup leaves behind: the C string in the buffer
      decoded as UTF-8, or "" when that text is not UTF-8. */
  function MacString(lookup: MacLookup): (r: string)
    ensures var text := CString(MacBuffer(lookup.written));
      (Utf8.Decode(text).Some? ==> Utf8.Encode(r) == text) &&
      (Utf8.Decode(text).None? ==> r == "")
  {
    var text := CString(MacBuffer(lookup.written));
    match Utf8.Decode(text)
    case Some(s) => s
    case None => ""
  }

  /** The MAC address `resolveIP` records: the ping's and the lookup's error
      codes are only logged, so the lookup's buffer is read whatever they are.
      It is the encoding of a NUL-free prefix of what the lookup wrote, and ""
      when the lookup wrote nothing. */
  function ResolveIp(pingError: int, lookup: MacLookup): (mac: string)
    ensures 0 !in Utf8.Encode(mac)
    ensures Utf8.Encode(mac) <= lookup.written + seq(MacBufferSize, _ => 0 as byte)
    ensures |lookup.written| == 0 || lookup.written[0] == 0 ==> mac == ""
  {
    var buf := MacBuffer(lookup.written);
    assert buf <= lookup.written + seq(MacBufferSize, _ => 0 as byte);
    assert Utf8.Encode("") == [];
    assert Utf8.Decode([]) == Some("");
    MacString(lookup)
  }

  /** When the lookup writes a NUL-terminated UTF-8 text that fits the buffer,
      that text is the MAC address, whatever the error codes say. */
  lemma MacOfWrittenText(pingError: int, error: int, mac: string, rest: seq<byte>)
    requires 0 !in Utf8.Encode(mac) && |Utf8.Encode(mac)| < MacBufferSize
    ensures ResolveIp(pingError, MacLookup(error, Utf8.Encode(mac) + [0] + rest)) == mac
  {
    var text := Utf8.Encode(mac);
    var buf := MacBuffer(text + [0] + rest);
    assert buf[..|text|] == text;
    assert buf[|text|] == 0;
    CStringOfTerminated(buf, |text|);
    Utf8.DecodeEncode(mac);
  }

  /** The C string in a buffer whose first NUL is at `n` is the `n` bytes
      before it. */
  lemma {:induction false} CStringOfTerminated(buf: seq<byte>, n: nat)
    requires n < |buf| && buf[n] == 0 && 0 !in buf[..n]
    ensures CString(buf) == buf[..n]
  {
    if n > 0 {
      assert buf[0] in buf[..n];
      assert buf[1..][..n - 1] == buf[1..n];
      assert buf[..n] == [buf[0]] + buf[1..n];
      CStringOfTerminated(buf[1..], n - 1);
      assert buf[..n] == [buf[0]] + buf[1..n];
    }
  }

  /** `ResolvedService(service:)`: the record built from a resolved service,
      given the IPv4 addresses the resolution advertised, the ping's error code
      and the MAC lookup's outcome. */
  function Init(service: NetService, addresses: seq<Ipv4.Address>, pingError: int, lookup: MacLookup): (r: ResolvedService)
    ensures r.host == service.name && r.domain == service.domain && r.serviceType == service.serviceType
    ensures r.status
    ensures r.owner == "" && r.icon == "" && r.name == ""
    ensures |addresses| == 0 ==> r.ipAddr == "" && r.macAddr == ""
    ensures |addresses| > 0 ==> Ipv4.Parse(r.ipAddr) == Some(addresses[0])
    ensures |addresses| > 0 ==> r.macAddr == ResolveIp(pingError, lookup)
  {
    var blank := ResolvedService(service.name, service.domain, "", "", "", "", "", service.serviceType, true);
    if |addresses| == 0 then blank
    else
      var ip := Ipv4.Render(addresses[0]);
      blank.(ipAddr := ip, macAddr := ResolveIp(pingError, lookup))
  }
}
