/** Decoded packets as the sniffer reports them, and the extraction of the
    hostnames they carry.  The packet is a nested tagged union, one layer per
    protocol; every layer delegates to the layer it wraps, and only the
    application layers (a TLS ClientHello, an HTTP request, a DNS request)
    contribute names.  Header fields the extraction never looks at are
    collapsed into `Dummy`. */
module Json {
  import opened Errors

  /** Which kind of traffic a hostname was observed in. */
  datatype Source = DNS | TLS | HTTP

  /** The short tag used in alert lines. */
  function AsStr(s: Source): (r: string)
    ensures |r| == 3 || |r| == 4
    ensures r == "dns" <==> s == Source.DNS
    ensures r == "tls" <==> s == Source.TLS
    ensures r == "http" <==> s == Source.HTTP
  {
    match s
    case DNS => "dns"
    case TLS => "tls"
    case HTTP => "http"
  }

  lemma AsStrInjective(a: Source, b: Source)
    ensures AsStr(a) == AsStr(b) <==> a == b
  {
  }

  /** A header whose fields are ignored. */
  datatype Dummy = Dummy

  datatype Pkt = Ether(header: Dummy, ip: IP)
  datatype IP = IPv4(header: Dummy, ipv4: IPv4)
  datatype IPv4 = TCP(header: Dummy, tcp: TCP) | UDP(header: Dummy, udp: UDP)
  datatype TCP = TLS(tls: TLS) | HTTP(http: HTTP)
  datatype TLS = ClientHello(hello: ClientHello)
  datatype ClientHello = ClientHello(hostname: string)
  datatype HTTP = HTTP(host: string)
  datatype UDP = DNS(dns: DNS)
  datatype DNS = Request(request: DNSRequest)
  /** Each question is a (record type, name) pair. */
  datatype DNSRequest = DNSRequest(questions: seq<(string, string)>)

  /** A hostname together with the traffic it was seen in. */
  type Name = (Source, string)

  /** The names carried by a DNS request: one per question, in question
      order, with the record type dropped. */
  function DNSRequestNames(req: DNSRequest): (r: seq<Name>)
    ensures |r| == |req.questions|
    ensures forall i :: 0 <= i < |r| ==> r[i] == (Source.DNS, req.questions[i].1)
    decreases |req.questions|
  {
    if req.questions == [] then []
    else [(Source.DNS, req.questions[0].1)] + DNSRequestNames(DNSRequest(req.questions[1..]))
  }

  function DNSNames(d: DNS): seq<Name> {
    match d
    case Request(req) => DNSRequestNames(req)
  }

  function UDPNames(u: UDP): seq<Name> {
    match u
    case DNS(d) => DNSNames(d)
  }

  function ClientHelloNames(ch: ClientHello): seq<Name> {
    [(Source.TLS, ch.hostname)]
  }

  function TLSNames(t: TLS): seq<Name> {
    match t
    case ClientHello(ch) => ClientHelloNames(ch)
  }

  function HTTPNames(h: HTTP): seq<Name> {
    [(Source.HTTP, h.host)]
  }

  function TCPNames(t: TCP): seq<Name> {
    match t
    case TLS(tls) => TLSNames(tls)
    case HTTP(http) => HTTPNames(http)
  }

  function IPv4Names(v: IPv4): seq<Name> {
    match v
    case TCP(_, tcp) => TCPNames(tcp)
    case UDP(_, udp) => UDPNames(udp)
  }

  function IPNames(ip: IP): seq<Name> {
    match ip
    case IPv4(_, v) => IPv4Names(v)
  }

  function PktNames(p: Pkt): seq<Name> {
    match p
    case Ether(_, ip) => IPNames(ip)
  }

  /** The application record a packet carries, with every layer below it
      peeled off. */
  datatype App = DnsQuery(req: DNSRequest) | TlsHello(ch: ClientHello) | HttpRequest(h: HTTP)

  function Innermost(p: Pkt): App {
    match p.ip.ipv4
    case TCP(_, TLS(ClientHello(ch))) => TlsHello(ch)
    case TCP(_, HTTP(h)) => HttpRequest(h)
    case UDP(_, DNS(Request(req))) => DnsQuery(req)
  }

  /** What each kind of application record contributes, written as one flat
      table over the innermost record. */
  function AppNames(a: App): seq<Name> {
    match a
    case DnsQuery(req) => seq(|req.questions|, i requires 0 <= i < |req.questions| => (Source.DNS, req.questions[i].1))
    case TlsHello(ch) => [(Source.TLS, ch.hostname)]
    case HttpRequest(h) => [(Source.HTTP, h.host)]
  }

  /** The layered extraction agrees with the flat table: the Ether, IP and
      IPv4 layers pass the inner list through unchanged, a DNS request
      yields one DNS name per question in order, a ClientHello exactly its
      hostname tagged TLS and an HTTP request exactly its host tagged HTTP. */
  lemma PktNamesByApp(p: Pkt)
    ensures PktNames(p) == AppNames(Innermost(p))
  {
    match p.ip.ipv4
    case TCP(_, _) =>
    case UDP(_, DNS(Request(req))) =>
      assert DNSRequestNames(req) == AppNames(DnsQuery(req));
  }

  /** The name list of a packet's transport layer: TCP carries only TLS or
      HTTP names, always exactly one; UDP carries only DNS names, one per
      question. */
  lemma SourceFollowsTransport(p: Pkt)
    ensures p.ip.ipv4.TCP? ==> |PktNames(p)| == 1 && PktNames(p)[0].0 != Source.DNS
    ensures p.ip.ipv4.UDP? ==> |PktNames(p)| == |p.ip.ipv4.udp.dns.request.questions|
    ensures forall i :: 0 <= i < |PktNames(p)| ==> (PktNames(p)[i].0 == Source.DNS <==> p.ip.ipv4.UDP?)
    ensures p.ip.ipv4.TCP? && p.ip.ipv4.tcp.TLS? ==> PktNames(p) == [(Source.TLS, p.ip.ipv4.tcp.tls.hello.hostname)]
    ensures p.ip.ipv4.TCP? && p.ip.ipv4.tcp.HTTP? ==> PktNames(p) == [(Source.HTTP, p.ip.ipv4.tcp.http.host)]
  {
  }

  /** A foreign JSON decoder: a line decodes to a packet or to nothing. */
  type Decoder = string -> Option<Pkt>

  /** Decoding a line either fails or yields one whole packet. */
  function Parse(line: string, decode: Decoder): (r: Result<Pkt>)
    ensures r.Ok? <==> decode(line).Some?
    ensures r.Ok? ==> r.value == decode(line).value
    ensures r.Err? ==> r.error.Decode?
  {
    match decode(line)
    case Some(p) => Ok(p)
    case None => Err(Decode("invalid packet json"))
  }

  /** The packets the repository's own tests decode and extract from. */
  function DnsExample(): Pkt {
    Ether(Dummy, IPv4(Dummy, UDP(Dummy, UDP.DNS(Request(DNSRequest([("A", "google.com")]))))))
  }

  function SniExample(): Pkt {
    Ether(Dummy, IPv4(Dummy, TCP(Dummy, TCP.TLS(TLS.ClientHello(ClientHello.ClientHello("google.com"))))))
  }

  function HttpExample(): Pkt {
    Ether(Dummy, IPv4(Dummy, TCP(Dummy, TCP.HTTP(HTTP.HTTP("google.com")))))
  }

  lemma ExtractExamples()
    ensures PktNames(DnsExample()) == [(Source.DNS, "google.com")]
    ensures PktNames(SniExample()) == [(Source.TLS, "google.com")]
    ensures PktNames(HttpExample()) == [(Source.HTTP, "google.com")]
  {
  }
}
