/** The Go standard-library calls the plugin makes but whose code is not part of
    this model. Each is an oracle: a function supplied by the caller that gives
    the call's answer, so that the model fixes only what the plugin does with it. */
module Platform {
  import opened Base
  import Mac

  /** A resolved UDP endpoint (`*net.UDPAddr`). */
  datatype UdpAddr = UdpAddr(ip: seq<byte>, port: int)

  /** An open UDP association (`*net.UDPConn`): its remote end and a handle. */
  datatype Conn = Conn(remote: UdpAddr, handle: nat)

  /** An error returned by one of the network calls. */
  datatype NetError = NetError(message: GoString)

  datatype Env = Env(
    /** `net.ParseMAC(s)`. */
    parseMac: Mac.StandardParser,
    /** `net.ParseIP(s) != nil`. */
    parseIp: GoString -> bool,
    /** `net.ResolveUDPAddr("udp", net.JoinHostPort(host, strconv.Itoa(port)))`. */
    resolve: (GoString, int) -> Result<UdpAddr, NetError>,
    /** `net.DialUDP("udp", nil, addr)`. */
    dial: UdpAddr -> Result<Conn, NetError>,
    /** The error of `conn.Write(payload)`, `None` for success. */
    write: (Conn, seq<byte>) -> Option<NetError>,
    /** `strconv.Atoi(s)`. */
    atoi: GoString -> Option<int>)
}
