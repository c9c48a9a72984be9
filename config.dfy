/** The handler's configuration (main.go:25-29): the directive's arguments,
    the default-port rule and the checks made when the configuration loads. */
module Config {
  import opened Base
  import opened Platform
  import Mac
  import MagicPacket
  import Wol

  /** The well-known Wake-on-LAN port used when none is configured. */
  const DefaultPort := 9
  const MaxPort := 65535

  /** Why Validate rejects a configuration. */
  datatype ConfigError =
    | MissingMac                                          // "MAC must be specified"
    | InvalidMac(mac: GoString, parseError: Mac.MacError) // "invalid MAC %q: %w"
    | MissingIp                                           // "IP must be specified"
    | InvalidHost(host: GoString, resolveError: NetError) // "invalid IP/host %q: %w"
    | InvalidPort(port: int)                              // "invalid port %d"

  /** Why the directive's arguments are rejected. */
  datatype ArgError =
    | WrongArgCount(count: nat)   // d.ArgErr()
    | BadPortText(text: GoString) // "invalid port %q: %v"

  /** The WakeOnLAN handler's three fields. */
  datatype WakeOnLan = WakeOnLan(mac: GoString, ip: GoString, port: int)
  {
    /** portOrDefault (main.go:62-67): an unset (zero) port means port 9; any other
        value, in range or not, is used as it is. */
    function PortOrDefault(): (p: int)
      ensures port == 0 ==> p == DefaultPort
      ensures port != 0 ==> p == port
      ensures p != 0
    {
      if port == 0 then DefaultPort else port
    }

    /** The host check of main.go:50-55: an IP literal, or a name the resolver accepts
        together with the effective port. */
    predicate HostAcceptable(env: Env)
    {
      env.parseIp(ip) || env.resolve(ip, PortOrDefault()).Ok?
    }

    /** Validate (main.go:40-59). */
    function Validate(env: Env): (r: Option<ConfigError>)
      ensures r.None? <==>
        (mac != [] && Mac.Parsed(env.parseMac, mac).Ok? && ip != [] && HostAcceptable(env) &&
         0 <= port <= MaxPort)
    {
      if mac == [] then Some(MissingMac)
      else if Mac.Parsed(env.parseMac, mac).Err? then Some(InvalidMac(mac, Mac.Parsed(env.parseMac, mac).error))
      else if ip == [] then Some(MissingIp)
      else if !env.parseIp(ip) && env.resolve(ip, PortOrDefault()).Err? then
        Some(InvalidHost(ip, env.resolve(ip, PortOrDefault()).error))
      else if port < 0 || port > MaxPort then Some(InvalidPort(port))
      else None
    }
  }

  /** The argument rule of UnmarshalCaddyfile (main.go:80-92) for one directive line
      `wake_on_lan <mac> <ip> [port]`. */
  function FromArgs(env: Env, args: seq<GoString>): (r: Result<WakeOnLan, ArgError>)
    ensures r.Ok? <==> (2 <= |args| <= 3 && (|args| == 3 ==> env.atoi(args[2]).Some?))
    ensures r.Ok? ==> r.value.mac == args[0] && r.value.ip == args[1]
    ensures r.Ok? && |args| == 2 ==> r.value.port == 0
    ensures r.Ok? && |args| == 3 ==> Some(r.value.port) == env.atoi(args[2])
    ensures !(2 <= |args| <= 3) ==> r == Err(WrongArgCount(|args|))
  {
    if |args| < 2 || |args| > 3 then Err(WrongArgCount(|args|))
    else if |args| == 3 then
      match env.atoi(args[2])
      case None => Err(BadPortText(args[2]))
      case Some(p) => Ok(WakeOnLan(args[0], args[1], p))
    else Ok(WakeOnLan(args[0], args[1], 0))
  }

  // ---------------------------------------------------------------------------
  // What the configuration rules promise

  /** Validate reports the first failing check, in the order MAC present, MAC parses,
      IP present, host acceptable, port in range. */
  lemma ValidateReportsFirstFailure(w: WakeOnLan, env: Env)
    ensures w.mac == [] ==> w.Validate(env) == Some(MissingMac)
    ensures w.mac != [] && Mac.Parsed(env.parseMac, w.mac).Err? ==>
      w.Validate(env) == Some(InvalidMac(w.mac, Mac.Parsed(env.parseMac, w.mac).error))
    ensures w.mac != [] && Mac.Parsed(env.parseMac, w.mac).Ok? && w.ip == [] ==>
      w.Validate(env) == Some(MissingIp)
    ensures w.mac != [] && Mac.Parsed(env.parseMac, w.mac).Ok? && w.ip != [] && !w.HostAcceptable(env) ==>
      w.Validate(env) == Some(InvalidHost(w.ip, env.resolve(w.ip, w.PortOrDefault()).error))
    ensures w.mac != [] && Mac.Parsed(env.parseMac, w.mac).Ok? && w.ip != [] && w.HostAcceptable(env) &&
            !(0 <= w.port <= MaxPort) ==>
      w.Validate(env) == Some(InvalidPort(w.port))
  {
  }

  /** On an accepted configuration the effective port is a real UDP port. */
  lemma ValidPortInRange(w: WakeOnLan, env: Env)
    requires w.Validate(env).None?
    ensures 1 <= w.PortOrDefault() <= MaxPort
    ensures w.port == 0 ==> w.PortOrDefault() == DefaultPort
  {
  }

  /** A directive with two arguments configures port 0, which sends to port 9. */
  lemma TwoArgsUseDefaultPort(env: Env, mac: GoString, ip: GoString)
    ensures FromArgs(env, [mac, ip]) == Ok(WakeOnLan(mac, ip, 0))
    ensures FromArgs(env, [mac, ip]).value.PortOrDefault() == DefaultPort
  {
  }

  /** The send that ServeHTTP makes for an accepted configuration (main.go:72) never
      fails at the parse step: it always reaches the resolver, with a port in 1..65535,
      and when the address came from the fallback the written packet carries it sixteen times. */
  lemma ValidatedSendReachesNetwork(w: WakeOnLan, env: Env)
    requires w.Validate(env).None?
    ensures var o := Wol.Send(env, w.mac, w.ip, w.PortOrDefault());
      |o.trace| > 0 && o.trace[0] == Wol.Resolve(w.ip, w.PortOrDefault()) &&
      1 <= o.trace[0].port <= MaxPort
    ensures var o := Wol.Send(env, w.mac, w.ip, w.PortOrDefault());
      env.parseMac(w.mac).None? && |o.trace| == 4 ==>
        |Mac.Parsed(env.parseMac, w.mac).value| == 6 &&
        o.trace[2].payload == MagicPacket.Sync + MagicPacket.Repeat(Mac.Parsed(env.parseMac, w.mac).value, MagicPacket.Copies)
  {
    var hw := Mac.Parsed(env.parseMac, w.mac).value;
    if |hw| == 6 {
      MagicPacket.SixBytePacket(hw);
    }
  }
}
