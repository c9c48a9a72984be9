/** sendWOL (main.go:144-172): parse the address, build the packet, resolve the
    target, dial it, write one datagram and close the association. The network
    calls are oracles from `Platform.Env`; a ghost trace records the network
    actions in the order they happen. */
module Wol {
  import opened Base
  import opened Platform
  import Mac
  import MagicPacket

  /** A network action of sendWOL. */
  datatype Action =
    | Resolve(host: GoString, port: int)
    | Dial(addr: UdpAddr)
    | Write(conn: Conn, payload: seq<byte>)
    | Close(conn: Conn)

  /** The error sendWOL returns: the parser's or the network's, passed through unchanged. */
  datatype SendError = MacFailure(mac: Mac.MacError) | NetFailure(net: NetError)

  /** The returned error and the network actions taken. */
  datatype Outcome = Outcome(err: Option<SendError>, trace: seq<Action>)

  /** What sendWOL(mac, ip, port) returns and does when the platform answers as `env` does. */
  function Send(env: Env, mac: GoString, ip: GoString, port: int): Outcome
  {
    match Mac.Parsed(env.parseMac, mac)
    case Err(e) => Outcome(Some(MacFailure(e)), [])
    case Ok(hw) =>
      var packet := MagicPacket.Packet(hw);
      match env.resolve(ip, port)
      case Err(e) => Outcome(Some(NetFailure(e)), [Resolve(ip, port)])
      case Ok(addr) =>
        match env.dial(addr)
        case Err(e) => Outcome(Some(NetFailure(e)), [Resolve(ip, port), Dial(addr)])
        case Ok(conn) =>
          // the deferred Close runs after the write, whatever the write returned
          var trace := [Resolve(ip, port), Dial(addr), Write(conn, packet), Close(conn)];
          match env.write(conn, packet)
          case Some(e) => Outcome(Some(NetFailure(e)), trace)
          case None => Outcome(None, trace)
  }

  /** The error the platform answered to the action, if any. */
  function ErrorOf(env: Env, a: Action): Option<NetError>
  {
    match a
    case Resolve(host, port) => if env.resolve(host, port).Err? then Some(env.resolve(host, port).error) else None
    case Dial(addr) => if env.dial(addr).Err? then Some(env.dial(addr).error) else None
    case Write(conn, payload) => env.write(conn, payload)
    case Close(_) => None
  }

  predicate Failed(env: Env, a: Action)
  {
    ErrorOf(env, a).Some?
  }

  /** The position of each kind of action in the full sequence of sendWOL. */
  function Step(a: Action): nat
  {
    match a
    case Resolve(_, _) => 0
    case Dial(_) => 1
    case Write(_, _) => 2
    case Close(_) => 3
  }

  // ---------------------------------------------------------------------------
  // What sendWOL guarantees

  /** A parse failure returns the parser's error before any network action. */
  lemma BadMacTouchesNoNetwork(env: Env, mac: GoString, ip: GoString, port: int)
    requires Mac.Parsed(env.parseMac, mac).Err?
    ensures Send(env, mac, ip, port).trace == []
    ensures Send(env, mac, ip, port).err == Some(MacFailure(Mac.Parsed(env.parseMac, mac).error))
  {
  }

  /** The actions come in the order resolve, dial, write, close, each at most once; only a
      close follows a failed step, and only when that step was the write (the deferred Close). */
  lemma SendShortCircuits(env: Env, mac: GoString, ip: GoString, port: int)
    ensures var t := Send(env, mac, ip, port).trace;
      (forall i :: 0 <= i < |t| ==> Step(t[i]) == i) &&
      (forall i :: 0 <= i < |t| && Failed(env, t[i]) ==> i == |t| - 1 || t[i].Write?) &&
      (|t| > 0 ==> t[0] == Resolve(ip, port)) &&
      (|t| > 2 ==> |t| == 4 && t[3] == Close(t[2].conn))
  {
  }

  /** sendWOL reports success exactly when parsing, resolving, dialling and writing all
      succeed; a network error it reports is that of the first action that failed. */
  lemma SendSucceedsIff(env: Env, mac: GoString, ip: GoString, port: int)
    ensures var o := Send(env, mac, ip, port);
      (o.err == None <==>
         (Mac.Parsed(env.parseMac, mac).Ok? && |o.trace| == 4 &&
          forall i :: 0 <= i < |o.trace| ==> !Failed(env, o.trace[i]))) &&
      (forall e :: o.err == Some(NetFailure(e)) ==>
         exists i :: 0 <= i < |o.trace| && ErrorOf(env, o.trace[i]) == Some(e) &&
           forall j :: 0 <= j < i ==> !Failed(env, o.trace[j]))
  {
    var o := Send(env, mac, ip, port);
    if o.err.Some? && o.err.value.NetFailure? {
      var last := if |o.trace| == 4 then 2 else |o.trace| - 1;
      assert ErrorOf(env, o.trace[last]) == Some(o.err.value.net);
    }
  }

  /** Every association that was opened is closed, as the last action. */
  lemma EveryDialIsClosed(env: Env, mac: GoString, ip: GoString, port: int)
    ensures var t := Send(env, mac, ip, port).trace;
      forall i :: 0 <= i < |t| && t[i].Dial? && env.dial(t[i].addr).Ok? ==>
        t[|t| - 1] == Close(env.dial(t[i].addr).value)
  {
  }

  /** The one datagram written is the 102-byte magic packet of the parsed address, opening
      with six 0xFF bytes; for an address of at least six bytes it is followed by sixteen
      copies of its first six bytes. */
  lemma SendWritesMagicPacket(env: Env, mac: GoString, ip: GoString, port: int)
    ensures var t := Send(env, mac, ip, port).trace;
      forall i :: 0 <= i < |t| && t[i].Write? ==>
        var hw := Mac.Parsed(env.parseMac, mac).value;
        Mac.Parsed(env.parseMac, mac).Ok? &&
        |t[i].payload| == MagicPacket.PacketLen &&
        t[i].payload[..MagicPacket.SyncLen] == MagicPacket.Sync &&
        (|hw| >= 6 ==> t[i].payload == MagicPacket.Sync + MagicPacket.Repeat(hw[..6], MagicPacket.Copies))
  {
    var t := Send(env, mac, ip, port).trace;
    if Mac.Parsed(env.parseMac, mac).Ok? && |Mac.Parsed(env.parseMac, mac).value| >= 6 {
      MagicPacket.PacketShape(Mac.Parsed(env.parseMac, mac).value);
    }
  }

  // ---------------------------------------------------------------------------
  // sendWOL as the code runs it

  method SendWol(env: Env, mac: GoString, ip: GoString, port: int) returns (err: Option<SendError>, ghost trace: seq<Action>)
    ensures err == Send(env, mac, ip, port).err
    ensures trace == Send(env, mac, ip, port).trace
  {
    trace := [];
    var hw := Mac.ParseMac(env.parseMac, mac);
    if hw.Err? {
      return Some(MacFailure(hw.error)), trace;
    }

    var packet := MagicPacket.BuildPacket(hw.value);

    var addr := env.resolve(ip, port);
    trace := trace + [Resolve(ip, port)];
    if addr.Err? {
      return Some(NetFailure(addr.error)), trace;
    }

    var conn := env.dial(addr.value);
    trace := trace + [Dial(addr.value)];
    if conn.Err? {
      return Some(NetFailure(conn.error)), trace;
    }

    var w := env.write(conn.value, packet[..]);
    trace := trace + [Write(conn.value, packet[..]), Close(conn.value)];
    err := if w.Some? then Some(NetFailure(w.value)) else None;
  }
}
