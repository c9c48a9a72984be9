/** Concrete cases: the address 10:ff:e0:cf:e6:0e in its three spellings, a
    malformed address, a send with the default port and an out-of-range port. */
module Scenarios {
  import opened Base
  import opened Platform
  import Mac
  import MagicPacket
  import Wol
  import Config

  const Example: seq<byte> := [0x10, 0xff, 0xe0, 0xcf, 0xe6, 0x0e]

  lemma ExamplePairs()
    ensures Mac.HexPair(0x10, false) == "10" && Mac.HexPair(0xff, false) == "ff"
    ensures Mac.HexPair(0xe0, false) == "e0" && Mac.HexPair(0xcf, false) == "cf"
    ensures Mac.HexPair(0xe6, false) == "e6" && Mac.HexPair(0x0e, false) == "0e"
  {
  }

  lemma ExampleSpelledWith(sep: Octet)
    ensures Mac.Joined(Example, sep, false) ==
      ['1', '0', sep, 'f', 'f', sep, 'e', '0', sep, 'c', 'f', sep, 'e', '6', sep, '0', 'e']
  {
    ExamplePairs();
    var j5 := Mac.Joined([0x0e], sep, false);
    assert j5 == ['0', 'e'];
    var j4 := Mac.Joined([0xe6, 0x0e], sep, false);
    assert [0xe6, 0x0e][1..] == [0x0e];
    assert j4 == ['e', '6', sep, '0', 'e'];
    var j3 := Mac.Joined([0xcf, 0xe6, 0x0e], sep, false);
    assert [0xcf, 0xe6, 0x0e][1..] == [0xe6, 0x0e];
    assert j3 == ['c', 'f', sep] + j4;
    var j2 := Mac.Joined([0xe0, 0xcf, 0xe6, 0x0e], sep, false);
    assert [0xe0, 0xcf, 0xe6, 0x0e][1..] == [0xcf, 0xe6, 0x0e];
    assert j2 == ['e', '0', sep] + j3;
    var j1 := Mac.Joined([0xff, 0xe0, 0xcf, 0xe6, 0x0e], sep, false);
    assert [0xff, 0xe0, 0xcf, 0xe6, 0x0e][1..] == [0xe0, 0xcf, 0xe6, 0x0e];
    assert j1 == ['f', 'f', sep] + j2;
    assert Example[1..] == [0xff, 0xe0, 0xcf, 0xe6, 0x0e];
    assert Mac.Joined(Example, sep, false) == ['1', '0', sep] + j1;
  }

  lemma ExampleRaw()
    ensures Mac.RawHex(Example, false) == "10ffe0cfe60e"
  {
    ExamplePairs();
    assert Mac.RawHex([0x0e], false) == "0e";
    assert Mac.RawHex([0xe6, 0x0e], false) == "e60e";
    assert Mac.RawHex([0xcf, 0xe6, 0x0e], false) == "cfe60e";
    assert Mac.RawHex([0xe0, 0xcf, 0xe6, 0x0e], false) == "e0cfe60e";
    assert Mac.RawHex([0xff, 0xe0, 0xcf, 0xe6, 0x0e], false) == "ffe0cfe60e";
  }

  /** 10:ff:e0:cf:e6:0e and 10-ff-e0-cf-e6-0e decode through the fallback to its six bytes. */
  lemma SeparatedSpellings(colon: GoString, dash: GoString)
    requires colon == "10:ff:e0:cf:e6:0e" && dash == "10-ff-e0-cf-e6-0e"
    ensures Mac.Fallback(colon) == Ok(Example)
    ensures Mac.Fallback(dash) == Ok(Example)
  {
    Mac.FallbackRoundTrip(Example, false);
    ExampleSpelledWith(':');
    ExampleSpelledWith('-');
  }

  /** And so does 10ffe0cfe60e. */
  lemma RawSpelling(raw: GoString)
    requires raw == "10ffe0cfe60e"
    ensures Mac.Fallback(raw) == Ok(Example)
  {
    Mac.FallbackRoundTrip(Example, false);
    ExampleRaw();
  }

  lemma StripDashesMac(t: GoString)
    requires t == "a-mac"
    ensures Mac.Strip(t, '-') == ['a', 'm', 'a', 'c']
  {
    assert t[4..][1..] == [];
    assert Mac.Strip(t[4..], '-') == ['c'];
    assert t[3..][1..] == t[4..];
    assert Mac.Strip(t[3..], '-') == ['a', 'c'];
    assert t[2..][1..] == t[3..];
    assert Mac.Strip(t[2..], '-') == ['m', 'a', 'c'];
    assert t[1..][1..] == t[2..];
    assert Mac.Strip(t[1..], '-') == ['m', 'a', 'c'];
  }

  lemma StripDashesNot(t: GoString)
    requires t == "not-"
    ensures Mac.Strip(t, '-') == ['n', 'o', 't']
  {
    assert t[3..][1..] == [];
    assert Mac.Strip(t[3..], '-') == [];
    assert t[2..][1..] == t[3..];
    assert Mac.Strip(t[2..], '-') == ['t'];
    assert t[1..][1..] == t[2..];
    assert Mac.Strip(t[1..], '-') == ['o', 't'];
  }

  /** "not-a-mac" cleans to the seven bytes "notamac" and is rejected for its length. */
  lemma NotAMac(s: GoString)
    requires s == "not-a-mac"
    ensures Mac.Fallback(s) == Err(Mac.BadLength(7))
  {
    Mac.StripAbsent(s, ':');
    StripDashesNot(s[..4]);
    StripDashesMac(s[4..]);
    Mac.StripAppend(s[..4], s[4..], '-');
    assert s == s[..4] + s[4..];
  }

  /** A configuration with port 0 sends one 102-byte datagram to port 9: six 0xFF bytes
      and sixteen copies of 10 ff e0 cf e6 0e, then closes the association. */
  lemma DefaultPortSend(env: Env, mac: GoString, ip: GoString, addr: UdpAddr, conn: Conn)
    requires mac == "10:ff:e0:cf:e6:0e" && ip == "123.123.1.3"
    requires env.parseMac(mac) == None || env.parseMac(mac) == Some(Example)
    requires env.resolve(ip, 9) == Ok(addr) && env.dial(addr) == Ok(conn)
    ensures var w := Config.WakeOnLan(mac, ip, 0);
      Wol.Send(env, w.mac, w.ip, w.PortOrDefault()).trace ==
        [Wol.Resolve(ip, 9), Wol.Dial(addr),
         Wol.Write(conn, MagicPacket.Sync + MagicPacket.Repeat(Example, MagicPacket.Copies)),
         Wol.Close(conn)]
  {
    Mac.FallbackRoundTrip(Example, false);
    ExampleSpelledWith(':');
    MagicPacket.SixBytePacket(Example);
  }

  /** Port 70000 with an IP literal is rejected as a port error when the configuration loads. */
  lemma PortOutOfRange(env: Env, mac: GoString, ip: GoString)
    requires mac == "10:ff:e0:cf:e6:0e" && ip == "123.123.1.3"
    requires env.parseMac(mac) == None || env.parseMac(mac) == Some(Example)
    requires env.parseIp(ip)
    ensures Config.WakeOnLan(mac, ip, 70000).Validate(env) == Some(Config.InvalidPort(70000))
  {
    Mac.FallbackRoundTrip(Example, false);
    ExampleSpelledWith(':');
  }
}
