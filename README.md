# Wake-on-LAN handler for Caddy, modelled in Dafny

This project models the core of the `wake_on_lan` HTTP handler, a Caddy plugin.
Each time the handler serves a request it sends a Wake-on-LAN "magic packet" to
one configured host. The packet is six 0xFF bytes followed by the hardware (MAC)
address sixteen times, 102 bytes in all, sent as one UDP datagram. The model
covers four things:

- `parseMAC`: Go's `net.ParseMAC` is tried first. If it fails, a fallback
  deletes every `:` and `-`, requires exactly twelve bytes to remain, and
  decodes six two-digit hex groups (module `Mac`, file `mac.dfy`).
- Building the packet in place: a zeroed 102-byte buffer, a loop writing six
  0xFF bytes, then a loop of sixteen Go `copy` calls (module `MagicPacket`,
  file `packet.dfy`).
- `sendWOL`: parse, build, resolve, dial, write, with a deferred close. A ghost
  trace records the network actions, so that "nothing happens after a failed
  step" can be stated (module `Wol`, file `wol.dfy`).
- The configuration rules: `portOrDefault`, `Validate` and the argument rule of
  `UnmarshalCaddyfile` (module `Config`, file `config.dfy`).

`base.dfy` holds the shared types. `platform.dfy` holds the standard-library
calls the code makes but which are not part of this model. `scenarios.dfy`
holds concrete cases.

Modelling choices:

- A Go `string` is `seq<Octet>`, where an `Octet` is a character below 256.
  Each element stands for one byte, so `len`, slicing and the 12-byte check
  count bytes, as Go does.
- A Go `byte` is an `int` in 0..255.
- The library calls are oracles, gathered as function-typed fields of
  `Platform.Env`:
  - `net.ParseMAC`
  - `net.ParseIP(s) != nil`
  - `net.ResolveUDPAddr("udp", net.JoinHostPort(host, strconv.Itoa(port)))`, taken as one call of host and port
  - `net.DialUDP`
  - the error of `conn.Write`
  - `strconv.Atoi`
- The model fixes what the plugin does with each answer, not the answer itself.
  `Mac.WellShaped` gives the one fact the code relies on from `net.ParseMAC`:
  a success is 6, 8 or 20 bytes.
- Each operation that loops in the source is a method that runs the loop:
  `Mac.DecodeLoop`, `MagicPacket.FillSync`, `MagicPacket.StampCopies` and
  `MagicPacket.Copy`, which is Go's built-in `copy`. Each method is proved equal
  to a specification function (`Mac.Parsed`, `MagicPacket.Packet`, `Wol.Send`),
  and the lemmas are stated about those functions.

Where the code and the design description differ, the model follows the code:

- The design says a parsed address is always 6 bytes. `parseMAC` returns
  whatever `net.ParseMAC` returns, which can be 8 or 20 bytes (main.go:125-127).
  The 16 copies then write 8 or 20 bytes each. The spill past each block is
  overwritten by the next copy, and the last copy is cut short at the end of
  the buffer. So the packet carries the first six bytes sixteen times
  (`MagicPacket.PacketShape`).
- The design says a failed send returns an error that wraps the cause. The code
  returns the parser's or the network's error unchanged (`Wol.SendError`).
- The design says a parse error carries the original input text. The fallback's
  errors carry the cleaned length (main.go:131) or name the offending two-byte
  group (main.go:135-137), so `Mac.MacError` carries exactly those.
- `Validate` checks the host with the effective port (main.go:52) before it
  checks the port range (main.go:56). For a host name rather than an IP
  literal, an out-of-range port therefore reaches the resolver first. How it is
  reported depends on the resolver's answer (`Config.ValidateReportsFirstFailure`).
  The range error is guaranteed only for IP literals (`Scenarios.PortOutOfRange`).

## Model

| member | source | states |
|---|---|---|
| Mac.Strip | main.go:129 | `strings.ReplaceAll` with one separator: the result has no separator left, holds only bytes of the input, and is no longer than the input |
| Mac.Clean | main.go:129 | the cleaned string contains neither `:` nor `-` and is no longer than the input |
| Mac.DecodeGroups | main.go:134-140 | a successful decode yields one byte for every two input bytes |
| Mac.Fallback | main.go:129-141 | a cleaned length other than 12 is rejected, carrying that length; a success is exactly 6 bytes |
| Mac.Parsed | main.go:123-142 | when `net.ParseMAC` succeeds its bytes are returned unchanged; otherwise a cleaned length other than 12 is an error, and a fallback success is 6 bytes |
| Mac.ParsedAtLeastSix | main.go:125-141 | if `net.ParseMAC` only ever returns 6, 8 or 20 bytes, every success of parseMAC has at least 6 bytes |
| Mac.DecodeGroupsAccepts | main.go:134-140 | the decoder succeeds if and only if every two-byte group is two hex digits of either case |
| Mac.DecodeGroupsValues | main.go:134-140 | on success, byte k is 16 times the value of hex digit 2k plus the value of hex digit 2k+1, in input order |
| Mac.DecodeGroupsFirstError | main.go:134-138 | when group k is the first that is not two hex digits, the error names exactly that group |
| Mac.FallbackRoundTrip | main.go:129-141 | any 6 bytes, spelled with `:`, with `-`, or as 12 raw hex digits, in lower or upper case, decode through the fallback to the same 6 bytes |
| Mac.CleanJoined | main.go:129 | removing separators from a `:`- or `-`-delimited spelling leaves the raw hex spelling |
| Mac.DecodeLoop | main.go:133-140 | the loop that appends one byte per group returns exactly what the decoder specification returns, including the first group's error |
| Mac.ParseMac | main.go:123-142 | parseMAC as written, with the standard parser first and then the fallback loop, returns `Mac.Parsed` |
| MagicPacket.Stamped | main.go:151-157 | after any number of copies the buffer is still 102 bytes and still opens with six 0xFF bytes |
| MagicPacket.Packet | main.go:151-157 | for every hardware address the packet is exactly 102 bytes and bytes 0..5 are 0xFF |
| MagicPacket.StampedBlocks | main.go:155-157 | for an address of at least 6 bytes, after k copies every block i < k (bytes 6+6i..12+6i) equals the address's first six bytes |
| MagicPacket.PacketShape | main.go:150-157 | for an address of at least 6 bytes, the packet is six 0xFF bytes followed by sixteen copies of the first six bytes and nothing else; this covers the 8- and 20-byte results |
| MagicPacket.SixBytePacket | main.go:150-157 | for a 6-byte address the packet is six 0xFF bytes followed by the address sixteen times |
| MagicPacket.Copy | main.go:156 | Go's `copy(dst[off:], src)` writes min(len(dst)-off, len(src)) bytes of `src` from `off`, returns that count, and leaves every other byte unchanged |
| MagicPacket.FillSync | main.go:152-154 | the first loop turns the zeroed buffer into six 0xFF bytes followed by 96 zero bytes |
| MagicPacket.StampCopies | main.go:155-157 | the second loop leaves the buffer equal to the packet specification |
| MagicPacket.BuildPacket | main.go:151-157 | the buffer the code allocates and fills in place is 102 bytes and equals the packet specification |
| Wol.BadMacTouchesNoNetwork | main.go:145-148 | if parseMAC fails, sendWOL returns the parser's error and takes no network action |
| Wol.SendShortCircuits | main.go:144-172 | actions happen in the order resolve, dial, write, close, each at most once; a failed resolve or dial is the last action; a write is always followed by a close of the same connection |
| Wol.SendSucceedsIff | main.go:144-172 | sendWOL succeeds if and only if parsing succeeds and all four network actions happen without failure; a network error it returns is that of the first failed action |
| Wol.EveryDialIsClosed | main.go:164-171 | every connection that was opened is closed, as the last action, whether or not the write failed |
| Wol.SendWritesMagicPacket | main.go:150-170 | a write happens only after a successful parse; the payload is 102 bytes, opens with six 0xFF bytes, and for an address of at least six bytes is followed by sixteen copies of its first six bytes |
| Wol.SendWol | main.go:144-172 | sendWOL as written, using the parse method, the in-place packet builder and the oracles, returns the error and takes the actions of `Wol.Send` |
| Config.WakeOnLan.PortOrDefault | main.go:62-67 | port 0 becomes 9; any other value, in range or not, is returned unchanged; the result is never 0 |
| Config.WakeOnLan.Validate | main.go:40-59 | a configuration is accepted if and only if the MAC is non-empty and parses, the IP is non-empty, the host is an IP literal or resolves with the effective port, and the port is in 0..65535 |
| Config.ValidateReportsFirstFailure | main.go:40-59 | the error returned is that of the first failing check, in the order: MAC present, MAC parses, IP present, host acceptable, port in range |
| Config.ValidPortInRange | main.go:56-67 | on an accepted configuration the effective port is in 1..65535, and a configured 0 gives 9 |
| Config.FromArgs | main.go:80-92 | the directive is accepted if and only if it has 2 or 3 arguments and a third argument is a number; it sets MAC and IP from the first two, and the port to 0 or to the third |
| Config.TwoArgsUseDefaultPort | main.go:80-92 | a two-argument directive configures port 0, which becomes port 9 when sending |
| Config.ValidatedSendReachesNetwork | main.go:40-72 | the send made for an accepted configuration always gets past parsing and resolves with a port in 1..65535; when the fallback parsed the address and the write happened, the payload is six 0xFF bytes and the 6-byte address sixteen times |
| Scenarios.SeparatedSpellings | main.go:129-141 | `10:ff:e0:cf:e6:0e` and `10-ff-e0-cf-e6-0e` both decode through the fallback to 10 ff e0 cf e6 0e |
| Scenarios.RawSpelling | main.go:129-141 | `10ffe0cfe60e` decodes through the fallback to the same bytes |
| Scenarios.NotAMac | main.go:129-132 | `not-a-mac` cleans to 7 bytes and is rejected with a length error |
| Scenarios.DefaultPortSend | main.go:144-172 | a configuration for 10:ff:e0:cf:e6:0e at 123.123.1.3 with port 0 resolves port 9, dials, writes six 0xFF bytes followed by the address sixteen times, and closes |
| Scenarios.PortOutOfRange | main.go:40-59 | port 70000 with an IP literal is rejected with the port error |

## Left out

- The internals of `net.ParseMAC`, `net.ParseIP`, `net.ResolveUDPAddr`, `net.JoinHostPort`, `strconv.Itoa` and `strconv.Atoi`: they are Go standard-library code and are not part of this model. Each is an oracle in `Platform.Env`, and the model fixes only how the plugin uses its answer.
- `net.DialUDP`, `conn.Write`, `conn.Close` and DNS: these are network I/O. They appear only as oracle answers and as actions in the ghost trace. The error of the deferred `Close` is discarded by the code, and the model does not carry it either.
- `CaddyModule`, the `init` registration, the interface guards and the `next.ServeHTTP` chaining (main.go:32-37, 70-74, 101-120): this is host-framework glue. The one call `ServeHTTP` makes, `sendWOL(w.MAC, w.IP, w.portOrDefault())` with the error discarded, appears only in `Config.ValidatedSendReachesNetwork` and `Scenarios.DefaultPortSend`.
- The `caddyfile.Dispenser` token loop and the `NextBlock` check of `UnmarshalCaddyfile` (main.go:78-79, 93-97): these belong to the host's parser API. `Config.FromArgs` models the argument mapping of one directive line.
- Concurrent requests: the handler keeps no shared state between calls, so there is nothing to model.
- Mac.ParseHexByte: models `strconv.ParseUint(g, 16, 8)` only for two-byte groups, the only input the code gives it. Sign, prefix and overflow handling on longer inputs is not modelled.
- MagicPacket.PacketShape: the closed form is stated for addresses of at least six bytes. Shorter addresses cannot come from the parser when `net.ParseMAC` is well shaped. For them the model still fixes the buffer through `MagicPacket.Packet`, but no closed form is proved.
