/** The magic-packet construction inside sendWOL (main.go:150-157): a
    102-byte buffer, six 0xFF bytes, then sixteen Go `copy` calls of the
    hardware address at offsets 6, 12, ..., 96. */
module MagicPacket {
  import opened Base

  const SyncLen := 6
  const Copies := 16
  const PacketLen := SyncLen + Copies * 6

  /** The synchronisation stream that opens every magic packet. */
  const Sync: seq<byte> := [0xFF, 0xFF, 0xFF, 0xFF, 0xFF, 0xFF]

  function Min(a: int, b: int): int
  {
    if a <= b then a else b
  }

  /** `n` copies of `s`, one after another. */
  function Repeat(s: seq<byte>, n: nat): (r: seq<byte>)
  {
    if n == 0 then [] else Repeat(s, n - 1) + s
  }

  /** The effect of Go's `copy(dst[off:], src)` on `dst`: the first
      min(len(dst) - off, len(src)) bytes of `src` overwrite `dst` from `off`. */
  function CopyAt(dst: seq<byte>, off: nat, src: seq<byte>): (r: seq<byte>)
    requires off <= |dst|
    ensures |r| == |dst|
  {
    var n := Min(|dst| - off, |src|);
    dst[..off] + src[..n] + dst[off + n..]
  }

  /** What `copy` leaves where: the prefix before `off` and the part after the copied
      bytes are untouched, and the copied bytes are the front of `src`. */
  lemma CopyAtParts(dst: seq<byte>, off: nat, src: seq<byte>)
    requires off <= |dst|
    ensures var r, n := CopyAt(dst, off, src), Min(|dst| - off, |src|);
      r[..off] == dst[..off] && r[off..off + n] == src[..n] && r[off + n..] == dst[off + n..]
  {
  }

  /** The buffer after `make` and the first loop: six 0xFF bytes and 96 zero bytes. */
  function Blank(): (p: seq<byte>)
  {
    Sync + seq(PacketLen - SyncLen, _ => 0)
  }

  /** The buffer after the first `k` copies of the second loop. */
  function Stamped(hw: seq<byte>, k: nat): (p: seq<byte>)
    requires k <= Copies
    ensures |p| == PacketLen
    ensures p[..SyncLen] == Sync
  {
    if k == 0 then Blank()
    else
      var prev := Stamped(hw, k - 1);
      var p := CopyAt(prev, SyncLen + 6 * (k - 1), hw);
      CopyAtParts(prev, SyncLen + 6 * (k - 1), hw);
      assert p[..SyncLen] == p[..SyncLen + 6 * (k - 1)][..SyncLen];
      assert prev[..SyncLen] == prev[..SyncLen + 6 * (k - 1)][..SyncLen];
      p
  }

  lemma StampedStep(hw: seq<byte>, i: nat)
    requires i < Copies
    ensures Stamped(hw, i + 1) == CopyAt(Stamped(hw, i), SyncLen + i * 6, hw)
  {
  }

  /** The packet sendWOL writes for the hardware address `hw`. */
  function Packet(hw: seq<byte>): (p: seq<byte>)
    ensures |p| == PacketLen
    ensures p[..SyncLen] == Sync
  {
    Stamped(hw, Copies)
  }

  /** Block i of a packet: the bytes at 6 + 6i .. 12 + 6i. */
  function Block(p: seq<byte>, i: nat): seq<byte>
    requires |p| == PacketLen && i < Copies
  {
    p[SyncLen + 6 * i..SyncLen + 6 * i + 6]
  }

  lemma {:induction false} StampedBlocks(hw: seq<byte>, k: nat)
    requires |hw| >= 6 && k <= Copies
    ensures forall i :: 0 <= i < k ==> Block(Stamped(hw, k), i) == hw[..6]
    decreases k
  {
    if k > 0 {
      var prev := Stamped(hw, k - 1);
      var off := SyncLen + 6 * (k - 1);
      var p := Stamped(hw, k);
      var n := Min(PacketLen - off, |hw|);
      assert p == CopyAt(prev, off, hw);
      CopyAtParts(prev, off, hw);
      assert n >= 6;
      StampedBlocks(hw, k - 1);
      forall i | 0 <= i < k ensures Block(p, i) == hw[..6] {
        if i < k - 1 {
          assert Block(p, i) == p[..off][SyncLen + 6 * i..SyncLen + 6 * i + 6];
          assert Block(prev, i) == prev[..off][SyncLen + 6 * i..SyncLen + 6 * i + 6];
        } else {
          assert Block(p, i) == p[off..off + n][..6];
          assert hw[..n][..6] == hw[..6];
        }
      }
    }
  }

  /** A sequence made of n six-byte blocks, each equal to b, is b repeated n times. */
  lemma {:induction false} BlocksAreRepeat(s: seq<byte>, b: seq<byte>, n: nat)
    requires |b| == 6 && |s| == 6 * n
    requires forall i :: 0 <= i < n ==> s[6 * i..6 * i + 6] == b
    ensures s == Repeat(b, n)
    decreases n
  {
    if n > 0 {
      var front := s[..6 * (n - 1)];
      forall i | 0 <= i < n - 1 ensures front[6 * i..6 * i + 6] == b {
        assert front[6 * i..6 * i + 6] == s[6 * i..6 * i + 6];
      }
      BlocksAreRepeat(front, b, n - 1);
      assert s[6 * (n - 1)..6 * (n - 1) + 6] == b;
      assert s == front + s[6 * (n - 1)..];
    }
  }

  /** For an address of at least six bytes the packet is the sync stream followed by
      sixteen copies of the first six bytes: the bytes an 8- or 20-byte address spills
      past a block are overwritten by the next copy, and the last copy is cut to six. */
  lemma PacketShape(hw: seq<byte>)
    requires |hw| >= 6
    ensures Packet(hw) == Sync + Repeat(hw[..6], Copies)
  {
    var p := Packet(hw);
    StampedBlocks(hw, Copies);
    var body := p[SyncLen..];
    forall i | 0 <= i < Copies ensures body[6 * i..6 * i + 6] == hw[..6] {
      assert body[6 * i..6 * i + 6] == Block(p, i);
    }
    BlocksAreRepeat(body, hw[..6], Copies);
    assert p == p[..SyncLen] + body;
  }

  /** For a six-byte address the packet is exactly six 0xFF bytes and sixteen copies of it. */
  lemma SixBytePacket(hw: seq<byte>)
    requires |hw| == 6
    ensures Packet(hw) == Sync + Repeat(hw, Copies)
  {
    PacketShape(hw);
    assert hw[..6] == hw;
  }

  // ---------------------------------------------------------------------------
  // The code as it runs: a buffer filled in place

  /** Go's built-in `copy(dst[off:], src)`: returns the number of bytes copied. */
  method Copy(dst: array<byte>, off: nat, src: seq<byte>) returns (n: nat)
    requires off <= dst.Length
    modifies dst
    ensures n == Min(dst.Length - off, |src|)
    ensures dst[..] == CopyAt(old(dst[..]), off, src)
  {
    n := Min(dst.Length - off, |src|);
    ghost var before := dst[..];
    var k := 0;
    while k < n
      invariant 0 <= k <= n
      invariant forall j :: 0 <= j < dst.Length ==> dst[j] == (if off <= j < off + k then src[j - off] else before[j])
    {
      dst[off + k] := src[k];
      k := k + 1;
    }
    assert dst[..] == CopyAt(before, off, src);
  }

  /** The first loop of main.go:152-154 on a freshly zeroed buffer. */
  method FillSync(packet: array<byte>)
    requires packet.Length == PacketLen
    requires forall j :: 0 <= j < PacketLen ==> packet[j] == 0
    modifies packet
    ensures packet[..] == Blank()
  {
    for i := 0 to SyncLen
      invariant forall j :: 0 <= j < i ==> packet[j] == 0xFF
      invariant forall j :: i <= j < PacketLen ==> packet[j] == 0
    {
      packet[i] := 0xFF;
    }
    forall j | 0 <= j < PacketLen ensures packet[j] == Blank()[j] {
      if j < SyncLen {
        assert Blank()[j] == Sync[j];
      }
    }
  }

  /** The second loop of main.go:155-157: sixteen copies of `hw` at offsets 6 + 6i. */
  method StampCopies(packet: array<byte>, hw: seq<byte>)
    requires packet[..] == Blank()
    modifies packet
    ensures packet[..] == Packet(hw)
  {
    for i := 0 to Copies
      invariant packet[..] == Stamped(hw, i)
    {
      StampedStep(hw, i);
      var _ := Copy(packet, SyncLen + i * 6, hw);
    }
  }

  /** The packet of main.go:151-157, built the way the code builds it. */
  method BuildPacket(hw: seq<byte>) returns (packet: array<byte>)
    ensures packet.Length == PacketLen
    ensures packet[..] == Packet(hw)
  {
    packet := new byte[SyncLen + Copies * 6](_ => 0);
    FillSync(packet);
    StampCopies(packet, hw);
  }
}
