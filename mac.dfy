/** parseMAC (main.go:122-142): the standard library parser first, then a
    hand-written fallback that strips `:` and `-` and decodes twelve hex digits. */
module Mac {
  import opened Base

  /** Why the fallback rejects its input. */
  datatype MacError =
    | BadLength(cleaned: nat)     // "unexpected MAC length after cleanup: %d"
    | HexSyntax(group: GoString)  // strconv.ParseUint's syntax error, naming the offending group

  /** The standard parser `net.ParseMAC`: its answer for each input, `None` for an error. */
  type StandardParser = GoString -> Option<seq<byte>>

  /** What the code relies on from `net.ParseMAC`: a success is a 6-, 8- or 20-byte address. */
  ghost predicate WellShaped(std: StandardParser)
  {
    forall s :: std(s).Some? ==> |std(s).value| == 6 || |std(s).value| == 8 || |std(s).value| == 20
  }

  // ---------------------------------------------------------------------------
  // Hex digits and strconv.ParseUint(g, 16, 8)

  predicate IsHexDigit(c: Octet)
  {
    '0' <= c <= '9' || 'a' <= c <= 'f' || 'A' <= c <= 'F'
  }

  function HexValue(c: Octet): (v: nat)
    requires IsHexDigit(c)
    ensures v < 16
  {
    if '0' <= c <= '9' then c as int - '0' as int
    else if 'a' <= c <= 'f' then c as int - 'a' as int + 10
    else c as int - 'A' as int + 10
  }

  /** `strconv.ParseUint(g, 16, 8)` on a two-byte group. With an explicit base 16 Go
      accepts no sign, no `0x` prefix and no underscore, and two digits never exceed
      255, so the group is accepted exactly when both bytes are hex digits. */
  function ParseHexByte(g: GoString): Result<byte, MacError>
    requires |g| == 2
  {
    if IsHexDigit(g[0]) && IsHexDigit(g[1]) then Ok(16 * HexValue(g[0]) + HexValue(g[1]))
    else Err(HexSyntax(g))
  }

  // ---------------------------------------------------------------------------
  // strings.ReplaceAll(s, sep, "") for a one-byte separator

  /** `s` with every occurrence of the byte `sep` deleted, the other bytes kept in order. */
  function Strip(s: GoString, sep: Octet): (r: GoString)
    ensures sep !in r
    ensures forall c :: c in r ==> c in s
    ensures |r| <= |s|
  {
    if s == [] then [] else (if s[0] == sep then [] else [s[0]]) + Strip(s[1..], sep)
  }

  /** The `cleaned` string of main.go:129: `s` without any `:` or `-`. */
  function Clean(s: GoString): (r: GoString)
    ensures ':' !in r && '-' !in r
    ensures |r| <= |s|
  {
    Strip(Strip(s, ':'), '-')
  }

  // ---------------------------------------------------------------------------
  // The fallback decoder and parseMAC as functions

  /** Group k of a cleaned string (bytes 2k and 2k+1) is two hex digits. */
  predicate GroupIsHex(c: GoString, k: nat)
    requires 2 * k + 1 < |c|
  {
    IsHexDigit(c[2 * k]) && IsHexDigit(c[2 * k + 1])
  }

  /** Decodes consecutive two-byte groups left to right, stopping at the first bad one
      (the loop of main.go:134-140 run to completion). */
  function DecodeGroups(c: GoString): (r: Result<seq<byte>, MacError>)
    requires |c| % 2 == 0
    ensures r.Ok? ==> |r.value| == |c| / 2
    decreases |c|
  {
    if c == [] then Ok([])
    else
      match ParseHexByte(c[..2])
      case Err(e) => Err(e)
      case Ok(v) =>
        match DecodeGroups(c[2..])
        case Err(e) => Err(e)
        case Ok(rest) => Ok([v] + rest)
  }

  /** The fallback path of parseMAC (main.go:129-141). */
  function Fallback(s: GoString): (r: Result<seq<byte>, MacError>)
    ensures |Clean(s)| != 12 ==> r == Err(BadLength(|Clean(s)|))
    ensures r.Ok? ==> |r.value| == 6
  {
    var cleaned := Clean(s);
    if |cleaned| != 12 then Err(BadLength(|cleaned|)) else DecodeGroups(cleaned)
  }

  /** What parseMAC returns for `s` when `net.ParseMAC` answers as `std` does. */
  function Parsed(std: StandardParser, s: GoString): (r: Result<seq<byte>, MacError>)
    ensures std(s).Some? ==> r == Ok(std(s).value)
    ensures std(s).None? && |Clean(s)| != 12 ==> r == Err(BadLength(|Clean(s)|))
    ensures std(s).None? && r.Ok? ==> |r.value| == 6
  {
    match std(s)
    case Some(hw) => Ok(hw)
    case None => Fallback(s)
  }

  // ---------------------------------------------------------------------------
  // parseMAC as the code runs it: a loop appending one byte per group

  /** Applies the bytes already decoded to the outcome of decoding the rest. */
  function Prepend(b: seq<byte>, rest: Result<seq<byte>, MacError>): Result<seq<byte>, MacError>
  {
    match rest
    case Ok(x) => Ok(b + x)
    case Err(e) => Err(e)
  }

  /** One step of the decoder on the suffix starting at byte i. */
  lemma DecodeStep(c: GoString, i: nat)
    requires |c| % 2 == 0 && i % 2 == 0 && i < |c|
    ensures DecodeGroups(c[i..]) ==
              match ParseHexByte(c[i..i + 2])
              case Err(e) => Err(e)
              case Ok(v) => Prepend([v], DecodeGroups(c[i + 2..]))
  {
    assert c[i..][..2] == c[i..i + 2];
    assert c[i..][2..] == c[i + 2..];
  }

  lemma PrependAppend(b: seq<byte>, v: byte, rest: Result<seq<byte>, MacError>)
    ensures Prepend(b, Prepend([v], rest)) == Prepend(b + [v], rest)
  {
    if rest.Ok? {
      assert b + ([v] + rest.value) == (b + [v]) + rest.value;
    }
  }

  /** The loop of main.go:133-140 over the twelve cleaned bytes. */
  method DecodeLoop(cleaned: GoString) returns (r: Result<seq<byte>, MacError>)
    requires |cleaned| == 12
    ensures r == DecodeGroups(cleaned)
  {
    var b: seq<byte> := [];
    var i := 0;
    assert cleaned[0..] == cleaned;
    assert Prepend([], DecodeGroups(cleaned)) == DecodeGroups(cleaned) by {
      if DecodeGroups(cleaned).Ok? {
        assert [] + DecodeGroups(cleaned).value == DecodeGroups(cleaned).value;
      }
    }
    while i < 12
      invariant 0 <= i <= 12 && i % 2 == 0
      invariant DecodeGroups(cleaned) == Prepend(b, DecodeGroups(cleaned[i..]))
    {
      DecodeStep(cleaned, i);
      var v := ParseHexByte(cleaned[i..i + 2]);
      if v.Err? {
        return Err(v.error);
      }
      PrependAppend(b, v.value, DecodeGroups(cleaned[i + 2..]));
      b := b + [v.value];
      i := i + 2;
    }
    assert cleaned[12..] == [] && b + [] == b;
    r := Ok(b);
  }

  method ParseMac(std: StandardParser, s: GoString) returns (r: Result<seq<byte>, MacError>)
    ensures r == Parsed(std, s)
  {
    var hw := std(s);
    if hw.Some? {
      return Ok(hw.value);
    }
    var cleaned := Strip(Strip(s, ':'), '-');
    if |cleaned| != 12 {
      return Err(BadLength(|cleaned|));
    }
    r := DecodeLoop(cleaned);
  }

  // ---------------------------------------------------------------------------
  // What the fallback accepts and what it yields

  /** The groups of a cleaned string shifted by one group. */
  lemma GroupsShift(c: GoString)
    requires |c| % 2 == 0 && c != []
    ensures forall k :: 0 <= k < |c[2..]| / 2 ==> GroupIsHex(c[2..], k) == GroupIsHex(c, k + 1)
  {
    var t := c[2..];
    forall k | 0 <= k < |t| / 2
      ensures GroupIsHex(t, k) == GroupIsHex(c, k + 1)
    {
      assert t[2 * k] == c[2 * (k + 1)] && t[2 * k + 1] == c[2 * (k + 1) + 1];
    }
  }

  /** The decoder accepts exactly the strings whose every group is two hex digits. */
  lemma {:induction false} DecodeGroupsAccepts(c: GoString)
    requires |c| % 2 == 0
    ensures DecodeGroups(c).Ok? <==> forall k :: 0 <= k < |c| / 2 ==> GroupIsHex(c, k)
    decreases |c|
  {
    if c != [] {
      var t := c[2..];
      DecodeGroupsAccepts(t);
      GroupsShift(c);
      assert c[..2][0] == c[0] && c[..2][1] == c[1];
      if forall k :: 0 <= k < |c| / 2 ==> GroupIsHex(c, k) {
        assert GroupIsHex(c, 0);
        forall k | 0 <= k < |t| / 2 ensures GroupIsHex(t, k) {
          assert GroupIsHex(c, k + 1);
        }
      }
      if DecodeGroups(c).Ok? {
        forall k | 0 <= k < |c| / 2 ensures GroupIsHex(c, k) {
          if k > 0 {
            assert GroupIsHex(t, k - 1);
          }
        }
      }
    }
  }

  /** On success byte k is the value of the hex digits at 2k and 2k+1, in input order. */
  lemma {:induction false} DecodeGroupsValues(c: GoString)
    requires |c| % 2 == 0 && DecodeGroups(c).Ok?
    ensures forall k :: 0 <= k < |c| / 2 ==>
              GroupIsHex(c, k) && DecodeGroups(c).value[k] == 16 * HexValue(c[2 * k]) + HexValue(c[2 * k + 1])
    decreases |c|
  {
    if c != [] {
      var t := c[2..];
      DecodeGroupsValues(t);
      GroupsShift(c);
      assert c[..2][0] == c[0] && c[..2][1] == c[1];
      var v := DecodeGroups(c).value;
      assert v[1..] == DecodeGroups(t).value;
      forall k | 0 <= k < |c| / 2
        ensures GroupIsHex(c, k) && v[k] == 16 * HexValue(c[2 * k]) + HexValue(c[2 * k + 1])
      {
        if k > 0 {
          assert v[k] == DecodeGroups(t).value[k - 1];
          assert GroupIsHex(t, k - 1);
        }
      }
    }
  }

  lemma {:induction false} DecodeGroupsFirstError(c: GoString, k: nat)
    requires |c| % 2 == 0 && k < |c| / 2
    requires !GroupIsHex(c, k)
    requires forall j :: 0 <= j < k ==> GroupIsHex(c, j)
    ensures DecodeGroups(c) == Err(HexSyntax(c[2 * k..2 * k + 2]))
    decreases k
  {
    var t := c[2..];
    assert c[..2][0] == c[0] && c[..2][1] == c[1];
    if k == 0 {
      assert c[..2] == c[0..2];
    } else {
      assert GroupIsHex(c, 0);
      assert t[2 * (k - 1)] == c[2 * k] && t[2 * (k - 1) + 1] == c[2 * k + 1];
      forall j | 0 <= j < k - 1 ensures GroupIsHex(t, j) {
        assert GroupIsHex(c, j + 1);
        assert t[2 * j] == c[2 * (j + 1)] && t[2 * j + 1] == c[2 * (j + 1) + 1];
      }
      DecodeGroupsFirstError(t, k - 1);
      assert t[2 * (k - 1)..2 * (k - 1) + 2] == c[2 * k..2 * k + 2];
    }
  }

  // ---------------------------------------------------------------------------
  // The three spellings of a hardware address

  function HexDigit(d: nat, upper: bool): (c: Octet)
    requires d < 16
    ensures IsHexDigit(c) && HexValue(c) == d
  {
    if d < 10 then ('0' as int + d) as char
    else ((if upper then 'A' else 'a') as int + d - 10) as char
  }

  function HexPair(b: byte, upper: bool): GoString
  {
    [HexDigit(b / 16, upper), HexDigit(b % 16, upper)]
  }

  /** The raw spelling: twelve hex digits for six bytes, no separators. */
  function RawHex(bs: seq<byte>, upper: bool): (r: GoString)
    ensures |r| == 2 * |bs|
  {
    if bs == [] then [] else HexPair(bs[0], upper) + RawHex(bs[1..], upper)
  }

  /** The delimited spelling: hex pairs separated by `sep`. */
  function Joined(bs: seq<byte>, sep: Octet, upper: bool): GoString
    requires bs != []
  {
    if |bs| == 1 then HexPair(bs[0], upper) else HexPair(bs[0], upper) + [sep] + Joined(bs[1..], sep, upper)
  }

  lemma {:induction false} DecodeRawHex(bs: seq<byte>, upper: bool)
    ensures DecodeGroups(RawHex(bs, upper)) == Ok(bs)
  {
    if bs != [] {
      var c := RawHex(bs, upper);
      assert c[..2] == HexPair(bs[0], upper);
      assert c[2..] == RawHex(bs[1..], upper);
      DecodeRawHex(bs[1..], upper);
      assert [bs[0]] + bs[1..] == bs;
    }
  }

  lemma {:induction false} StripAppend(a: GoString, b: GoString, sep: Octet)
    ensures Strip(a + b, sep) == Strip(a, sep) + Strip(b, sep)
  {
    if a != [] {
      assert (a + b)[1..] == a[1..] + b;
      StripAppend(a[1..], b, sep);
    } else {
      assert a + b == b;
    }
  }

  lemma {:induction false} StripAbsent(s: GoString, sep: Octet)
    requires sep !in s
    ensures Strip(s, sep) == s
  {
    if s != [] {
      StripAbsent(s[1..], sep);
    }
  }

  lemma CleanAppend(a: GoString, b: GoString)
    ensures Clean(a + b) == Clean(a) + Clean(b)
  {
    StripAppend(a, b, ':');
    StripAppend(Strip(a, ':'), Strip(b, ':'), '-');
  }

  lemma CleanHexPair(b: byte, upper: bool)
    ensures Clean(HexPair(b, upper)) == HexPair(b, upper)
  {
    var p := HexPair(b, upper);
    StripAbsent(p, ':');
    StripAbsent(p, '-');
  }

  lemma {:induction false} CleanRawHex(bs: seq<byte>, upper: bool)
    ensures Clean(RawHex(bs, upper)) == RawHex(bs, upper)
  {
    if bs != [] {
      CleanAppend(HexPair(bs[0], upper), RawHex(bs[1..], upper));
      CleanHexPair(bs[0], upper);
      CleanRawHex(bs[1..], upper);
    }
  }

  lemma {:induction false} CleanJoined(bs: seq<byte>, sep: Octet, upper: bool)
    requires bs != []
    requires sep == ':' || sep == '-'
    ensures Clean(Joined(bs, sep, upper)) == RawHex(bs, upper)
  {
    var p := HexPair(bs[0], upper);
    CleanHexPair(bs[0], upper);
    if |bs| == 1 {
      assert RawHex(bs, upper) == p + RawHex([], upper);
    } else {
      var rest := Joined(bs[1..], sep, upper);
      CleanAppend(p + [sep], rest);
      CleanAppend(p, [sep]);
      assert Clean([sep]) == [];
      CleanJoined(bs[1..], sep, upper);
      assert Clean(p + [sep]) == p;
    }
  }

  /** Every 6-byte address decodes through the fallback from its colon, dash and raw spellings,
      in either letter case. */
  lemma FallbackRoundTrip(bs: seq<byte>, upper: bool)
    requires |bs| == 6
    ensures Fallback(RawHex(bs, upper)) == Ok(bs)
    ensures Fallback(Joined(bs, ':', upper)) == Ok(bs)
    ensures Fallback(Joined(bs, '-', upper)) == Ok(bs)
  {
    CleanRawHex(bs, upper);
    CleanJoined(bs, ':', upper);
    CleanJoined(bs, '-', upper);
    DecodeRawHex(bs, upper);
  }

  /** On the standard parser's success at least six bytes come back, whichever path answered. */
  lemma ParsedAtLeastSix(std: StandardParser, s: GoString)
    requires WellShaped(std)
    ensures Parsed(std, s).Ok? ==> |Parsed(std, s).value| >= 6
  {
  }
}
