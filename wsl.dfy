/**
 * WSL address discovery (tcpproxy-gui/wsl.go): decoding /proc/net/route
 * fields, dotted-quad parsing, the netmask test, the two scans that pick the
 * address of a WSL distribution out of /proc/net/route and /proc/net/fib_trie,
 * and the UTF-16 decoding of `wsl.exe -l` output. The commands are not run
 * here: every scan takes the command's output as a string.
 */
module Wsl {
  import opened Wrappers
  import opened Ints
  import opened Strings
  import opened Strconv
  import Utf16

  /** A route's network address and netmask, as host-order 32-bit numbers. */
  datatype RouteInfo = RouteInfo(net: uint32, mask: uint32)

  /** The errors wsl.go returns, one per `errors.New`/`fmt.Errorf` site. */
  datatype WslError =
    | BadNetwork              // "failed to convert network to Uint32"
    | BadNetmask              // "failed to convert netmask to Uint32"
    | InvalidIP               // "invalid IP address": not four dot-separated parts
    | BadOctet(ip: string)    // "failed to parse IP address": a part is not an integer
    | InvalidFibTrie          // "invalid output from fib_trie": blank output
    | BadAddress(ip: string)  // "failed to convert ip": the fib_trie address does not parse
    | IPNotFound              // "unable to find IP"

  // ---------------------------------------------------------------------------
  // hexToUint32LE
  // ---------------------------------------------------------------------------

  /**
   * hexToUint32LE: the first 8 characters of a /proc/net/route field are four
   * hexadecimal byte pairs, least significant first. The pairs are put in the
   * opposite order and parsed with ParseInt(_, 16, 64); the result is
   * truncated to 32 bits. Fewer than 8 characters would slice out of range.
   */
  function HexToUint32LE(hex: string): (r: Option<uint32>)
    requires |hex| >= 8
  {
    match ParseInt(hex[6..8] + hex[4..6] + hex[2..4] + hex[0..2], 16)
    case None => None
    case Some(i) => Some(Uint32Of(i))
  }

  /** The most-significant-first 8-digit hexadecimal rendering of a 32-bit value. */
  function WordHex(x: uint32): (s: string)
    ensures |s| == 8
  {
    var x1 := x / 256;
    var x2 := x1 / 256;
    Hex2(x2 / 256) + Hex2(x2 % 256) + Hex2(x1 % 256) + Hex2(x % 256)
  }

  /** How the kernel prints a 32-bit address in /proc/net/route: the bytes least significant first. */
  function RouteHex(x: uint32): (s: string)
    ensures |s| == 8
    ensures s[6..8] + s[4..6] + s[2..4] + s[0..2] == WordHex(x)
  {
    var x1 := x / 256;
    var x2 := x1 / 256;
    Hex2(x % 256) + Hex2(x1 % 256) + Hex2(x2 % 256) + Hex2(x2 / 256)
  }

  lemma WordHexValue(x: uint32)
    ensures AllDigits(WordHex(x), 16) && Magnitude(WordHex(x), 16) == x
  {
    var x1 := x / 256;
    var x2 := x1 / 256;
    MagnitudeHex2([], x2 / 256);
    assert [] + Hex2(x2 / 256) == Hex2(x2 / 256);
    MagnitudeHex2(Hex2(x2 / 256), x2 % 256);
    MagnitudeHex2(Hex2(x2 / 256) + Hex2(x2 % 256), x1 % 256);
    MagnitudeHex2(Hex2(x2 / 256) + Hex2(x2 % 256) + Hex2(x1 % 256), x % 256);
  }

  /** The most-significant-first rendering parses back with ParseInt(_, 16, 64). */
  lemma ParseWordHex(x: uint32)
    ensures ParseInt(WordHex(x), 16) == Some(x as int)
  {
    WordHexValue(x);
    ParseIntOfDigits(WordHex(x), 16);
  }

  lemma HexToUint32LEReadsEightChars(hex: string)
    requires |hex| >= 8
    ensures HexToUint32LE(hex) == HexToUint32LE(hex[..8])
  {
    var h := hex[..8];
    assert h[6..8] + h[4..6] + h[2..4] + h[0..2] == hex[6..8] + hex[4..6] + hex[2..4] + hex[0..2];
  }

  /** The pairs are reversed: "0100A8C0" is 192.168.0.1. */
  lemma HexToUint32LEExample()
    ensures HexToUint32LE("0100A8C0") == Some(0xC0A8_0001)
  {
    var x: uint32 := 0xC0A8_0001;
    assert x / 256 == 0xC0A800 && 0xC0A800 / 256 == 0xC0A8 && x % 256 == 1;
    assert RouteHex(x) == Hex2(0x01) + Hex2(0x00) + Hex2(0xA8) + Hex2(0xC0);
    assert Hex2(0x01) == "01" && Hex2(0x00) == "00" && Hex2(0xA8) == "A8" && Hex2(0xC0) == "C0";
    assert RouteHex(x) == "0100A8C0";
    HexToUint32LERoundTrip(0xC0A8_0001);
  }

  /** Every 32-bit value survives the kernel's rendering and hexToUint32LE. */
  lemma HexToUint32LERoundTrip(x: uint32)
    ensures HexToUint32LE(RouteHex(x)) == Some(x)
  {
    var h := RouteHex(x);
    assert h[6..8] + h[4..6] + h[2..4] + h[0..2] == WordHex(x);
    ParseWordHex(x);
    assert Uint32Of(x) == x;
  }

  /** A character of the field that is not a hex digit is an error, except a sign at index 6. */
  lemma HexToUint32LERejectsNonHex(hex: string, k: nat)
    requires |hex| >= 8 && k < 8 && DigitValue(hex[k]) >= 16
    requires k == 6 ==> hex[6] != '+' && hex[6] != '-'
    ensures HexToUint32LE(hex) == None
  {
    var s := hex[6..8] + hex[4..6] + hex[2..4] + hex[0..2];
    var j := if k >= 6 then k - 6 else if k >= 4 then k - 2 else if k >= 2 then k + 2 else k + 6;
    ParseIntAccepts(s, 16);
    assert s[j] == hex[k];
    if j == 0 {
      assert s[0] != '+' && s[0] != '-';
    } else {
      assert s[1..][j - 1] == hex[k];
    }
  }

  /**
   * ParseInt accepts a sign, and after the pairs are reversed hex[6] is the
   * first character, so "000000-1" is read as -0x1000000 and wraps to 0xFF000000.
   */
  lemma HexToUint32LESignQuirk()
    ensures HexToUint32LE("000000-1") == Some(0xFF00_0000)
  {
    var s := "-1000000";
    assert "000000-1"[6..8] + "000000-1"[4..6] + "000000-1"[2..4] + "000000-1"[0..2] == s;
    assert Magnitude("1000000", 16) == 0x100_0000 by {
      assert Magnitude("1", 16) == 1 by {
        assert "1"[..0] == [];
      }
      MagnitudeSnoc("1", '0', 16);
      assert "1" + ['0'] == "10";
      MagnitudeSnoc("10", '0', 16);
      assert "10" + ['0'] == "100";
      MagnitudeSnoc("100", '0', 16);
      assert "100" + ['0'] == "1000";
      MagnitudeSnoc("1000", '0', 16);
      assert "1000" + ['0'] == "10000";
      MagnitudeSnoc("10000", '0', 16);
      assert "10000" + ['0'] == "100000";
      MagnitudeSnoc("100000", '0', 16);
      assert "100000" + ['0'] == "1000000";
    }
    assert s[1..] == "1000000";
    assert AllDigits("1000000", 16);
    DigitsValue("1000000", 16);
    assert ParseInt(s, 16) == Some(-0x100_0000);
  }

  // ---------------------------------------------------------------------------
  // isIPInRange
  // ---------------------------------------------------------------------------

  /** isIPInRange: `ip` lies in the route's network when both agree under the mask. */
  function IsIPInRange(ri: RouteInfo, ip: uint32): bool
  {
    BitAnd(ri.net, ri.mask) == BitAnd(ip, ri.mask)
  }

  /**
   * An address is in range exactly when it agrees with the network on every
   * bit the mask sets; so a zero mask admits every address, and the network
   * address is always in its own range.
   */
  lemma IsIPInRangeIffMaskedBitsAgree(ri: RouteInfo, ip: uint32)
    ensures IsIPInRange(ri, ip) <==> AgreeUnderMask(ri, ip)
    ensures ri.mask == 0 ==> IsIPInRange(ri, ip)
    ensures IsIPInRange(ri, ri.net)
  {
    if IsIPInRange(ri, ip) {
      forall i | 0 <= i < 32 && Bit(ri.mask, i) == 1
        ensures Bit(ip, i) == Bit(ri.net, i)
      {
        BitOfBitAnd(ri.net, ri.mask, i);
        BitOfBitAnd(ip, ri.mask, i);
      }
    }
    if AgreeUnderMask(ri, ip) {
      MaskedEqual(ri, ip);
    }
  }

  /** `ip` agrees with the route's network on every bit its mask sets. */
  predicate AgreeUnderMask(ri: RouteInfo, ip: uint32)
  {
    forall i :: 0 <= i < 32 && Bit(ri.mask, i) == 1 ==> Bit(ip, i) == Bit(ri.net, i)
  }

  lemma MaskedEqual(ri: RouteInfo, ip: uint32)
    requires AgreeUnderMask(ri, ip)
    ensures BitAnd(ri.net, ri.mask) == BitAnd(ip, ri.mask)
  {
    var a, b := BitAnd(ri.net, ri.mask), BitAnd(ip, ri.mask);
    forall i | 0 <= i < 32
      ensures Bit(a, i) == Bit(b, i)
    {
      BitOfBitAnd(ri.net, ri.mask, i);
      BitOfBitAnd(ip, ri.mask, i);
    }
    Pow2Of32();
    EqualByBits(a, b, 32);
  }

  // ---------------------------------------------------------------------------
  // ipToUint32
  // ---------------------------------------------------------------------------

  /**
   * What ipToUint32 computes: four dot-separated integers a.b.c.d give
   * a<<24 + b<<16 + c<<8 + d modulo 2^32. The parts are not range-checked.
   */
  function IPv4Value(ip: string): (r: Result<uint32, WslError>)
    ensures r.Err? ==> r.error == (if |Split(ip, '.')| != 4 then InvalidIP else BadOctet(ip))
  {
    var parts := Split(ip, '.');
    if |parts| != 4 then Err(InvalidIP)
    else match (Atoi(parts[0]), Atoi(parts[1]), Atoi(parts[2]), Atoi(parts[3]))
      case (Some(a), Some(b), Some(c), Some(d)) =>
        Ok(Uint32Of(a * 0x100_0000 + b * 0x1_0000 + c * 0x100 + d))
      case _ => Err(BadOctet(ip))
  }

  /** The parse succeeds exactly when there are four parts and each is an integer. */
  lemma IPv4ValueOkIff(ip: string)
    ensures IPv4Value(ip).Ok? <==>
      |Split(ip, '.')| == 4 && forall k :: 0 <= k < 4 ==> Atoi(Split(ip, '.')[k]).Some?
  {
    var parts := Split(ip, '.');
    if |parts| == 4 {
      var a, b, c, d := Atoi(parts[0]), Atoi(parts[1]), Atoi(parts[2]), Atoi(parts[3]);
      assert (forall k :: 0 <= k < 4 ==> Atoi(parts[k]).Some?) <==> a.Some? && b.Some? && c.Some? && d.Some?;
    }
  }

  /**
   * ipToUint32: split on ".", then parse each part and add it, shifted, into
   * a 32-bit accumulator. The shift happens on Go's 64-bit `int` and the
   * conversion to uint32 keeps the low 32 bits.
   */
  method IpToUint32(ip: string) returns (r: Result<uint32, WslError>)
    ensures r == IPv4Value(ip)
  {
    var octets := Split(ip, '.');
    if |octets| != 4 {
      return Err(InvalidIP);
    }
    var io: uint32 := 0;
    var o1 := Atoi(octets[0]);
    if o1.None? {
      return Err(BadOctet(ip));
    }
    io := Uint32Of(io + Uint32Of(ShiftLeft64(o1.value, 24)));
    var o2 := Atoi(octets[1]);
    if o2.None? {
      return Err(BadOctet(ip));
    }
    io := Uint32Of(io + Uint32Of(ShiftLeft64(o2.value, 16)));
    var o3 := Atoi(octets[2]);
    if o3.None? {
      return Err(BadOctet(ip));
    }
    io := Uint32Of(io + Uint32Of(ShiftLeft64(o3.value, 8)));
    var o4 := Atoi(octets[3]);
    if o4.None? {
      return Err(BadOctet(ip));
    }
    io := Uint32Of(io + Uint32Of(o4.value));
    AccumulateOctets(o1.value, o2.value, o3.value, o4.value);
    assert IPv4Value(ip) == Ok(io);
    return Ok(io);
  }

  /** The step-by-step wrapping sum equals the wrapped exact sum. */
  lemma AccumulateOctets(a: int, b: int, c: int, d: int)
    ensures Uint32Of(Uint32Of(Uint32Of(Uint32Of(0 + Uint32Of(ShiftLeft64(a, 24)))
                + Uint32Of(ShiftLeft64(b, 16))) + Uint32Of(ShiftLeft64(c, 8))) + Uint32Of(d))
            == Uint32Of(a * 0x100_0000 + b * 0x1_0000 + c * 0x100 + d)
  {
    assert Pow2(8) == 0x100;
    assert Pow2(16) == 0x1_0000;
    assert Pow2(24) == 0x100_0000;
    Uint32OfInt64(a * 0x100_0000);
    Uint32OfInt64(b * 0x1_0000);
    Uint32OfInt64(c * 0x100);
    var sa := Uint32Of(a * 0x100_0000);
    assert Uint32Of(0 + sa) == sa;
    Uint32OfAdd(a * 0x100_0000, b * 0x1_0000);
    Uint32OfAdd(a * 0x100_0000 + b * 0x1_0000, c * 0x100);
    Uint32OfAdd(a * 0x100_0000 + b * 0x1_0000 + c * 0x100, d);
  }

  /** The dotted-quad text of four numbers. */
  function Quad(a: nat, b: nat, c: nat, d: nat): string
  {
    FormatDecimal(a) + "." + (FormatDecimal(b) + "." + (FormatDecimal(c) + "." + FormatDecimal(d)))
  }

  /** The usual dotted-quad rendering of a 32-bit address. */
  function Dotted(x: uint32): string
  {
    var x1 := x / 256;
    var x2 := x1 / 256;
    Quad(x2 / 256, x2 % 256, x1 % 256, x % 256)
  }

  lemma NoDotInDecimal(n: nat)
    ensures '.' !in FormatDecimal(n)
  {
    var s := FormatDecimal(n);
    forall c | c in s
      ensures c != '.'
    {
      assert DigitValue(c) < 10;
    }
  }

  lemma SplitQuad(a: nat, b: nat, c: nat, d: nat)
    ensures Split(Quad(a, b, c, d), '.') == [FormatDecimal(a), FormatDecimal(b), FormatDecimal(c), FormatDecimal(d)]
  {
    var fa, fb, fc, fd := FormatDecimal(a), FormatDecimal(b), FormatDecimal(c), FormatDecimal(d);
    var t3 := fc + ['.'] + fd;
    var t2 := fb + ['.'] + t3;
    assert Split(t3, '.') == [fc, fd] by {
      NoDotInDecimal(d);
      SplitWithoutSeparator(fd, '.');
      NoDotInDecimal(c);
      SplitAtFirst(fc, fd, '.');
    }
    assert Split(t2, '.') == [fb, fc, fd] by {
      NoDotInDecimal(b);
      SplitAtFirst(fb, t3, '.');
    }
    assert Split(fa + ['.'] + t2, '.') == [fa, fb, fc, fd] by {
      NoDotInDecimal(a);
      SplitAtFirst(fa, t2, '.');
    }
  }

  /** Any four decimal parts parse, with no check that they are below 256: the sum just wraps. */
  lemma IPv4ValueOfQuad(a: nat, b: nat, c: nat, d: nat)
    requires a < TWO63 && b < TWO63 && c < TWO63 && d < TWO63
    ensures IPv4Value(Quad(a, b, c, d)) == Ok(Uint32Of(a * 0x100_0000 + b * 0x1_0000 + c * 0x100 + d))
  {
    SplitQuad(a, b, c, d);
    AtoiFormatDecimal(a);
    AtoiFormatDecimal(b);
    AtoiFormatDecimal(c);
    AtoiFormatDecimal(d);
  }

  /** "256.0.0.1" is accepted and wraps to 0.0.0.1. */
  lemma IPv4ValueNoOctetRangeCheck()
    ensures IPv4Value(Quad(256, 0, 0, 1)) == Ok(1)
  {
    IPv4ValueOfQuad(256, 0, 0, 1);
    assert 256 * 0x100_0000 + 0 * 0x1_0000 + 0 * 0x100 + 1 == TWO32 + 1;
    assert Uint32Of(TWO32 + 1) == 1;
  }

  /** The four bytes of a 32-bit value, most significant first, weigh back to it. */
  lemma ByteSum(x: uint32)
    ensures var x1 := x / 256; var x2 := x1 / 256;
      (x2 / 256) * 0x100_0000 + (x2 % 256) * 0x1_0000 + (x1 % 256) * 0x100 + x % 256 == x
  {
  }

  /** ipToUint32 inverts the dotted-quad rendering. */
  lemma IPv4ValueRoundTrip(x: uint32)
    ensures IPv4Value(Dotted(x)) == Ok(x)
  {
    var x1 := x / 256;
    var x2 := x1 / 256;
    ByteSum(x);
    IPv4ValueOfQuad(x2 / 256, x2 % 256, x1 % 256, x % 256);
    assert Uint32Of(x) == x;
  }

  // ---------------------------------------------------------------------------
  // getRouteInfo: the /proc/net/route scan
  // ---------------------------------------------------------------------------

  const Eth0: string := "eth0"
  /** The field value the scan never stores. */
  const Unset: string := "00000000"

  /** The rows of /proc/net/route output: trimmed, split into lines, header dropped. */
  function RouteRows(out: string): seq<string>
  {
    Split(TrimSpace(out), '\n')[1..]
  }

  /** A field the scan can decode: either it is skipped, or it has the 8 characters hexToUint32LE slices. */
  predicate FieldReadable(f: string)
  {
    f == Unset || |f| >= 8
  }

  /**
   * An eth0 row can be read without a panic: field 1 is always read, field 7
   * only once field 1 was skipped or decoded.
   */
  predicate RowReadable(fs: seq<string>)
  {
    && |fs| >= 2 && FieldReadable(fs[1])
    && ((fs[1] == Unset || HexToUint32LE(fs[1]).Some?) ==> |fs| >= 8 && FieldReadable(fs[7]))
  }

  /** The scan stops once both the network and the mask are nonzero. */
  predicate Complete(ri: RouteInfo)
  {
    ri.mask > 0 && ri.net > 0
  }

  /**
   * One eth0 row: field 1 (Destination) replaces the network and field 7
   * (Mask) the mask, each unless it is 00000000.
   */
  function RouteRow(fs: seq<string>, ri: RouteInfo): (r: Result<RouteInfo, WslError>)
    requires RowReadable(fs)
    ensures r == Err(BadNetwork) <==> fs[1] != Unset && HexToUint32LE(fs[1]).None?
    ensures r == Err(BadNetmask) <==>
      (fs[1] == Unset || HexToUint32LE(fs[1]).Some?) && fs[7] != Unset && HexToUint32LE(fs[7]).None?
    ensures r.Err? ==> r.error == BadNetwork || r.error == BadNetmask
    ensures r.Ok? ==> |fs| >= 8
    ensures r.Ok? && fs[1] == Unset ==> r.value.net == ri.net
    ensures r.Ok? && fs[1] != Unset ==> HexToUint32LE(fs[1]) == Some(r.value.net)
    ensures r.Ok? && fs[7] == Unset ==> r.value.mask == ri.mask
    ensures r.Ok? && fs[7] != Unset ==> HexToUint32LE(fs[7]) == Some(r.value.mask)
  {
    var net := if fs[1] == Unset then Some(ri.net) else HexToUint32LE(fs[1]);
    if net.None? then Err(BadNetwork)
    else
      var mask := if fs[7] == Unset then Some(ri.mask) else HexToUint32LE(fs[7]);
      if mask.None? then Err(BadNetmask)
      else Ok(RouteInfo(net.value, mask.value))
  }

  /**
   * The rows the scan reaches can be read without a panic: each has a first
   * field, and each eth0 row has 8 fields whose decoded ones are long enough.
   * Rows after the scan stops are not constrained.
   */
  predicate RoutesReadable(rows: seq<string>, ri: RouteInfo)
    decreases |rows|
  {
    rows == [] || Complete(ri) ||
    (var fs := Fields(rows[0]);
     |fs| >= 1 &&
     (if fs[0] != Eth0 then RoutesReadable(rows[1..], ri)
      else RowReadable(fs) && (RouteRow(fs, ri).Ok? ==> RoutesReadable(rows[1..], RouteRow(fs, ri).value))))
  }

  /** The route scan of getRouteInfo, from state `ri` over `rows`. */
  function ScanRoutes(rows: seq<string>, ri: RouteInfo): (r: Result<RouteInfo, WslError>)
    requires RoutesReadable(rows, ri)
    ensures r.Err? ==> r.error == BadNetwork || r.error == BadNetmask
    decreases |rows|
  {
    if rows == [] || Complete(ri) then Ok(ri)
    else
      var fs := Fields(rows[0]);
      if fs[0] != Eth0 then ScanRoutes(rows[1..], ri)
      else match RouteRow(fs, ri)
        case Err(e) => Err(e)
        case Ok(next) => ScanRoutes(rows[1..], next)
  }

  /** getRouteInfo, over the output of `cat /proc/net/route`. */
  method GetRouteInfo(out: string) returns (r: Result<RouteInfo, WslError>)
    requires RoutesReadable(RouteRows(out), RouteInfo(0, 0))
    ensures r == ScanRoutes(RouteRows(out), RouteInfo(0, 0))
  {
    var ri := RouteInfo(0, 0);
    var lines := Split(TrimSpace(out), '\n');
    lines := lines[1..];
    var k := 0;
    while k < |lines|
      invariant 0 <= k <= |lines|
      invariant RoutesReadable(lines[k..], ri)
      invariant ScanRoutes(lines[k..], ri) == ScanRoutes(lines, RouteInfo(0, 0))
    {
      var fs := Fields(lines[k]);
      if Complete(ri) {
        break;
      }
      assert lines[k..][1..] == lines[k + 1..];
      if fs[0] != Eth0 {
        k := k + 1;
        continue;
      }
      if fs[1] != Unset {
        var net := HexToUint32LE(fs[1]);
        if net.None? {
          return Err(BadNetwork);
        }
        ri := ri.(net := net.value);
      }
      if fs[7] != Unset {
        var mask := HexToUint32LE(fs[7]);
        if mask.None? {
          return Err(BadNetmask);
        }
        ri := ri.(mask := mask.value);
      }
      k := k + 1;
    }
    return Ok(ri);
  }

  predicate IsEth0Row(row: string)
  {
    |Fields(row)| >= 1 && Fields(row)[0] == Eth0
  }

  function Eth0Rows(rows: seq<string>): seq<string>
  {
    if rows == [] then []
    else (if IsEth0Row(rows[0]) then [rows[0]] else []) + Eth0Rows(rows[1..])
  }

  /** Rows of other interfaces are skipped: the scan sees only the eth0 rows. */
  lemma {:induction false} ScanRoutesIgnoresOtherInterfaces(rows: seq<string>, ri: RouteInfo)
    requires RoutesReadable(rows, ri)
    ensures RoutesReadable(Eth0Rows(rows), ri)
    ensures ScanRoutes(Eth0Rows(rows), ri) == ScanRoutes(rows, ri)
  {
    if rows != [] {
      var e := Eth0Rows(rows[1..]);
      if Complete(ri) {
      } else if !IsEth0Row(rows[0]) {
        assert Eth0Rows(rows) == e;
        ScanRoutesIgnoresOtherInterfaces(rows[1..], ri);
      } else {
        assert Eth0Rows(rows) == [rows[0]] + e;
        assert ([rows[0]] + e)[1..] == e;
        var fs := Fields(rows[0]);
        if RouteRow(fs, ri).Ok? {
          ScanRoutesIgnoresOtherInterfaces(rows[1..], RouteRow(fs, ri).value);
        }
      }
    }
  }

  /** Row `row` is an eth0 row whose field `f` is not 00000000 and decodes. */
  predicate StoresField(row: string, f: nat)
  {
    IsEth0Row(row) && f < |Fields(row)| && Fields(row)[f] != Unset
    && |Fields(row)[f]| >= 8 && HexToUint32LE(Fields(row)[f]).Some?
  }

  function FieldValue(row: string, f: nat): uint32
    requires StoresField(row, f)
  {
    HexToUint32LE(Fields(row)[f]).value
  }

  /** The value the scan holds for field `f` after `row`, having held `v` before it. */
  function Decoded(row: string, f: nat, v: uint32): uint32
  {
    if StoresField(row, f) then FieldValue(row, f) else v
  }

  /** The value held for field `f` after taking every row of `rows` in order, starting from `v`. */
  function LastDecoded(rows: seq<string>, f: nat, v: uint32): uint32
    decreases |rows|
  {
    if rows == [] then v else LastDecoded(rows[1..], f, Decoded(rows[0], f, v))
  }

  /** Row k is the last row of `rows` that stores field `f`. */
  predicate LastStoring(rows: seq<string>, f: nat, k: nat)
  {
    k < |rows| && StoresField(rows[k], f) && forall j :: k < j < |rows| ==> !StoresField(rows[j], f)
  }

  /** When no row stores field `f`, the starting value is kept. */
  lemma {:induction false} LastDecodedNone(rows: seq<string>, f: nat, v: uint32)
    requires forall k :: 0 <= k < |rows| ==> !StoresField(rows[k], f)
    ensures LastDecoded(rows, f, v) == v
    decreases |rows|
  {
    if rows != [] {
      assert !StoresField(rows[0], f);
      assert forall j :: 0 <= j < |rows[1..]| ==> rows[1..][j] == rows[j + 1];
      LastDecodedNone(rows[1..], f, v);
    }
  }

  /** The value held after `rows` is the field of the LAST row that stores one. */
  lemma {:induction false} LastDecodedIsLast(rows: seq<string>, f: nat, v: uint32, k: nat)
    requires LastStoring(rows, f, k)
    ensures LastDecoded(rows, f, v) == FieldValue(rows[k], f)
    decreases |rows|
  {
    var tail := rows[1..];
    assert forall j :: 0 <= j < |tail| ==> tail[j] == rows[j + 1];
    if k == 0 {
      LastDecodedNone(tail, f, FieldValue(rows[0], f));
    } else {
      assert LastStoring(tail, f, k - 1);
      LastDecodedIsLast(tail, f, Decoded(rows[0], f, v), k - 1);
    }
  }

  /** The network and mask after taking every row of `rows` from state `ri`. */
  function Through(rows: seq<string>, ri: RouteInfo): RouteInfo
  {
    RouteInfo(LastDecoded(rows, 1, ri.net), LastDecoded(rows, 7, ri.mask))
  }

  /** The network and mask after `row`, from state `ri`. */
  function After(row: string, ri: RouteInfo): RouteInfo
  {
    RouteInfo(Decoded(row, 1, ri.net), Decoded(row, 7, ri.mask))
  }

  /** The scan gets past `row` from state `ri`: it is another interface's row, or both its fields convert. */
  predicate RowPasses(row: string, ri: RouteInfo)
  {
    !IsEth0Row(row) || (RowReadable(Fields(row)) && RouteRow(Fields(row), ri).Ok?)
  }

  /**
   * One step of the scan past a row that passes: each part becomes the
   * row's decoded field, or stays when the row stores none.
   */
  lemma RouteStep(rows: seq<string>, ri: RouteInfo) returns (next: RouteInfo)
    requires rows != [] && !Complete(ri) && RoutesReadable(rows, ri) && RowPasses(rows[0], ri)
    ensures RoutesReadable(rows[1..], next) && ScanRoutes(rows[1..], next) == ScanRoutes(rows, ri)
    ensures next == After(rows[0], ri)
  {
    var fs := Fields(rows[0]);
    next := if fs[0] != Eth0 then ri else RouteRow(fs, ri).value;
  }

  lemma ThroughCons(rows: seq<string>, k: nat, ri: RouteInfo)
    requires k < |rows|
    ensures Through(rows[..k + 1], ri)
      == Through(rows[1..][..k], After(rows[0], ri))
  {
    var p := rows[..k + 1];
    assert p[0] == rows[0] && p[1..] == rows[1..][..k];
  }

  /**
   * What getRouteInfo returns: the scan takes rows until the network and
   * mask are both nonzero (or the rows run out), and each part is the
   * decoded field of the last eth0 row taken that stores one, or 0 when none does.
   */
  lemma {:induction false} ScanRoutesResult(rows: seq<string>, ri: RouteInfo)
    requires RoutesReadable(rows, ri) && ScanRoutes(rows, ri).Ok?
    ensures exists m ::
      && 0 <= m <= |rows| && ScanRoutes(rows, ri) == Ok(Through(rows[..m], ri))
      && (m < |rows| ==> Complete(Through(rows[..m], ri)))
      && (forall k :: 0 <= k < m ==> !Complete(Through(rows[..k], ri)))
    decreases |rows|
  {
    if rows == [] || Complete(ri) {
      assert rows[..0] == [];
      assert ScanRoutes(rows, ri) == Ok(Through(rows[..0], ri));
    } else {
      assert RowPasses(rows[0], ri);
      var next := RouteStep(rows, ri);
      ScanRoutesResult(rows[1..], next);
      var m' :| && 0 <= m' <= |rows[1..]| && ScanRoutes(rows[1..], next) == Ok(Through(rows[1..][..m'], next))
        && (m' < |rows[1..]| ==> Complete(Through(rows[1..][..m'], next)))
        && (forall k :: 0 <= k < m' ==> !Complete(Through(rows[1..][..k], next)));
      ThroughCons(rows, m', ri);
      forall k | 0 <= k < m' + 1
        ensures !Complete(Through(rows[..k], ri))
      {
        if k == 0 {
          assert rows[..0] == [];
        } else {
          ThroughCons(rows, k - 1, ri);
        }
      }
      assert ScanRoutes(rows, ri) == Ok(Through(rows[..m' + 1], ri));
    }
  }

  /**
   * The scan fails at row m: it reaches m (no prefix up to m has both parts
   * nonzero), every earlier row passes, and row m is an eth0 row that does not.
   */
  predicate FailsAt(rows: seq<string>, m: nat, ri: RouteInfo)
  {
    && m < |rows|
    && (forall k :: 0 <= k <= m ==> !Complete(Through(rows[..k], ri)))
    && (forall j :: 0 <= j < m ==> RowPasses(rows[j], Through(rows[..j], ri)))
    && !RowPasses(rows[m], Through(rows[..m], ri))
  }

  /** Failing at row m + 1 is passing row 0 and then failing at row m of the rest. */
  lemma FailsAtCons(rows: seq<string>, m: nat, ri: RouteInfo)
    requires m + 1 < |rows|
    ensures FailsAt(rows, m + 1, ri) <==>
      !Complete(ri) && RowPasses(rows[0], ri) && FailsAt(rows[1..], m, After(rows[0], ri))
  {
    var next := After(rows[0], ri);
    assert rows[..0] == [];
    forall k | 0 <= k <= m + 1
      ensures k > 0 ==> Through(rows[..k], ri) == Through(rows[1..][..k - 1], next)
    {
      if k > 0 {
        ThroughCons(rows, k - 1, ri);
      }
    }
    if FailsAt(rows[1..], m, next) && !Complete(ri) && RowPasses(rows[0], ri) {
      forall k | 0 <= k <= m + 1
        ensures !Complete(Through(rows[..k], ri))
      {
        if k > 0 {
          assert !Complete(Through(rows[1..][..k - 1], next));
        }
      }
      forall j | 0 <= j < m + 1
        ensures RowPasses(rows[j], Through(rows[..j], ri))
      {
        if j > 0 {
          assert rows[j] == rows[1..][j - 1];
        }
      }
      assert rows[m + 1] == rows[1..][m];
    }
    if FailsAt(rows, m + 1, ri) {
      assert !Complete(Through(rows[..0], ri)) && RowPasses(rows[0], Through(rows[..0], ri));
      forall k | 0 <= k <= m
        ensures !Complete(Through(rows[1..][..k], next))
      {
        assert !Complete(Through(rows[..k + 1], ri));
      }
      forall j | 0 <= j < m
        ensures RowPasses(rows[1..][j], Through(rows[1..][..j], next))
      {
        assert RowPasses(rows[j + 1], Through(rows[..j + 1], ri));
      }
      assert rows[m + 1] == rows[1..][m];
    }
  }

  /** Failing at the first row gives that row's conversion error. */
  lemma FailsAtHead(rows: seq<string>, ri: RouteInfo)
    requires RoutesReadable(rows, ri) && FailsAt(rows, 0, ri)
    ensures RowReadable(Fields(rows[0]))
    ensures ScanRoutes(rows, ri) == Err(RouteRow(Fields(rows[0]), Through(rows[..0], ri)).error)
  {
    assert rows[..0] == [];
    assert Through(rows[..0], ri) == ri;
  }

  /** Failing at row m gives that row's conversion error. */
  lemma {:induction false} ScanRoutesFailsAt(rows: seq<string>, m: nat, ri: RouteInfo)
    requires RoutesReadable(rows, ri) && FailsAt(rows, m, ri)
    ensures RowReadable(Fields(rows[m]))
    ensures ScanRoutes(rows, ri) == Err(RouteRow(Fields(rows[m]), Through(rows[..m], ri)).error)
    decreases m
  {
    if m == 0 {
      FailsAtHead(rows, ri);
    } else {
      assert !Complete(ri) && RowPasses(rows[0], ri) && FailsAt(rows[1..], m - 1, After(rows[0], ri)) by {
        FailsAtCons(rows, m - 1, ri);
      }
      var next := RouteStep(rows, ri);
      var tail := rows[1..];
      assert tail[m - 1] == rows[m] && Through(tail[..m - 1], next) == Through(rows[..m], ri) by {
        ThroughCons(rows, m - 1, ri);
      }
      ScanRoutesFailsAt(tail, m - 1, next);
    }
  }

  /** A failed scan failed at some row m, with that row's conversion error. */
  lemma {:induction false} ScanRoutesFailure(rows: seq<string>, ri: RouteInfo)
    requires RoutesReadable(rows, ri) && ScanRoutes(rows, ri).Err?
    ensures exists m: nat ::
      && FailsAt(rows, m, ri) && RowReadable(Fields(rows[m]))
      && ScanRoutes(rows, ri) == Err(RouteRow(Fields(rows[m]), Through(rows[..m], ri)).error)
    decreases |rows|
  {
    assert rows[..0] == [];
    assert Through(rows[..0], ri) == ri;
    if RowPasses(rows[0], ri) {
      var next := RouteStep(rows, ri);
      ScanRoutesFailure(rows[1..], next);
      var m: nat :| && FailsAt(rows[1..], m, next) && RowReadable(Fields(rows[1..][m]))
        && ScanRoutes(rows[1..], next) == Err(RouteRow(Fields(rows[1..][m]), Through(rows[1..][..m], next)).error);
      FailsAtCons(rows, m, ri);
      ThroughCons(rows, m, ri);
      assert rows[1..][m] == rows[m + 1];
    } else {
      assert FailsAt(rows, 0, ri);
    }
  }

  /** Once the network and mask are both nonzero, later rows are never read. */
  lemma {:induction false} ScanRoutesStopsWhenComplete(rows: seq<string>, rest: seq<string>, ri: RouteInfo)
    requires RoutesReadable(rows, ri) && ScanRoutes(rows, ri).Ok? && Complete(ScanRoutes(rows, ri).value)
    ensures RoutesReadable(rows + rest, ri)
    ensures ScanRoutes(rows + rest, ri) == ScanRoutes(rows, ri)
  {
    if rows != [] && !Complete(ri) {
      assert (rows + rest)[1..] == rows[1..] + rest;
      assert (rows + rest)[0] == rows[0];
      var fs := Fields(rows[0]);
      var next := if fs[0] != Eth0 then ri else RouteRow(fs, ri).value;
      ScanRoutesStopsWhenComplete(rows[1..], rest, next);
    }
  }

  // ---------------------------------------------------------------------------
  // GetWSLIP: the backward /proc/net/fib_trie scan
  // ---------------------------------------------------------------------------

  /** fib_trie marks a local host address with this text on the line after the address. */
  const Marker: string := "32 host LOCAL"

  function FibLines(out: string): seq<string>
  {
    Split(TrimSpace(out), '\n')
  }

  predicate IsMarker(lines: seq<string>, i: nat)
    requires i < |lines|
  {
    Contains(lines[i], Marker)
  }

  /** The line before a marker line has an address as its second field. */
  predicate HasCandidate(lines: seq<string>, i: nat)
  {
    1 <= i < |lines| && |Fields(lines[i - 1])| >= 2
  }

  function Candidate(lines: seq<string>, i: nat): string
    requires HasCandidate(lines, i)
  {
    TrimSpace(Fields(lines[i - 1])[1])
  }

  /** Marker line `i` names an address that parses and lies in the route's range. */
  predicate Accepts(lines: seq<string>, i: nat, ri: RouteInfo)
  {
    HasCandidate(lines, i) && IPv4Value(Candidate(lines, i)).Ok?
    && IsIPInRange(ri, IPv4Value(Candidate(lines, i)).value)
  }

  /** Marker line `i` names an address that parses but lies outside the route's range. */
  predicate Rejects(lines: seq<string>, i: nat, ri: RouteInfo)
  {
    HasCandidate(lines, i) && IPv4Value(Candidate(lines, i)).Ok?
    && !IsIPInRange(ri, IPv4Value(Candidate(lines, i)).value)
  }

  /**
   * The marker lines the backward scan reaches have a line before them with
   * at least two fields (otherwise `lines[i-1]` or `fs[1]` panics).
   */
  predicate FibReadable(lines: seq<string>, n: nat, ri: RouteInfo)
    requires n <= |lines|
    decreases n
  {
    n == 0 ||
    (if !IsMarker(lines, n - 1) then FibReadable(lines, n - 1, ri)
     else HasCandidate(lines, n - 1) && (Rejects(lines, n - 1, ri) ==> FibReadable(lines, n - 1, ri)))
  }

  /** The scan of lines n-1 down to 0: the first marker from the end whose address is in range. */
  function ScanFib(lines: seq<string>, n: nat, ri: RouteInfo): (r: Result<string, WslError>)
    requires n <= |lines| && FibReadable(lines, n, ri)
    ensures r.Err? ==> r.error.IPNotFound? || r.error.BadAddress?
    decreases n
  {
    if n == 0 then Err(IPNotFound)
    else if !IsMarker(lines, n - 1) then ScanFib(lines, n - 1, ri)
    else
      assert HasCandidate(lines, n - 1);
      var ipstr := Candidate(lines, n - 1);
      match IPv4Value(ipstr)
      case Err(_) => Err(BadAddress(ipstr))
      case Ok(ip) =>
        if IsIPInRange(ri, ip) then Ok(ipstr)
        else assert Rejects(lines, n - 1, ri); ScanFib(lines, n - 1, ri)
  }

  predicate FibOutputReadable(ri: RouteInfo, out: string)
  {
    TrimSpace(out) == "" || FibReadable(FibLines(out), |FibLines(out)|, ri)
  }

  /** The fib_trie half of GetWSLIP: blank output is an error, otherwise scan every line. */
  function LocalIP(ri: RouteInfo, out: string): (r: Result<string, WslError>)
    requires FibOutputReadable(ri, out)
    ensures r == Err(InvalidFibTrie) <==> TrimSpace(out) == ""
  {
    if TrimSpace(out) == "" then Err(InvalidFibTrie)
    else ScanFib(FibLines(out), |FibLines(out)|, ri)
  }

  /** Every marker line after index i and before n names a parsable address out of range. */
  predicate RejectedAfter(lines: seq<string>, i: nat, n: nat, ri: RouteInfo)
    requires n <= |lines|
  {
    forall j :: i < j < n && IsMarker(lines, j) ==> Rejects(lines, j, ri)
  }

  lemma ExtendRejected(lines: seq<string>, k: nat, i: nat, ri: RouteInfo)
    requires i < |lines| && RejectedAfter(lines, k, i, ri)
    requires IsMarker(lines, i) ==> Rejects(lines, i, ri)
    ensures RejectedAfter(lines, k, i + 1, ri)
  {
  }

  /** Marker line i is the last accepting one before n, and names `ip`. */
  predicate LastAcceptedAt(lines: seq<string>, i: nat, n: nat, ri: RouteInfo, ip: string)
    requires n <= |lines|
  {
    i < n && IsMarker(lines, i) && Accepts(lines, i, ri) && Candidate(lines, i) == ip
    && RejectedAfter(lines, i, n, ri)
  }

  /**
   * The scan returns the address of the LAST accepting marker line, and only
   * when every marker line after it was rejected.
   */
  lemma {:induction false} ScanFibFindsLastInRange(lines: seq<string>, n: nat, ri: RouteInfo)
    requires n <= |lines| && FibReadable(lines, n, ri) && ScanFib(lines, n, ri).Ok?
    ensures exists i: nat :: LastAcceptedAt(lines, i, n, ri, ScanFib(lines, n, ri).value)
  {
    var i := n - 1;
    var ip := ScanFib(lines, n, ri).value;
    if IsMarker(lines, i) && Accepts(lines, i, ri) {
      assert LastAcceptedAt(lines, i, n, ri, ip);
    } else {
      FibStep(lines, n, ri);
      ScanFibFindsLastInRange(lines, i, ri);
      var k: nat :| LastAcceptedAt(lines, k, i, ri, ip);
      ExtendRejected(lines, k, i, ri);
      assert LastAcceptedAt(lines, k, n, ri, ip);
    }
  }

  /**
   * The backward scan stops at marker line i before n: its address is not a
   * parsable out-of-range one, and every marker line after it is.
   */
  predicate StopsAt(lines: seq<string>, i: nat, n: nat, ri: RouteInfo)
    requires n <= |lines|
  {
    i < n && IsMarker(lines, i) && HasCandidate(lines, i) && !Rejects(lines, i, ri)
    && RejectedAfter(lines, i, n, ri)
  }

  /** What the scan returns when it stops at marker line i. */
  function Verdict(lines: seq<string>, i: nat, ri: RouteInfo): Result<string, WslError>
    requires HasCandidate(lines, i)
  {
    if IPv4Value(Candidate(lines, i)).Err? then Err(BadAddress(Candidate(lines, i)))
    else Ok(Candidate(lines, i))
  }

  /**
   * Where the scan stops decides its result: the address of that line when
   * it is in range, "failed to convert ip" when it does not parse.
   */
  lemma {:induction false} ScanFibStopsAt(lines: seq<string>, i: nat, n: nat, ri: RouteInfo)
    requires n <= |lines| && FibReadable(lines, n, ri) && StopsAt(lines, i, n, ri)
    ensures ScanFib(lines, n, ri) == Verdict(lines, i, ri)
    ensures Verdict(lines, i, ri).Ok? ==> Accepts(lines, i, ri)
    decreases n
  {
    FibStep(lines, n, ri);
    if i < n - 1 {
      assert IsMarker(lines, n - 1) ==> Rejects(lines, n - 1, ri);
      assert StopsAt(lines, i, n - 1, ri);
      ScanFibStopsAt(lines, i, n - 1, ri);
    }
  }

  /** Conversely to ScanFibFindsLastInRange: the last accepting marker line, with only rejected ones after it, is found. */
  lemma ScanFibFinds(lines: seq<string>, i: nat, n: nat, ri: RouteInfo, ip: string)
    requires n <= |lines| && FibReadable(lines, n, ri) && LastAcceptedAt(lines, i, n, ri, ip)
    ensures ScanFib(lines, n, ri) == Ok(ip)
  {
    ScanFibStopsAt(lines, i, n, ri);
  }

  /**
   * "failed to convert ip" names the address of the marker line where the
   * scan stops, which does not parse; every later marker line was rejected.
   */
  lemma {:induction false} ScanFibBadAddress(lines: seq<string>, n: nat, ri: RouteInfo)
    requires n <= |lines| && FibReadable(lines, n, ri) && ScanFib(lines, n, ri).Err?
    requires ScanFib(lines, n, ri).error.BadAddress?
    ensures exists i: nat ::
      && StopsAt(lines, i, n, ri) && IPv4Value(Candidate(lines, i)).Err?
      && ScanFib(lines, n, ri) == Err(BadAddress(Candidate(lines, i)))
    decreases n
  {
    var i := n - 1;
    FibStep(lines, n, ri);
    if IsMarker(lines, i) && !Rejects(lines, i, ri) {
      assert StopsAt(lines, i, n, ri);
    } else {
      ScanFibBadAddress(lines, i, ri);
      var k: nat :| StopsAt(lines, k, i, ri) && IPv4Value(Candidate(lines, k)).Err?
        && ScanFib(lines, i, ri) == Err(BadAddress(Candidate(lines, k)));
      ExtendRejected(lines, k, i, ri);
      assert StopsAt(lines, k, n, ri);
    }
  }

  /** The scan finds nothing exactly when every marker line names a parsable address out of range. */
  lemma {:induction false} ScanFibNotFound(lines: seq<string>, n: nat, ri: RouteInfo)
    requires n <= |lines| && FibReadable(lines, n, ri)
    ensures ScanFib(lines, n, ri) == Err(IPNotFound) <==>
      forall j :: 0 <= j < n && IsMarker(lines, j) ==> Rejects(lines, j, ri)
  {
    if n > 0 && (!IsMarker(lines, n - 1) || Rejects(lines, n - 1, ri)) {
      ScanFibNotFound(lines, n - 1, ri);
    }
  }

  /** One backward step of the fib_trie scan, as the loop of GetWSLIP takes it. */
  lemma FibStep(lines: seq<string>, n: nat, ri: RouteInfo)
    requires 0 < n <= |lines| && FibReadable(lines, n, ri)
    ensures !IsMarker(lines, n - 1) ==> FibReadable(lines, n - 1, ri) && ScanFib(lines, n, ri) == ScanFib(lines, n - 1, ri)
    ensures IsMarker(lines, n - 1) ==> HasCandidate(lines, n - 1)
    ensures IsMarker(lines, n - 1) && IPv4Value(Candidate(lines, n - 1)).Err? ==>
      ScanFib(lines, n, ri) == Err(BadAddress(Candidate(lines, n - 1)))
    ensures IsMarker(lines, n - 1) && Accepts(lines, n - 1, ri) ==> ScanFib(lines, n, ri) == Ok(Candidate(lines, n - 1))
    ensures IsMarker(lines, n - 1) && Rejects(lines, n - 1, ri) ==>
      FibReadable(lines, n - 1, ri) && ScanFib(lines, n, ri) == ScanFib(lines, n - 1, ri)
  {
  }

  /** GetWSLIP, over the outputs of `cat /proc/net/route` and `cat /proc/net/fib_trie`. */
  method GetWSLIP(routeOut: string, fibOut: string) returns (r: Result<string, WslError>)
    requires RoutesReadable(RouteRows(routeOut), RouteInfo(0, 0))
    requires ScanRoutes(RouteRows(routeOut), RouteInfo(0, 0)).Ok? ==>
      FibOutputReadable(ScanRoutes(RouteRows(routeOut), RouteInfo(0, 0)).value, fibOut)
    ensures match ScanRoutes(RouteRows(routeOut), RouteInfo(0, 0))
      case Err(e) => r == Err(e)
      case Ok(ri) => r == LocalIP(ri, fibOut)
  {
    var route := GetRouteInfo(routeOut);
    if route.Err? {
      return Err(route.error);
    }
    var ri := route.value;
    var sout := TrimSpace(fibOut);
    if sout == "" {
      return Err(InvalidFibTrie);
    }
    var lines := Split(sout, '\n');
    assert lines == FibLines(fibOut);
    var i := |lines| - 1;
    while i >= 0
      invariant -1 <= i < |lines|
      invariant FibReadable(lines, i + 1, ri)
      invariant ScanFib(lines, i + 1, ri) == LocalIP(ri, fibOut)
    {
      FibStep(lines, i + 1, ri);
      var line := lines[i];
      if Contains(line, Marker) {
        assert IsMarker(lines, i);
        var fs := Fields(lines[i - 1]);
        var ipstr := TrimSpace(fs[1]);
        assert ipstr == Candidate(lines, i);
        var ip := IpToUint32(ipstr);
        if ip.Err? {
          return Err(BadAddress(ipstr));
        }
        if IsIPInRange(ri, ip.value) {
          return Ok(ipstr);
        }
        assert Rejects(lines, i, ri);
      }
      i := i - 1;
    }
    return Err(IPNotFound);
  }

  // ---------------------------------------------------------------------------
  // UTF16toUTF8
  // ---------------------------------------------------------------------------

  /** Consecutive byte pairs read as little-endian 16-bit code units. */
  function LittleEndianUnits(bs: seq<uint8>): (us: seq<uint16>)
    ensures |us| == |bs| / 2
  {
    if |bs| < 2 then []
    else
      var u: int := bs[0] as int + 256 * (bs[1] as int);
      [u] + LittleEndianUnits(bs[2..])
  }

  /** The little-endian bytes of 16-bit code units, as Windows writes them. */
  function LittleEndianBytes(us: seq<uint16>): (bs: seq<uint8>)
    ensures |bs| == 2 * |us|
  {
    if us == [] then [] else [us[0] % 256, us[0] / 256] + LittleEndianBytes(us[1..])
  }

  /**
   * UTF16toUTF8: the bytes are viewed as len/2 little-endian code units and
   * decoded per RFC 2781; an odd trailing byte is not read.
   */
  function UTF16toUTF8(input: seq<uint8>): (s: string)
    ensures |s| <= |input| / 2
    ensures |input| < 2 ==> s == ""
  {
    var n := |input| / 2;
    if n == 0 then "" else Utf16.Decode(LittleEndianUnits(input[..2 * n]))
  }

  lemma {:induction false} UnitsOfBytes(us: seq<uint16>)
    ensures LittleEndianUnits(LittleEndianBytes(us)) == us
  {
    if us != [] {
      var bs := LittleEndianBytes(us);
      assert bs[2..] == LittleEndianBytes(us[1..]);
      UnitsOfBytes(us[1..]);
      assert [us[0]] + us[1..] == us;
    }
  }

  /** Text that Windows wrote as UTF-16LE comes back unchanged. */
  lemma UTF16toUTF8RoundTrip(s: string)
    ensures UTF16toUTF8(LittleEndianBytes(Utf16.Encode(s))) == s
  {
    var bs := LittleEndianBytes(Utf16.Encode(s));
    assert bs[..2 * (|bs| / 2)] == bs;
    UnitsOfBytes(Utf16.Encode(s));
    Utf16.DecodeEncode(s);
  }

  lemma {:induction false} UnitsIgnoreOddByte(bs: seq<uint8>, b: uint8)
    requires |bs| % 2 == 0
    ensures LittleEndianUnits(bs + [b]) == LittleEndianUnits(bs)
  {
    if |bs| >= 2 {
      assert (bs + [b])[2..] == bs[2..] + [b];
      UnitsIgnoreOddByte(bs[2..], b);
    }
  }

  /** An odd trailing byte is dropped. */
  lemma UTF16toUTF8DropsOddByte(bs: seq<uint8>, b: uint8)
    requires |bs| % 2 == 0
    ensures UTF16toUTF8(bs + [b]) == UTF16toUTF8(bs)
  {
    assert (bs + [b])[..|bs|] == bs;
    assert bs[..|bs|] == bs;
  }
}
