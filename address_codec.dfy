/**
 * Conversion between dotted-decimal IPv4 text and the integer form the
 * sweeper iterates and sorts on (`ipToInt` and `intToIP` in src/scli.go).
 *
 * `ipToInt` reads its text with Go's `net.ParseIP(..).To4()`.  For IPv4 text
 * that library function, from Go 1.17 on, accepts exactly the canonical
 * dotted quad: four fields separated by '.', each a non-empty run of decimal
 * digits without a leading zero and with value at most 255.  `ParseIPv4` is
 * that parser.
 */
module AddressCodec {
  import opened Wrappers
  import opened TextSplit

  /** One octet of an address, as the int that Go's `int(ip[k])` yields. */
  type Byte = b: int | 0 <= b < 256

  /** Number of distinct IPv4 addresses; every address integer lies below it. */
  const AddressSpace: int := 0x1_0000_0000

  predicate IsDigit(c: char) { '0' <= c <= '9' }

  predicate AllDigits(s: string) { forall k :: 0 <= k < |s| ==> IsDigit(s[k]) }

  function DigitChar(d: nat): (c: char)
    requires d < 10
    ensures IsDigit(c)
  {
    ('0' as int + d) as char
  }

  function DigitValue(c: char): (d: nat)
    requires IsDigit(c)
    ensures d < 10 && DigitChar(d) == c
  {
    c as int - '0' as int
  }

  /** The value of a run of decimal digits, most significant first. */
  function DecimalValue(s: string): nat
    requires AllDigits(s)
  {
    if s == [] then 0 else DecimalValue(s[..|s| - 1]) * 10 + DigitValue(s[|s| - 1])
  }

  /**
   * Go's `%d` for a non-negative int: a canonical run of digits whose decimal
   * value is `n`, so it holds neither '.' nor '-'.
   */
  function FormatDecimal(n: nat): (r: string)
    ensures Canonical(r) && DecimalValue(r) == n
    ensures '.' !in r && '-' !in r
    decreases n
  {
    if n < 10 then [DigitChar(n)]
    else
      var p := FormatDecimal(n / 10);
      var r := p + [DigitChar(n % 10)];
      assert r[..|r| - 1] == p && r[0] == p[0];
      assert forall c :: c in r ==> IsDigit(c) by {
        forall c | c in r ensures IsDigit(c) {
          var k :| 0 <= k < |r| && r[k] == c;
          if k < |p| { assert p[k] == c; }
        }
      }
      r
  }

  /** A field in the form `%d` writes: digits only, and no leading zero unless the field is "0". */
  predicate Canonical(f: string)
  {
    f != [] && AllDigits(f) && (|f| > 1 ==> f[0] != '0')
  }

  /** One field of a dotted quad, as the IPv4 parser reads it. */
  function ParseByte(f: string): (r: Option<Byte>)
    ensures r.Some? <==> Canonical(f) && DecimalValue(f) < 256
    ensures r.Some? ==> r.value == DecimalValue(f)
  {
    if f == [] || !AllDigits(f) then None
    else if |f| > 1 && f[0] == '0' then None
    else if DecimalValue(f) > 255 then None
    else Some(DecimalValue(f))
  }

  /** `net.ParseIP(s).To4()` for dotted-quad text; None stands for Go's nil. */
  function ParseIPv4(s: string): (r: Option<seq<Byte>>)
    ensures r.Some? ==> |r.value| == 4
  {
    var fields := Split(s, '.');
    if |fields| != 4 then None
    else
      match (ParseByte(fields[0]), ParseByte(fields[1]), ParseByte(fields[2]), ParseByte(fields[3]))
      case (Some(o0), Some(o1), Some(o2), Some(o3)) => Some([o0, o1, o2, o3])
      case _ => None
  }

  predicate IsIPv4(s: string) { ParseIPv4(s).Some? }

  /** `o0<<24 + o1<<16 + o2<<8 + o3`, with Go's `int` taken as 64 bits wide, so that nothing wraps. */
  function Pack(o: seq<Byte>): (n: nat)
    requires |o| == 4
    ensures n < AddressSpace
  {
    (o[0] as int) * 0x100_0000 + (o[1] as int) * 0x1_0000 + (o[2] as int) * 0x100 + o[3] as int
  }

  /**
   * The four octets `(n>>24)&0xFF, (n>>16)&0xFF, (n>>8)&0xFF, n&0xFF`.  For a
   * positive divisor Dafny's `/` rounds down like Go's arithmetic shift, and
   * `% 256` is the low byte of the two's-complement form like `& 0xFF`, so
   * this holds for negative `n` as well.
   */
  function Unpack(n: int): (o: seq<Byte>)
    ensures |o| == 4
    ensures Pack(o) == n % AddressSpace
  {
    ShiftsByBytes(n);
    [(n / 0x100_0000) % 256, (n / 0x1_0000) % 256, (n / 0x100) % 256, n % 256]
  }

  /**
   * Go's `fmt.Sprintf("%d.%d.%d.%d", ...)` of four octets: text that the IPv4
   * parser reads back as the same octets, and that holds no '-'.
   */
  function FormatIPv4(o: seq<Byte>): (r: string)
    requires |o| == 4
    ensures ParseIPv4(r) == Some(o)
    ensures '-' !in r
  {
    var f := [FormatDecimal(o[0]), FormatDecimal(o[1]), FormatDecimal(o[2]), FormatDecimal(o[3])];
    var r := f[0] + "." + f[1] + "." + f[2] + "." + f[3];
    JoinFour(f[0], f[1], f[2], f[3]);
    SplitJoin(f, '.');
    assert [o[0], o[1], o[2], o[3]] == o;
    assert forall c :: c in r ==> c == '.' || c in f[0] || c in f[1] || c in f[2] || c in f[3];
    r
  }

  /** `ipToInt`: the address as an integer, and 0 for text that is not IPv4. */
  function IpToInt(s: string): (n: nat)
    ensures n < AddressSpace
    ensures !IsIPv4(s) ==> n == 0
  {
    match ParseIPv4(s)
    case None => 0
    case Some(o) => Pack(o)
  }

  /**
   * `intToIP`: dotted-decimal text that the IPv4 parser reads back as the
   * octets `(n>>24)&0xFF, (n>>16)&0xFF, (n>>8)&0xFF, n&0xFF`, which `Unpack`
   * characterises as the octets whose packing is `n` modulo 2^32.
   */
  function IntToIP(n: int): (r: string)
    ensures ParseIPv4(r) == Some(Unpack(n))
  {
    FormatIPv4(Unpack(n))
  }

  /** Shifting by 16 or 24 bits is shifting by 8 bits two or three times, and the low 32 bits are the four low bytes. */
  lemma ShiftsByBytes(n: int)
    ensures n / 0x1_0000 == n / 0x100 / 0x100
    ensures n / 0x100_0000 == n / 0x100 / 0x100 / 0x100
    ensures n % AddressSpace ==
      (n / 0x100_0000) % 256 * 0x100_0000 + (n / 0x1_0000) % 256 * 0x1_0000 + (n / 0x100) % 256 * 0x100 + n % 256
  {
    var q1, r0 := n / 0x100, n % 0x100;
    var q2, r1 := q1 / 0x100, q1 % 0x100;
    var q3, r2 := q2 / 0x100, q2 % 0x100;
    var q4, r3 := q3 / 0x100, q3 % 0x100;
    assert n == q2 * 0x1_0000 + r1 * 0x100 + r0;
    assert n / 0x1_0000 == q2;
    assert n == q3 * 0x100_0000 + r2 * 0x1_0000 + r1 * 0x100 + r0;
    assert n / 0x100_0000 == q3;
    assert n == q4 * AddressSpace + (r3 * 0x100_0000 + r2 * 0x1_0000 + r1 * 0x100 + r0);
  }

  // ---------------------------------------------------------------------
  // Decimal fields

  /** Decimal values of canonical fields longer than one digit are at least 10. */
  lemma {:induction false} CanonicalValueBound(f: string)
    requires Canonical(f)
    ensures |f| > 1 ==> DecimalValue(f) >= 10
    ensures |f| > 0 && f[0] != '0' ==> DecimalValue(f) >= 1
    decreases |f|
  {
    if |f| > 1 {
      var g := f[..|f| - 1];
      assert g[0] == f[0];
      CanonicalValueBound(g);
    }
  }

  /** A canonical field is exactly what `%d` writes for its value. */
  lemma {:induction false} CanonicalFormatValue(f: string)
    requires Canonical(f)
    ensures FormatDecimal(DecimalValue(f)) == f
    decreases |f|
  {
    if |f| > 1 {
      var g := f[..|f| - 1];
      assert g[0] == f[0];
      CanonicalValueBound(f);
      CanonicalValueBound(g);
      CanonicalFormatValue(g);
      var v := DecimalValue(f);
      assert v / 10 == DecimalValue(g);
      assert v % 10 == DigitValue(f[|f| - 1]);
      assert f == g + [f[|f| - 1]];
    }
  }

  // ---------------------------------------------------------------------
  // Dotted quads

  /** Four fields written with '.' between them are the join of those fields. */
  lemma {:induction false} JoinFour(a: string, b: string, c: string, d: string)
    ensures a + "." + b + "." + c + "." + d == Join([a, b, c, d], '.')
  {
    var f := [a, b, c, d];
    assert f[1..][1..][1..] == [d];
    assert Join(f[1..][1..], '.') == c + "." + d;
    assert Join(f[1..], '.') == b + "." + (c + "." + d);
  }

  /** Text that parses as IPv4 is already in the form `FormatIPv4` writes. */
  lemma {:induction false} FormatParseIPv4(s: string)
    requires IsIPv4(s)
    ensures FormatIPv4(ParseIPv4(s).value) == s
  {
    var fields := Split(s, '.');
    var o := ParseIPv4(s).value;
    forall k | 0 <= k < 4 ensures FormatDecimal(o[k]) == fields[k] {
      CanonicalFormatValue(fields[k]);
    }
    JoinFour(fields[0], fields[1], fields[2], fields[3]);
    assert [fields[0], fields[1], fields[2], fields[3]] == fields;
    JoinSplit(s, '.');
  }

  // ---------------------------------------------------------------------
  // Integer form

  lemma UnpackPack(o: seq<Byte>)
    requires |o| == 4
    ensures Unpack(Pack(o)) == o
  {
    var n := Pack(o);
    var a, b, c, d := o[0] as int, o[1] as int, o[2] as int, o[3] as int;
    assert n / 0x100 == a * 0x1_0000 + b * 0x100 + c && n % 0x100 == d;
    assert n / 0x1_0000 == a * 0x100 + b;
    assert n / 0x100_0000 == a;
  }

  /** Every address integer survives `intToIP` followed by `ipToInt`. */
  lemma IpToIntOfIntToIP(n: int)
    requires 0 <= n < AddressSpace
    ensures IpToInt(IntToIP(n)) == n
  {
  }

  /** Every dotted quad survives `ipToInt` followed by `intToIP`. */
  lemma IntToIPOfIpToInt(s: string)
    requires IsIPv4(s)
    ensures IntToIP(IpToInt(s)) == s
  {
    UnpackPack(ParseIPv4(s).value);
    FormatParseIPv4(s);
  }

  /** Distinct dotted quads have distinct integers, so the sort key loses nothing on them. */
  lemma IpToIntInjective(s: string, t: string)
    requires IsIPv4(s) && IsIPv4(t)
    ensures IpToInt(s) == IpToInt(t) <==> s == t
  {
    IntToIPOfIpToInt(s);
    IntToIPOfIpToInt(t);
  }

  lemma SmallDecimals()
    ensures FormatDecimal(0) == "0" && FormatDecimal(1) == "1" && FormatDecimal(2) == "2"
    ensures FormatDecimal(10) == "10"
  {
  }

  lemma TwoDotZeroDotZeroDotOne()
    ensures IpToInt("2.0.0.1") == 0x0200_0001
  {
    SmallDecimals();
    assert Unpack(0x0200_0001) == [2, 0, 0, 1];
    assert IntToIP(0x0200_0001) == "2.0.0.1";
    IpToIntOfIntToIP(0x0200_0001);
  }

  lemma TenDotZeroDotZeroDotOne()
    ensures IpToInt("10.0.0.1") == 0x0A00_0001
  {
    SmallDecimals();
    assert Unpack(0x0A00_0001) == [10, 0, 0, 1];
    assert IntToIP(0x0A00_0001) == "10.0.0.1";
    IpToIntOfIntToIP(0x0A00_0001);
  }

  /**
   * Ordering by `ipToInt` puts "2.0.0.1" before "10.0.0.1", although the text
   * of the second is smaller character by character ('1' < '2').
   */
  lemma NumericNotLexicographic()
    ensures IpToInt("2.0.0.1") < IpToInt("10.0.0.1")
    ensures "10.0.0.1"[0] < "2.0.0.1"[0]
  {
    TwoDotZeroDotZeroDotOne();
    TenDotZeroDotZeroDotOne();
  }
}
