/**
 * The parts of Go's net and encoding/binary packages the modelled code uses:
 * addresses as byte sequences, their text forms (net.IP.String,
 * net.HardwareAddr.String), IP.To4, big-endian 32-bit conversion and 32-bit
 * bitwise operators. Also the Sighting that every producer hands to the
 * reporter.
 */
module Net {
  import opened Base
  import opened Text

  /** net.IP: 4 bytes for IPv4, 16 bytes for IPv6 or IPv4-in-IPv6. */
  type IP = seq<uint8>
  /** net.IPMask. */
  type IPMask = seq<uint8>
  /** net.HardwareAddr (a MAC address). */
  type HardwareAddr = seq<uint8>

  /** net.IPNet. */
  datatype IPNet = IPNet(ip: IP, mask: IPMask)

  /**
   * One observation that an address is alive. The pinger reports the IP alone,
   * the watcher the IP together with the hardware address it came from.
   */
  datatype Sighting = Sighting(ip: IP, mac: Option<HardwareAddr>)

  // ---------------------------------------------------------------------------
  // 32-bit words

  /** binary.BigEndian.Uint32: the first four bytes, most significant first. */
  function Uint32(b: seq<uint8>): (r: uint32)
    requires |b| >= 4
    ensures r as int / 0x100_0000 == b[0] as int && r as int % 0x100 == b[3] as int
  {
    (b[0] as int * 0x100_0000 + b[1] as int * 0x1_0000 + b[2] as int * 0x100 + b[3] as int) as uint32
  }

  /** binary.BigEndian.PutUint32 into a fresh 4-byte buffer. */
  function PutUint32(x: uint32): (b: seq<uint8>)
    ensures |b| == 4 && Uint32(b) == x
  {
    var v := x as int;
    var q1, b3 := v / 0x100, v % 0x100;
    var q2, b2 := q1 / 0x100, q1 % 0x100;
    var b0, b1 := q2 / 0x100, q2 % 0x100;
    assert v == 0x100 * q1 + b3 && q1 == 0x100 * q2 + b2 && q2 == 0x100 * b0 + b1;
    assert b0 < 0x100;
    [b0 as uint8, b1 as uint8, b2 as uint8, b3 as uint8]
  }

  /** Distinct words have distinct encodings. */
  lemma PutUint32Injective(x: uint32, y: uint32)
    requires PutUint32(x) == PutUint32(y)
    ensures x == y
  {
    assert Uint32(PutUint32(x)) == x;
  }

  function Pow2(n: nat): (r: nat)
    ensures r >= 1
  {
    if n == 0 then 1 else 2 * Pow2(n - 1)
  }

  lemma {:induction false} Pow2Add(a: nat, b: nat)
    ensures Pow2(a + b) == Pow2(a) * Pow2(b)
    decreases a
  {
    if a != 0 {
      Pow2Add(a - 1, b);
      calc {
        Pow2(a + b);
        2 * Pow2(a - 1 + b);
        2 * (Pow2(a - 1) * Pow2(b));
        { MulAssoc(2, Pow2(a - 1), Pow2(b)); }
        (2 * Pow2(a - 1)) * Pow2(b);
        Pow2(a) * Pow2(b);
      }
    }
  }

  lemma MulAssoc(x: int, y: int, z: int)
    ensures x * (y * z) == (x * y) * z
  {
  }

  lemma Pow2Of32()
    ensures Pow2(32) == 0x1_0000_0000
  {
    assert Pow2(4) == 16;
    Pow2Add(4, 4);
    Pow2Add(8, 8);
    Pow2Add(16, 16);
  }

  /** Bitwise AND of two naturals, lowest bit first. */
  function BitAnd(a: nat, b: nat): (r: nat)
    ensures r <= a && r <= b
    decreases a
  {
    if a == 0 || b == 0 then 0
    else 2 * BitAnd(a / 2, b / 2) + (if a % 2 == 1 && b % 2 == 1 then 1 else 0)
  }

  /** The lowest bit of an AND and the AND of the remaining bits. */
  lemma BitAndStep(a: nat, b: nat)
    ensures BitAnd(a, b) / 2 == BitAnd(a / 2, b / 2)
    ensures BitAnd(a, b) % 2 == (if a % 2 == 1 && b % 2 == 1 then 1 else 0)
  {
  }

  /** Bitwise OR of two naturals, lowest bit first. */
  function BitOr(a: nat, b: nat): nat
    decreases a + b
  {
    if a == 0 then b
    else if b == 0 then a
    else 2 * BitOr(a / 2, b / 2) + (if a % 2 == 1 || b % 2 == 1 then 1 else 0)
  }

  lemma {:induction false} BitOrBelow(a: nat, b: nat, w: nat)
    requires a < Pow2(w) && b < Pow2(w)
    ensures BitOr(a, b) < Pow2(w)
    decreases a + b
  {
    if a != 0 && b != 0 {
      BitOrBelow(a / 2, b / 2, w - 1);
    }
  }

  lemma {:induction false} BitAndAssociative(a: nat, b: nat, c: nat)
    ensures BitAnd(BitAnd(a, b), c) == BitAnd(a, BitAnd(b, c))
    decreases a
  {
    if a != 0 && b != 0 && c != 0 {
      BitAndAssociative(a / 2, b / 2, c / 2);
      BitAndStep(a, b);
      BitAndStep(b, c);
    }
  }

  lemma {:induction false} BitAndSelf(a: nat)
    ensures BitAnd(a, a) == a
    decreases a
  {
    if a != 0 {
      BitAndSelf(a / 2);
    }
  }

  /** A w-bit value and its complement within w bits share no bit. */
  lemma {:induction false} BitAndComplement(m: nat, w: nat)
    requires m < Pow2(w)
    ensures BitAnd(m, Pow2(w) - 1 - m) == 0
    decreases w
  {
    if w != 0 && m != 0 && Pow2(w) - 1 - m != 0 {
      BitAndComplement(m / 2, w - 1);
      assert (Pow2(w) - 1 - m) / 2 == Pow2(w - 1) - 1 - m / 2;
    }
  }

  /** OR of values that share no bit is their sum. */
  lemma {:induction false} BitOrDisjoint(a: nat, b: nat)
    requires BitAnd(a, b) == 0
    ensures BitOr(a, b) == a + b
    decreases a + b
  {
    if a != 0 && b != 0 {
      BitOrDisjoint(a / 2, b / 2);
    }
  }

  /** Go's & on uint32. */
  function And(a: uint32, b: uint32): (r: uint32)
    ensures r <= a && r <= b
  {
    BitAnd(a as nat, b as nat) as uint32
  }

  /** Go's | on uint32. */
  function Or(a: uint32, b: uint32): uint32 {
    Pow2Of32();
    BitOrBelow(a as nat, b as nat, 32);
    BitOr(a as nat, b as nat) as uint32
  }

  /** Go's unary ^ on uint32: every one of the 32 bits flipped. */
  function Complement(a: uint32): uint32 {
    MaxUint32 - a
  }

  /** Masking twice with the same mask is masking once. */
  lemma AndIdempotent(x: uint32, m: uint32)
    ensures And(And(x, m), m) == And(x, m)
  {
    BitAndAssociative(x as nat, m as nat, m as nat);
    BitAndSelf(m as nat);
  }

  /**
   * Filling the host bits of a masked value: the result is the masked value
   * plus the complement of the mask, because the two share no bit.
   */
  lemma OrComplementOfMasked(x: uint32, m: uint32)
    ensures Or(And(x, m), Complement(m)) as int == And(x, m) as int + Complement(m) as int
  {
    Pow2Of32();
    BitAndComplement(m as nat, 32);
    BitAndAssociative(x as nat, m as nat, Complement(m) as nat);
    assert BitAnd(m as nat, 0) == 0;
    BitOrDisjoint(And(x, m) as nat, Complement(m) as nat);
  }

  // ---------------------------------------------------------------------------
  // IPv4 forms

  /** The 12 bytes that turn an IPv4 address into its IPv6 form. */
  const V4InV6Prefix: seq<uint8> := [0, 0, 0, 0, 0, 0, 0, 0, 0, 0, 0xff, 0xff]

  /**
   * net.IP.To4: the 4-byte form of an IPv4 address given in either form;
   * None for anything else.
   */
  function To4(ip: IP): (r: Option<IP>)
    ensures r.Some? <==> |ip| == 4 || (|ip| == 16 && ip[..12] == V4InV6Prefix)
    ensures r.Some? ==> |r.value| == 4 && r.value == ip[|ip| - 4..]
  {
    if |ip| == 4 then Some(ip)
    else if |ip| == 16 && ip[..12] == V4InV6Prefix then Some(ip[12..])
    else None
  }

  /**
   * The address an IP denotes, with the two forms of an IPv4 address
   * identified (what net.IP.Equal compares).
   */
  function Canonical(ip: IP): IP {
    match To4(ip)
    case Some(v4) => v4
    case None => ip
  }

  // ---------------------------------------------------------------------------
  // Text forms

  /** Dotted-decimal text of a 4-byte address. */
  function Dotted(v4: IP): (s: string)
    requires |v4| == 4
    ensures s != [] && IsDigit(s[0])
  {
    Decimal(v4[0] as nat) + ("." + (Decimal(v4[1] as nat) + ("." + (Decimal(v4[2] as nat) + ("." + Decimal(v4[3] as nat))))))
  }

  /**
   * net.IP.String: "<nil>" for the empty address, dotted decimal for an IPv4
   * address in either form, and "?" followed by hexadecimal otherwise.
   */
  function IpString(ip: IP): (s: string)
    ensures s != []
    ensures s[0] == '<' <==> ip == []
    ensures s[0] == '?' <==> ip != [] && To4(ip).None?
  {
    if ip == [] then "<nil>"
    else match To4(ip)
      case Some(v4) => Dotted(v4)
      case None => "?" + Hex(ip)
  }

  /** net.HardwareAddr.String: two lower-case hex digits per byte, ':'-separated. */
  function MacString(mac: HardwareAddr): (s: string)
    ensures |s| == if mac == [] then 0 else 3 * |mac| - 1
  {
    var parts := seq(|mac|, i requires 0 <= i < |mac| => HexByte(mac[i]));
    JoinPairsLength(parts);
    Join(parts, ":")
  }

  /** Two-character parts joined by one separator character. */
  lemma {:induction false} JoinPairsLength(parts: seq<string>)
    requires forall i :: 0 <= i < |parts| ==> |parts[i]| == 2
    ensures |Join(parts, ":")| == if parts == [] then 0 else 3 * |parts| - 1
    decreases |parts|
  {
    if |parts| > 1 {
      JoinPairsLength(parts[1..]);
    }
  }

  /** The position of the first '.' in a text (its length when there is none). */
  function DotIndex(s: string): (k: nat)
    ensures k <= |s|
  {
    if s == [] || s[0] == '.' then 0 else 1 + DotIndex(s[1..])
  }

  lemma {:induction false} DotIndexAfterDigits(a: string, r: string)
    requires AllDigits(a)
    ensures DotIndex(a + ("." + r)) == |a|
    decreases |a|
  {
    if a != [] {
      assert (a + ("." + r))[1..] == a[1..] + ("." + r);
      DotIndexAfterDigits(a[1..], r);
    }
  }

  /** Cutting a text at its first '.' when both heads are digit strings. */
  lemma SplitAtDot(a: string, r1: string, b: string, r2: string)
    requires AllDigits(a) && AllDigits(b)
    requires a + ("." + r1) == b + ("." + r2)
    ensures a == b && r1 == r2
  {
    var s := a + ("." + r1);
    DotIndexAfterDigits(a, r1);
    DotIndexAfterDigits(b, r2);
    assert a == s[..|a|] == b;
    assert r1 == s[|a| + 1..] == r2;
  }

  lemma DottedInjective(a: IP, b: IP)
    requires |a| == 4 && |b| == 4 && Dotted(a) == Dotted(b)
    ensures a == b
  {
    var d := (x: uint8) => Decimal(x as nat);
    SplitAtDot(d(a[0]), d(a[1]) + ("." + (d(a[2]) + ("." + d(a[3])))), d(b[0]), d(b[1]) + ("." + (d(b[2]) + ("." + d(b[3])))));
    SplitAtDot(d(a[1]), d(a[2]) + ("." + d(a[3])), d(b[1]), d(b[2]) + ("." + d(b[3])));
    SplitAtDot(d(a[2]), d(a[3]), d(b[2]), d(b[3]));
    DecimalInjective(a[0] as nat, b[0] as nat);
    DecimalInjective(a[1] as nat, b[1] as nat);
    DecimalInjective(a[2] as nat, b[2] as nat);
    DecimalInjective(a[3] as nat, b[3] as nat);
  }

  /**
   * Two addresses get the same text, and so the same host-table key, exactly
   * when they denote the same address: the 4-byte and the 16-byte form of an
   * IPv4 address share one key, and distinct addresses never share one.
   */
  lemma IpStringSameAddress(a: IP, b: IP)
    ensures IpString(a) == IpString(b) <==> Canonical(a) == Canonical(b)
  {
    if IpString(a) == IpString(b) {
      if To4(a).Some? && To4(b).Some? {
        DottedInjective(To4(a).value, To4(b).value);
      } else if To4(a).None? && To4(b).None? && a != [] && b != [] {
        assert Hex(a) == IpString(a)[1..] == Hex(b);
        HexInjective(a, b);
      }
    }
  }
}
