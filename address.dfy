/**
 * Peer-address handling of iptrap.py: the loopback test, recognising an
 * IPv4-mapped IPv6 address (prefix ::ffff:0:0/96, section 2.5.5.2 of RFC 4291),
 * unwrapping it to dotted-decimal IPv4, and the family tag.
 *
 * The textual address conversions the source borrows from the C library
 * (inet_pton and inet_ntop through Python's socket module) are written out
 * here as functions on text and bytes.
 */
module Address {
  import opened Wrappers
  import opened Decimal
  import opened Text

  type Byte = b: int | 0 <= b < 256

  /** isLoopback: an exact comparison with the two loopback literals, nothing more. */
  predicate IsLoopback(ip: string) {
    ip == "127.0.0.1" || ip == "::1"
  }

  // ----- IPv4 text ----------------------------------------------------------

  /** One field of a dotted-decimal address as inet_pton accepts it: no leading zero, at most 255. */
  predicate IsOctet(f: string) {
    IsCanonical(f) && DigitsValue(f) <= 255
  }

  /** inet_pton(AF_INET, s): exactly four dot-separated octets. */
  function ParseIpv4(s: string): (r: Option<seq<Byte>>)
    ensures r.Some? ==> |r.value| == 4
  {
    var f := Split(s, '.');
    if |f| == 4 && IsOctet(f[0]) && IsOctet(f[1]) && IsOctet(f[2]) && IsOctet(f[3]) then
      Some([DigitsValue(f[0]), DigitsValue(f[1]), DigitsValue(f[2]), DigitsValue(f[3])])
    else
      None
  }

  /** inet_ntop(AF_INET, b): the four bytes in dotted decimal ("%u.%u.%u.%u"). */
  function FormatIpv4(b: seq<Byte>): (s: string)
    requires |b| == 4
    ensures IsDottedDigits(s)
  {
    var parts := [NatToString(b[0]), NatToString(b[1]), NatToString(b[2]), NatToString(b[3])];
    DottedDigits(parts);
    Join(parts, '.')
  }

  /** Text made of decimal digits and dots only. */
  predicate IsDottedDigits(s: string) {
    forall i :: 0 <= i < |s| ==> IsDigit(s[i]) || s[i] == '.'
  }

  /** Joining numerals with dots gives only digits and dots. */
  lemma {:induction false} DottedDigits(parts: seq<string>)
    requires |parts| > 0 && forall k :: 0 <= k < |parts| ==> AllDigits(parts[k])
    ensures IsDottedDigits(Join(parts, '.'))
  {
    var s := Join(parts, '.');
    if |parts| > 1 {
      DottedDigits(parts[1..]);
      var rest := Join(parts[1..], '.');
      assert s == parts[0] + ['.'] + rest;
      forall i | 0 <= i < |s| ensures IsDigit(s[i]) || s[i] == '.' {
        if i < |parts[0]| {
          assert s[i] == parts[0][i];
        } else if i > |parts[0]| {
          assert s[i] == rest[i - |parts[0]| - 1];
        }
      }
    } else {
      assert AllDigits(parts[0]);
    }
  }

  /** Rendering four bytes and parsing the text back gives the bytes. */
  lemma Ipv4RoundTrip(b: seq<Byte>)
    requires |b| == 4
    ensures ParseIpv4(FormatIpv4(b)) == Some(b)
  {
    var parts := [NatToString(b[0]), NatToString(b[1]), NatToString(b[2]), NatToString(b[3])];
    forall k | 0 <= k < 4 ensures '.' !in parts[k] {
      assert AllDigits(parts[k]);
    }
    SplitJoin(parts, '.');
    assert FormatIpv4(b) == Join(parts, '.');
    assert Split(FormatIpv4(b), '.') == parts;
    NatToStringValue(b[0]);
    NatToStringValue(b[1]);
    NatToStringValue(b[2]);
    NatToStringValue(b[3]);
    assert IsOctet(parts[0]) && IsOctet(parts[1]) && IsOctet(parts[2]) && IsOctet(parts[3]);
    assert [DigitsValue(parts[0]), DigitsValue(parts[1]), DigitsValue(parts[2]), DigitsValue(parts[3])] == b;
  }

  /** Every text inet_pton accepts is the canonical rendering of its bytes. */
  lemma Ipv4Canonical(s: string)
    requires ParseIpv4(s).Some?
    ensures FormatIpv4(ParseIpv4(s).value) == s
  {
    var f := Split(s, '.');
    CanonicalValue(f[0]);
    CanonicalValue(f[1]);
    CanonicalValue(f[2]);
    CanonicalValue(f[3]);
    var b := ParseIpv4(s).value;
    assert [NatToString(b[0]), NatToString(b[1]), NatToString(b[2]), NatToString(b[3])] == f;
  }

  // ----- IPv6 text ----------------------------------------------------------

  predicate IsHexDigit(c: char) {
    '0' <= c <= '9' || 'a' <= c <= 'f' || 'A' <= c <= 'F'
  }

  function HexDigitValue(c: char): (d: nat)
    requires IsHexDigit(c)
    ensures d < 16
  {
    if '0' <= c <= '9' then c as int - '0' as int
    else if 'a' <= c <= 'f' then c as int - 'a' as int + 10
    else c as int - 'A' as int + 10
  }

  function Pow16(k: nat): nat {
    if k == 0 then 1 else 16 * Pow16(k - 1)
  }

  /** The value of a string of hexadecimal digits, most significant first. */
  function HexValue(t: string): (v: nat)
    requires forall i :: 0 <= i < |t| ==> IsHexDigit(t[i])
    ensures v < Pow16(|t|)
  {
    if t == [] then 0 else 16 * HexValue(t[..|t| - 1]) + HexDigitValue(t[|t| - 1])
  }

  /** One 16-bit group of an IPv6 address: one to four hexadecimal digits, either case. */
  predicate IsHexGroup(t: string) {
    1 <= |t| <= 4 && forall i :: 0 <= i < |t| ==> IsHexDigit(t[i])
  }

  /** The two bytes of a group, high byte first. */
  function GroupBytes(t: string): (b: seq<Byte>)
    requires IsHexGroup(t)
    ensures |b| == 2 && b[0] as int * 256 + b[1] as int == HexValue(t)
  {
    assert Pow16(|t|) <= Pow16(4) == 65536 by {
      if |t| < 4 { assert Pow16(|t|) <= Pow16(3); }
    }
    var v := HexValue(t);
    [v / 256, v % 256]
  }

  /**
   * The bytes of a list of colon-separated fields: each a hexadecimal group,
   * except that with `v4Tail` the last may be a dotted-decimal IPv4 address.
   */
  function FieldsBytes(fields: seq<string>, v4Tail: bool): Option<seq<Byte>>
    decreases |fields|
  {
    if fields == [] then Some([])
    else if |fields| == 1 && v4Tail && ParseIpv4(fields[0]).Some? then ParseIpv4(fields[0])
    else if IsHexGroup(fields[0]) then
      match FieldsBytes(fields[1..], v4Tail)
      case None => None
      case Some(rest) => Some(GroupBytes(fields[0]) + rest)
    else None
  }

  /** The bytes of one side of "::" (or of a whole address without it); empty text is no bytes. */
  function GroupListBytes(t: string, v4Tail: bool): Option<seq<Byte>> {
    if t == "" then Some([]) else FieldsBytes(Split(t, ':'), v4Tail)
  }

  predicate DoubleColonAt(s: string, i: int) {
    0 <= i && i + 1 < |s| && s[i] == ':' && s[i + 1] == ':'
  }

  /** The position of the first "::" in `s`. */
  function FindDoubleColon(s: string): (r: Option<nat>)
    ensures r.Some? ==> DoubleColonAt(s, r.value)
    ensures r.Some? ==> forall i :: 0 <= i < r.value ==> !DoubleColonAt(s, i)
    ensures r.None? ==> forall i :: 0 <= i < |s| ==> !DoubleColonAt(s, i)
  {
    if |s| < 2 then None
    else if s[0] == ':' && s[1] == ':' then Some(0)
    else
      match FindDoubleColon(s[1..])
      case None =>
        assert forall i :: 1 <= i < |s| ==> DoubleColonAt(s, i) == DoubleColonAt(s[1..], i - 1);
        None
      case Some(j) =>
        assert forall i :: 1 <= i < |s| ==> DoubleColonAt(s, i) == DoubleColonAt(s[1..], i - 1);
        Some(j + 1)
  }

  function Zeros(n: nat): (z: seq<Byte>)
    ensures |z| == n && forall i :: 0 <= i < n ==> z[i] == 0
  {
    seq(n, i => 0)
  }

  /**
   * inet_pton(AF_INET6, s) as the C library implements it: up to eight
   * hexadecimal groups separated by ':', at most one "::" standing for at
   * least one group of zeros, and optionally a dotted-decimal IPv4 address in
   * place of the last two groups. None where inet_pton fails.
   */
  function Inet6Pton(s: string): (r: Option<seq<Byte>>)
    ensures r.Some? ==> |r.value| == 16
  {
    match FindDoubleColon(s)
    case Some(i) =>
      var hi := GroupListBytes(s[..i], false);
      var lo := GroupListBytes(s[i + 2..], true);
      if hi.Some? && lo.Some? && |hi.value| + |lo.value| <= 14 then
        Some(hi.value + Zeros(16 - |hi.value| - |lo.value|) + lo.value)
      else
        None
    case None =>
      var all := GroupListBytes(s, true);
      if all.Some? && |all.value| == 16 then all else None
  }

  // ----- The source's three address helpers ---------------------------------

  /** Ten zero bytes and two 0xff bytes: the ::ffff:0:0/96 prefix. */
  const MAPPED_PREFIX: seq<Byte> := [0, 0, 0, 0, 0, 0, 0, 0, 0, 0, 255, 255]

  /** isIpv4MappedIpv6: the text parses as IPv6 and starts with the mapped prefix; false when it does not parse. */
  predicate IsIpv4MappedIpv6(ip: string) {
    match Inet6Pton(ip)
    case None => false
    case Some(raw) => raw[..12] == MAPPED_PREFIX
  }

  /** The ValueError extractIpv4FromIpv6 raises. */
  datatype AddressError = NotIpv4Mapped(ip: string)

  /**
   * extractIpv4FromIpv6: fails exactly when the address is not IPv4-mapped;
   * otherwise gives the last four of the sixteen bytes as dotted decimal.
   */
  function ExtractIpv4FromIpv6(ip: string): (r: Result<string, AddressError>)
    ensures r.Failure? <==> !IsIpv4MappedIpv6(ip)
    ensures r.Failure? ==> r.error == NotIpv4Mapped(ip)
    ensures r.Success? ==> Inet6Pton(ip).Some? && ParseIpv4(r.value) == Some(Inet6Pton(ip).value[12..])
    ensures r.Success? ==> IsDottedDigits(r.value)
  {
    if !IsIpv4MappedIpv6(ip) then
      Failure(NotIpv4Mapped(ip))
    else
      var low := Inet6Pton(ip).value[12..];
      Ipv4RoundTrip(low);
      Success(FormatIpv4(low))
  }

  /** iptrap.py line 88: a mapped peer is unwrapped to IPv4, any other is kept as it is. */
  function Normalise(raw: string): (ip: string)
    ensures IsIpv4MappedIpv6(raw) ==> ':' !in ip && ParseIpv4(ip) == Some(Inet6Pton(raw).value[12..])
    ensures !IsIpv4MappedIpv6(raw) ==> ip == raw
  {
    if IsIpv4MappedIpv6(raw) then ExtractIpv4FromIpv6(raw).value else raw
  }

  /** iptrap.py line 91: "ipv4" when the address has no ':', else "ipv6". */
  function Family(ip: string): (family: string)
    ensures family == "ipv4" || family == "ipv6"
    ensures family == "ipv4" <==> ':' !in ip
  {
    if ':' !in ip then "ipv4" else "ipv6"
  }

  // ----- Properties ---------------------------------------------------------

  /** The bytes 127.0.0.1 render as the IPv4 loopback literal. */
  lemma LoopbackText()
    ensures FormatIpv4([127, 0, 0, 1]) == "127.0.0.1"
  {
    assert NatToString(127) == "127" by {
      assert NatToString(1) == "1" && NatToString(12) == "12";
    }
    assert NatToString(0) == "0" && NatToString(1) == "1";
    var parts := ["127", "0", "0", "1"];
    assert parts[1..] == ["0", "0", "1"] && parts[1..][1..] == ["0", "1"] && parts[1..][1..][1..] == ["1"];
    assert Join(["1"], '.') == "1";
    assert Join(["0", "1"], '.') == "0.1";
    assert Join(["0", "0", "1"], '.') == "0.0.1";
    assert Join(parts, '.') == "127.0.0.1";
  }

  /** The group "ffff" is the two bytes ff ff. */
  lemma FfffGroup()
    ensures IsHexGroup("ffff") && GroupBytes("ffff") == [255, 255]
  {
    assert HexValue("f") == 15 by { assert "f"[..0] == ""; }
    assert HexValue("ff") == 255 by { assert "ff"[..1] == "f"; }
    assert HexValue("fff") == 4095 by { assert "fff"[..2] == "ff"; }
    assert HexValue("ffff") == 65535 by { assert "ffff"[..3] == "fff"; }
  }

  /** The text after "::" in "::ffff:" + A reads as the bytes ff ff then A's four bytes. */
  lemma MappedTail(b: seq<Byte>)
    requires |b| == 4
    ensures GroupListBytes("ffff:" + FormatIpv4(b), true) == Some([255, 255] + b)
  {
    var a := FormatIpv4(b);
    assert ':' !in a;
    assert "ffff:" + a == "ffff" + [':'] + a;
    SplitAt("ffff", a, ':');
    SplitNoSeparator(a, ':');
    Ipv4RoundTrip(b);
    var fields := ["ffff", a];
    assert fields[1..] == [a];
    FfffGroup();
    assert FieldsBytes([a], true) == Some(b);
    assert FieldsBytes(fields, true) == Some([255, 255] + b);
  }

  /** For every IPv4 address A, "::ffff:" + A is recognised as mapped and unwraps to A. */
  lemma MappedRoundTrip(b: seq<Byte>)
    requires |b| == 4
    ensures Inet6Pton("::ffff:" + FormatIpv4(b)) == Some(MAPPED_PREFIX + b)
    ensures IsIpv4MappedIpv6("::ffff:" + FormatIpv4(b))
    ensures ExtractIpv4FromIpv6("::ffff:" + FormatIpv4(b)) == Success(FormatIpv4(b))
  {
    var a := FormatIpv4(b);
    var s := "::ffff:" + a;
    assert FindDoubleColon(s) == Some(0);
    assert s[..0] == "" && s[2..] == "ffff:" + a;
    MappedTail(b);
    var hi, lo := GroupListBytes(s[..0], false), GroupListBytes(s[0 + 2..], true);
    assert hi == Some([]) && lo == Some([255, 255] + b);
    assert hi.value + Zeros(16 - |hi.value| - |lo.value|) + lo.value == MAPPED_PREFIX + b;
    assert Inet6Pton(s) == Some(MAPPED_PREFIX + b);
    assert (MAPPED_PREFIX + b)[12..] == b;
    Ipv4RoundTrip(b);
  }

  /** The mapped form of 127.0.0.1 is written ::ffff:127.0.0.1. */
  lemma MappedLoopbackSpelling()
    ensures "::ffff:" + FormatIpv4([127, 0, 0, 1]) == "::ffff:127.0.0.1"
  {
    LoopbackText();
  }

  /** The same round trip stated on text: for every canonical dotted-decimal A, unwrapping "::ffff:" + A gives back A. */
  lemma MappedTextRoundTrip(a: string)
    requires ParseIpv4(a).Some?
    ensures ExtractIpv4FromIpv6("::ffff:" + a) == Success(a)
  {
    Ipv4Canonical(a);
    MappedRoundTrip(ParseIpv4(a).value);
  }

  /** Text without a ':' never parses as IPv6, so a plain IPv4 peer is never unwrapped. */
  lemma NoColonNeverMapped(s: string)
    requires ':' !in s
    ensures Inet6Pton(s).None? && !IsIpv4MappedIpv6(s) && Normalise(s) == s
  {
    match FindDoubleColon(s)
    case Some(i) =>
      assert false;
    case None =>
      if s != "" {
        SplitNoSeparator(s, ':');
        var fields := [s];
        assert fields[1..] == [];
        assert FieldsBytes([], true) == Some([]);
      }
  }

  /** "::1" is the address with a single one bit at the end: it is not IPv4-mapped. */
  lemma Ipv6LoopbackNotMapped()
    ensures Inet6Pton("::1") == Some(Zeros(15) + [1])
    ensures !IsIpv4MappedIpv6("::1")
  {
    var s := "::1";
    assert FindDoubleColon(s) == Some(0);
    assert s[..0] == "" && s[2..] == "1";
    SplitNoSeparator("1", ':');
    SplitNoSeparator("1", '.');
    assert ParseIpv4("1").None?;
    assert HexValue("1") == 1 by { assert "1"[..0] == ""; }
    var fields := ["1"];
    assert fields[1..] == [];
    assert IsHexGroup("1");
    assert GroupBytes("1") == [0, 1];
    assert FieldsBytes(fields[1..], true) == Some([]);
    assert ParseIpv4(fields[0]).None?;
    var x := FieldsBytes(fields, true);
    assert x == Some(GroupBytes(fields[0]) + []);
    assert GroupBytes(fields[0]) + [] == [0, 1];
    assert x == Some([0, 1]);
    var hi, lo := GroupListBytes(s[..0], false), GroupListBytes(s[0 + 2..], true);
    assert hi == Some([]) && lo == Some([0, 1]);
    assert hi.value + Zeros(16 - |hi.value| - |lo.value|) + lo.value == Zeros(15) + [1];
    assert (Zeros(15) + [1])[..12] != MAPPED_PREFIX by {
      assert (Zeros(15) + [1])[10] == 0;
    }
  }

  /** Dotted decimal is never empty, always holds a dot and never a colon. */
  lemma FormatIpv4Shape(b: seq<Byte>)
    requires |b| == 4
    ensures var a := FormatIpv4(b); |a| > 0 && '.' in a && ':' !in a
  {
    var a := FormatIpv4(b);
    Ipv4RoundTrip(b);
    assert |Split(a, '.')| == 4;
    if '.' !in a {
      SplitNoSeparator(a, '.');
      assert false;
    }
    assert forall i :: 0 <= i < |a| ==> a[i] != ':';
  }

  /** "::" + A holds a colon and a dot, and no space. */
  lemma CompatibleSpelling(b: seq<Byte>)
    requires |b| == 4
    ensures var ip := "::" + FormatIpv4(b); ':' in ip && '.' in ip && ' ' !in ip
  {
    var a := FormatIpv4(b);
    var ip := "::" + a;
    FormatIpv4Shape(b);
    assert ip[0] == ':';
    assert forall i :: 2 <= i < |ip| ==> ip[i] == a[i - 2];
    assert forall i :: 0 <= i < |a| ==> a[i] != ' ';
  }

  /** Dotted decimal standing alone after "::" reads as its four bytes. */
  lemma DottedTail(b: seq<Byte>)
    requires |b| == 4
    ensures GroupListBytes(FormatIpv4(b), true) == Some(b)
  {
    var a := FormatIpv4(b);
    FormatIpv4Shape(b);
    Ipv4RoundTrip(b);
    SplitNoSeparator(a, ':');
    var fields := [a];
    assert fields[1..] == [];
    assert FieldsBytes(fields, true) == Some(b);
  }

  /**
   * The IPv4-compatible spelling "::" + A (section 2.5.5.1 of RFC 4291)
   * parses as twelve zero bytes then A. That is not the mapped prefix, so
   * such a peer is kept as it is.
   */
  lemma CompatibleNotMapped(b: seq<Byte>)
    requires |b| == 4
    ensures Inet6Pton("::" + FormatIpv4(b)) == Some(Zeros(12) + b)
    ensures !IsIpv4MappedIpv6("::" + FormatIpv4(b))
    ensures Normalise("::" + FormatIpv4(b)) == "::" + FormatIpv4(b)
  {
    var a := FormatIpv4(b);
    var s := "::" + a;
    assert FindDoubleColon(s) == Some(0);
    assert s[..0] == "" && s[2..] == a;
    DottedTail(b);
    var hi, lo := GroupListBytes(s[..0], false), GroupListBytes(s[0 + 2..], true);
    assert hi == Some([]) && lo == Some(b);
    assert hi.value + Zeros(16 - |hi.value| - |lo.value|) + lo.value == Zeros(12) + b;
    assert (Zeros(12) + b)[..12] != MAPPED_PREFIX by {
      assert (Zeros(12) + b)[10] == 0;
    }
  }
}
