/** Addresses as Go's net.IP byte slices, their text, and the arithmetic of pkg/ipam/ip/cidr.go. */
module NetIP {

  datatype Option<+T> = None | Some(value: T)

  type byte = b: int | 0 <= b < 256

  /** A net.IP slice: 4 or 16 bytes when it is an address, but any length can be built. */
  type IP = seq<byte>

  /** An address in the form that String prints: four bytes whenever they are enough. */
  type CanonIP = ip: IP | IsAddress(ip) && Canon(ip) == ip witness [0, 0, 0, 0]

  /** Every string falls in one class: what String prints for an address, another spelling
      that ParseIP reads as an address, or a word that is no address at all. */
  datatype Text = Word(s: string) | Address(ip: CanonIP) | Spelling(ip: CanonIP, variant: nat)

  const EMPTY: Text := Word("")

  /** Ten zeros and two 0xff: what a 16-byte slice holding an IPv4 address starts with. */
  function V4Prefix(): IP { seq(12, i => if i < 10 then 0 else 255) }

  function To4(ip: IP): Option<IP> {
    if |ip| == 4 then Some(ip)
    else if |ip| == 16 && ip[..12] == V4Prefix() then Some(ip[12..])
    else None
  }

  function To16(ip: IP): Option<IP> {
    if |ip| == 4 then Some(V4Prefix() + ip)
    else if |ip| == 16 then Some(ip)
    else None
  }

  /** The form that decides the printed text: four bytes whenever they are enough. */
  function Canon(ip: IP): IP {
    match To4(ip)
    case Some(v) => v
    case None => ip
  }

  predicate IsAddress(ip: IP) { |ip| == 4 || |ip| == 16 }

  lemma CanonIdempotent(ip: IP)
    ensures Canon(Canon(ip)) == Canon(ip) && (IsAddress(ip) ==> IsAddress(Canon(ip)))
  {
  }

  function HexDigits(ip: IP): string {
    if ip == [] then "" else ["0123456789abcdef"[ip[0] / 16], "0123456789abcdef"[ip[0] % 16]] + HexDigits(ip[1..])
  }

  /** net.IP.String; a slice of another length prints as a word that is no address. */
  function Print(ip: IP): Text {
    if IsAddress(ip) then CanonIdempotent(ip); Address(Canon(ip))
    else if ip == [] then Word("<nil>") else Word("?" + HexDigits(ip))
  }

  function ParseIP(t: Text): Option<IP> {
    match t
    case Word(_) => None
    case Address(ip) => To16(ip)
    case Spelling(ip, _) => To16(ip)
  }

  predicate Equal(a: IP, b: IP) {
    if |a| == |b| then a == b
    else if |a| == 4 && |b| == 16 then b[..12] == V4Prefix() && a == b[12..]
    else if |a| == 16 && |b| == 4 then a[..12] == V4Prefix() && b == a[12..]
    else false
  }

  /** net.IP.Equal is equality of canonical forms, so it agrees with equality of printed keys. */
  lemma EqualIsSameText(a: IP, b: IP)
    requires IsAddress(a) && IsAddress(b)
    ensures Equal(a, b) <==> Print(a) == Print(b)
  {
    if |a| == 16 { assert a == a[..12] + a[12..]; }
    if |b| == 16 { assert b == b[..12] + b[12..]; }
  }

  /** Reading back a printed address gives the same canonical form. */
  lemma ParsePrint(ip: IP)
    requires IsAddress(ip)
    ensures ParseIP(Print(ip)).Some?
    ensures Canon(ParseIP(Print(ip)).value) == Canon(ip)
  {
    if |Canon(ip)| == 4 {
      var m := V4Prefix() + Canon(ip);
      assert m[..12] == V4Prefix() && m[12..] == Canon(ip);
    }
  }

  /** Exactly the texts of an address parse, a spelling to the address it spells. */
  lemma ParseIPExactly(t: Text)
    ensures ParseIP(t).Some? <==> !t.Word?
    ensures ParseIP(t).Some? ==> |ParseIP(t).value| == 16 && Canon(ParseIP(t).value) == t.ip
  {
    if !t.Word? { ParsePrint(t.ip); }
  }

  /** The 16-byte form of an IPv4 address: ten zero bytes, two of 255, and the four. */
  lemma MappedForm(ip: IP)
    requires |ip| == 4
    ensures To16(ip) == Some([0, 0, 0, 0, 0, 0, 0, 0, 0, 0, 255, 255] + ip)
  {
    var prefix: IP := [0, 0, 0, 0, 0, 0, 0, 0, 0, 0, 255, 255];
    assert V4Prefix() == prefix;
  }

  // Big-endian values

  function Pow2(n: nat): (p: nat)
    ensures p > 0
  {
    if n == 0 then 1 else 2 * Pow2(n - 1)
  }

  lemma Pow2Add(a: nat, b: nat)
    ensures Pow2(a + b) == Pow2(a) * Pow2(b)
  {
    if a > 0 { Pow2Add(a - 1, b); }
  }

  lemma Pow2Byte(n: nat)
    ensures Pow2(n + 8) == 256 * Pow2(n)
  {
    assert Pow2(8) == 256;
    Pow2Add(n, 8);
  }

  /** big.Int.SetBytes. */
  function Value(s: IP): nat {
    if s == [] then 0 else 256 * Value(s[..|s| - 1]) + s[|s| - 1]
  }

  /** big.Int.Bytes: the shortest big-endian form, empty for zero. */
  function Bytes(n: nat): IP {
    if n == 0 then [] else Bytes(n / 256) + [n % 256]
  }

  lemma {:induction false} ValueBound(s: IP)
    ensures Value(s) < Pow2(8 * |s|)
    ensures |s| > 0 && s[0] != 0 ==> Pow2(8 * |s| - 8) <= Value(s)
    ensures |s| > 0 && s[0] == 0 ==> Value(s) < Pow2(8 * |s| - 8)
  {
    if |s| > 0 {
      var t := s[..|s| - 1];
      ValueBound(t);
      Pow2Byte(8 * |t|);
      if |t| > 0 {
        Pow2Byte(8 * |t| - 8);
      }
    }
  }

  lemma {:induction false} ValueInjective(s: IP, t: IP)
    requires |s| == |t| && Value(s) == Value(t)
    ensures s == t
  {
    if |s| > 0 {
      ValueInjective(s[..|s| - 1], t[..|t| - 1]);
      assert s == s[..|s| - 1] + [s[|s| - 1]];
      assert t == t[..|t| - 1] + [t[|t| - 1]];
    }
  }

  lemma {:induction false} BytesShape(n: nat)
    ensures Value(Bytes(n)) == n
    ensures n > 0 ==> |Bytes(n)| > 0 && Bytes(n)[0] != 0
  {
    if n > 0 {
      BytesShape(n / 256);
      assert Bytes(n)[..|Bytes(n)| - 1] == Bytes(n / 256);
    }
  }

  lemma Pow2Mono(a: nat, b: nat)
    requires a <= b
    ensures Pow2(a) <= Pow2(b)
  {
    if a < b { Pow2Mono(a, b - 1); }
  }

  /** The length of the shortest form is decided by the value alone. */
  lemma BytesLength(n: nat, len: nat)
    requires len > 0
    ensures |Bytes(n)| == len <==> Pow2(8 * len - 8) <= n < Pow2(8 * len)
  {
    BytesShape(n);
    var b := Bytes(n);
    ValueBound(b);
    if |b| < len {
      Pow2Mono(8 * |b|, 8 * len - 8);
    } else if |b| > len {
      Pow2Mono(8 * len, 8 * |b| - 8);
    }
  }

  lemma {:induction false} BytesOfValue(s: IP)
    requires |s| > 0 && s[0] != 0
    ensures Bytes(Value(s)) == s
  {
    var t, n := s[..|s| - 1], Value(s);
    assert n / 256 == Value(t) && n % 256 == s[|s| - 1];
    if |t| > 0 {
      BytesOfValue(t);
      ValueBound(t);
      Pow2Mono(0, 8 * |t| - 8);
    }
    assert n > 0;
    assert s == t + [s[|s| - 1]];
  }

  // pkg/ipam/ip/cidr.go

  function IpToInt(ip: IP): int {
    match To4(ip)
    case Some(v) => Value(v)
    case None => match To16(ip)
                 case Some(v) => Value(v)
                 case None => 0
  }

  /** big.Int.Bytes ignores the sign. */
  function IntToIP(i: int): IP { Bytes(if i < 0 then -i else i) }

  function NextIP(ip: IP): IP { IntToIP(IpToInt(ip) + 1) }

  function PrevIP(ip: IP): IP { IntToIP(IpToInt(ip) - 1) }

  lemma LeadingByteIsCanonical(ip: IP)
    requires IsAddress(ip) && ip[0] != 0
    ensures Canon(ip) == ip && IpToInt(ip) == Value(ip)
  {
    assert |ip| == 16 ==> ip[..12][0] == ip[0];
  }

  /** NextIP adds one; the length survives exactly when the sum still needs all the bytes. */
  lemma NextIPExact(ip: IP)
    requires IsAddress(ip)
    ensures var c := Canon(ip); var n := NextIP(ip);
            && Value(n) == Value(c) + 1
            && (|n| == |c| <==> Pow2(8 * |c| - 8) <= Value(c) + 1 < Pow2(8 * |c|))
  {
    var c := Canon(ip);
    var v := Value(c) + 1;
    assert NextIP(ip) == Bytes(v);
    BytesShape(v);
    BytesLength(v, |c|);
  }

  /** PrevIP takes one off; of zero it makes one, because the sign is lost. */
  lemma PrevIPExact(ip: IP)
    requires IsAddress(ip)
    ensures Value(PrevIP(ip)) == if Value(Canon(ip)) == 0 then 1 else Value(Canon(ip)) - 1
  {
    var v := Value(Canon(ip));
    assert PrevIP(ip) == Bytes(if v == 0 then 1 else v - 1);
    BytesShape(if v == 0 then 1 else v - 1);
  }

  predicate AllOnes(s: IP) { forall i :: 0 <= i < |s| ==> s[i] == 255 }

  lemma {:induction false} AllOnesValue(s: IP)
    ensures AllOnes(s) <==> Value(s) + 1 == Pow2(8 * |s|)
  {
    if |s| > 0 {
      var t := s[..|s| - 1];
      AllOnesValue(t);
      ValueBound(t);
      Pow2Byte(8 * |t|);
      assert s == t + [s[|s| - 1]];
      if AllOnes(s) { assert forall i :: 0 <= i < |t| ==> t[i] == s[i]; }
    }
  }

  /** With a non-zero first byte and room to count, NextIP is the successor in the same length
      and PrevIP undoes it. */
  lemma NextPrev(ip: IP)
    requires IsAddress(ip) && Canon(ip)[0] != 0 && !AllOnes(Canon(ip))
    ensures |NextIP(ip)| == |Canon(ip)| && NextIP(ip)[0] != 0
    ensures Value(NextIP(ip)) == Value(Canon(ip)) + 1
    ensures PrevIP(NextIP(ip)) == Canon(ip)
  {
    hide Value, Bytes, To4, AllOnes, NextIP, IpToInt;
    var c, n := Canon(ip), NextIP(ip);
    AllOnesValue(c);
    ValueBound(c);
    NextIPExact(ip);
    CanonIdempotent(ip);
    assert n == Bytes(Value(c) + 1) by { NextIPIsBytes(ip); }
    BytesShape(Value(c) + 1);
    LeadingByteIsCanonical(n);
    BytesOfValue(c);
  }

  lemma NextIPIsBytes(ip: IP)
    requires IsAddress(ip)
    ensures NextIP(ip) == Bytes(Value(Canon(ip)) + 1)
  {
  }
}
