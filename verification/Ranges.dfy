/** CIDR blocks, the range of pkg/ipam/backend/allocator/allocator.go and its byte loops. */
module Ranges {
  import opened NetIP

  // Network part and host part of a value, for h host bits

  function Host(v: nat, h: nat): nat
    decreases h, v
  {
    if h == 0 then 0 else 2 * Host(v / 2, h - 1) + v % 2
  }

  function Net(v: nat, h: nat): nat
    decreases h, v
  {
    if h == 0 then v else Net(v / 2, h - 1)
  }

  lemma {:induction false} HostBound(v: nat, h: nat)
    ensures Host(v, h) < Pow2(h) && Host(v, h) <= v
  {
    if h > 0 { HostBound(v / 2, h - 1); }
  }

  lemma ProductIsPositive(m: int, d: int)
    requires m > 0 && d > 0
    ensures m * d >= m
  {
    assert m * (d - 1) >= 0;
  }

  lemma DivUnique(n: int, m: int, q: int, r: int)
    requires m > 0 && n == m * q + r && 0 <= r < m
    ensures n / m == q && n % m == r
  {
    var q', r' := n / m, n % m;
    assert m * (q - q') == r' - r && m * (q' - q) == r - r';
    if q > q' { ProductIsPositive(m, q - q'); assert false; }
    if q < q' { ProductIsPositive(m, q' - q); assert false; }
  }

  lemma Doubling(u: nat, b: nat, p: nat)
    requires p > 0 && b < 2
    ensures (2 * u + b) / (2 * p) == u / p && (2 * u + b) % (2 * p) == 2 * (u % p) + b
  {
    var q, r := u / p, u % p;
    assert 2 * u + b == (2 * p) * q + (2 * r + b) by {
      assert u == p * q + r;
    }
    DivUnique(2 * u + b, 2 * p, q, 2 * r + b);
  }

  /** Both parts are the ordinary remainder and quotient by 2^h. */
  lemma {:induction false} PartsAreDivMod(v: nat, h: nat)
    ensures Host(v, h) == v % Pow2(h) && Net(v, h) == v / Pow2(h)
  {
    if h > 0 {
      var p, u, b := Pow2(h - 1), v / 2, v % 2;
      PartsAreDivMod(u, h - 1);
      Doubling(u, b, p);
    }
  }

  lemma {:induction false} NetNet(v: nat, g: nat, h: nat)
    ensures Net(v, g + h) == Net(Net(v, g), h)
  {
    if g > 0 { NetNet(v / 2, g - 1, h); }
  }

  lemma {:induction false} SameBase(v: nat, w: nat, h: nat)
    ensures Net(v, h) == Net(w, h) <==> v - Host(v, h) == w - Host(w, h)
  {
    if h > 0 { SameBase(v / 2, w / 2, h - 1); }
  }

  lemma {:induction false} SameBlock(v: nat, w: nat, h: nat)
    ensures Net(v, h) == Net(w, h) <==> v - Host(v, h) <= w < v - Host(v, h) + Pow2(h)
  {
    if h > 0 {
      SameBlock(v / 2, w / 2, h - 1);
      assert v - Host(v, h) == 2 * (v / 2 - Host(v / 2, h - 1));
    }
  }

  /** 2^w * v */
  function Shl(v: nat, w: nat): nat
    decreases w
  {
    if w == 0 then v else 2 * Shl(v, w - 1)
  }

  lemma {:induction false} HostAbove(v: nat, b: nat, w: nat, h: nat)
    requires b < Pow2(w)
    ensures Host(Shl(v, w) + b, w + h) == Shl(Host(v, h), w) + b
  {
    if w > 0 {
      HostAbove(v, b / 2, w - 1, h);
      assert (Shl(v, w) + b) / 2 == Shl(v, w - 1) + b / 2;
    }
  }

  lemma {:induction false} HostBelow(v: nat, b: nat, w: nat, z: nat)
    requires b < Pow2(w) && z <= w
    ensures Host(Shl(v, w) + b, z) == Host(b, z)
  {
    if z > 0 {
      HostBelow(v, b / 2, w - 1, z - 1);
      assert (Shl(v, w) + b) / 2 == Shl(v, w - 1) + b / 2;
    }
  }

  // Bytes

  function BitAnd(a: nat, b: nat, w: nat): (r: nat)
    ensures r < Pow2(w)
    decreases w, a, b
  {
    if w == 0 then 0
    else 2 * BitAnd(a / 2, b / 2, w - 1) + if a % 2 == 1 && b % 2 == 1 then 1 else 0
  }

  function BitOr(a: nat, b: nat, w: nat): (r: nat)
    ensures r < Pow2(w)
    decreases w, a, b
  {
    if w == 0 then 0
    else 2 * BitOr(a / 2, b / 2, w - 1) + if a % 2 == 1 || b % 2 == 1 then 1 else 0
  }

  function ByteAnd(a: byte, b: byte): byte { assert Pow2(8) == 256; BitAnd(a, b, 8) }

  /** a | ^m */
  function ByteOrNot(a: byte, m: byte): byte { assert Pow2(8) == 256; BitOr(a, 255 - m, 8) }

  lemma {:induction false} OrLowBits(a: nat, z: nat, w: nat)
    requires z <= w && a < Pow2(w)
    ensures BitOr(a, Pow2(z) - 1, w) == a - Host(a, z) + Pow2(z) - 1
  {
    if w > 0 {
      OrLowBits(a / 2, if z == 0 then 0 else z - 1, w - 1);
    }
  }

  lemma {:induction false} AndHighBits(a: nat, z: nat, w: nat)
    requires z <= w && a < Pow2(w)
    ensures Pow2(z) <= Pow2(w)
    ensures BitAnd(a, Pow2(w) - Pow2(z), w) == a - Host(a, z)
  {
    Pow2Mono(z, w);
    if w > 0 {
      AndHighBits(a / 2, if z == 0 then 0 else z - 1, w - 1);
    }
  }

  // Masks

  /** Zero bits of byte i in a mask of the given number of leading ones. */
  function ZeroBits(ones: nat, i: nat): (z: nat)
    ensures z <= 8
  {
    if ones >= 8 * i + 8 then 0 else if ones <= 8 * i then 8 else 8 * i + 8 - ones
  }

  function MaskByte(z: nat): byte
    requires z <= 8
  {
    Pow2Mono(z, 8);
    assert Pow2(8) == 256;
    256 - Pow2(z)
  }

  function CIDRMask(ones: nat, len: nat): seq<byte> {
    seq(len, i requires 0 <= i < len => MaskByte(ZeroBits(ones, i)))
  }

  function Masked(s: IP, ones: nat): (m: IP)
    ensures |m| == |s|
  {
    seq(|s|, i requires 0 <= i < |s| => ByteAnd(s[i], CIDRMask(ones, |s|)[i]))
  }

  function Broadcast(s: IP, ones: nat): (m: IP)
    ensures |m| == |s|
  {
    seq(|s|, i requires 0 <= i < |s| => ByteOrNot(s[i], CIDRMask(ones, |s|)[i]))
  }

  function Min(a: nat, b: nat): nat { if a < b then a else b }

  lemma Times256(v: nat)
    ensures Shl(v, 8) == 256 * v
  {
  }

  lemma HostOfByte(b: byte)
    ensures Host(b, 8) == b
  {
    assert Pow2(8) == 256;
    Times256(0);
    HostAbove(0, b, 8, 0);
  }

  /** One more byte on the right of a value and of a mask: either the whole byte is host part,
      or the mask ends inside it and the bytes before carry no host bits. */
  lemma LastByte(v: nat, b: byte, h: nat, z: nat)
    requires z <= 8 && (h == 0 || z == 8)
    ensures Host(256 * v + b, h + z) == 256 * Host(v, h) + Host(b, z)
    ensures Pow2(h + z) == 256 * (Pow2(h) - 1) + Pow2(z)
  {
    var q := 256;
    assert Pow2(8) == q;
    Times256(v);
    if z == 8 {
      Pow2Byte(h);
      HostAbove(v, b, z, h);
      Times256(Host(v, h));
      HostOfByte(b);
    } else {
      HostBelow(v, b, 8, z);
    }
  }

  lemma ByteParts(s: IP, ones: nat, i: nat)
    requires i < |s|
    ensures var h := Host(s[i], ZeroBits(ones, i));
            && Masked(s, ones)[i] == s[i] - h
            && Broadcast(s, ones)[i] == s[i] - h + Pow2(ZeroBits(ones, i)) - 1
  {
    var z := ZeroBits(ones, i);
    assert Pow2(8) == 256;
    assert CIDRMask(ones, |s|)[i] == 256 - Pow2(z);
    AndHighBits(s[i], z, 8);
    OrLowBits(s[i], z, 8);
  }

  lemma MaskOfPrefix(s: IP, ones: nat, k: nat)
    requires k <= |s|
    ensures Masked(s, ones)[..k] == Masked(s[..k], Min(ones, 8 * k))
    ensures Broadcast(s, ones)[..k] == Broadcast(s[..k], Min(ones, 8 * k))
  {
    forall i | 0 <= i < k
      ensures CIDRMask(ones, |s|)[i] == CIDRMask(Min(ones, 8 * k), k)[i]
    {}
  }

  lemma NoBits()
    ensures Host(0, 0) == 0 && Pow2(0) == 1
  {
  }

  lemma {:induction false} BroadcastValue(s: IP, ones: nat, h: nat)
    requires ones + h == 8 * |s|
    ensures Value(Broadcast(s, ones)) == Value(s) - Host(Value(s), h) + Pow2(h) - 1
  {
    hide Host, Pow2, Broadcast, Masked;
    if |s| == 0 {
      NoBits();
    } else {
      var k := |s| - 1;
      var m := Min(ones, 8 * k);
      BroadcastValue(s[..k], m, 8 * k - m);
      MaskOfPrefix(s, ones, k);
      ByteParts(s, ones, k);
      LastByte(Value(s[..k]), s[k], 8 * k - m, ZeroBits(ones, k));
    }
  }

  lemma {:induction false} MaskedValue(s: IP, ones: nat, h: nat)
    requires ones + h == 8 * |s|
    ensures Value(Masked(s, ones)) == Value(s) - Host(Value(s), h)
  {
    hide Host, Pow2, Broadcast, Masked;
    if |s| == 0 {
      NoBits();
    } else {
      var k := |s| - 1;
      var m := Min(ones, 8 * k);
      MaskedValue(s[..k], m, 8 * k - m);
      MaskOfPrefix(s, ones, k);
      ByteParts(s, ones, k);
      LastByte(Value(s[..k]), s[k], 8 * k - m, ZeroBits(ones, k));
    }
  }

  lemma SameMasked(s: IP, t: IP, ones: nat, h: nat)
    requires |s| == |t| && ones + h == 8 * |s|
    ensures Masked(s, ones) == Masked(t, ones) <==> Net(Value(s), h) == Net(Value(t), h)
  {
    hide Host, Net, Pow2, Masked, Value;
    MaskedValue(s, ones, h);
    MaskedValue(t, ones, h);
    SameBase(Value(s), Value(t), h);
    if Value(Masked(s, ones)) == Value(Masked(t, ones)) {
      ValueInjective(Masked(s, ones), Masked(t, ones));
    }
  }

  // net.IPNet

  /** A network as ParseCIDR and types.ParseCIDR build it: an address and a contiguous mask. */
  datatype IPNet = IPNet(ip: IP, ones: nat, len: nat) {
    predicate Valid() { (len == 4 || len == 16) && ones <= 8 * len && IsAddress(ip) }

    /** The ones of the mask that Contains applies: a 16-byte mask is cut for a four-byte address. */
    function Ones(): nat {
      if len == 16 && |Canon(ip)| == 4 then (if ones < 96 then 0 else ones - 96) else ones
    }

    /** A four-byte mask does not fit a 16-byte address. */
    predicate Fits() { len == 16 || |Canon(ip)| == 4 }

    function HostBits(): nat
      requires Valid() && Fits()
    {
      8 * |Canon(ip)| - Ones()
    }

    predicate Contains(x: IP) {
      var c := Canon(x);
      Fits() && |c| == |Canon(ip)| && Masked(Canon(ip), Ones()) == Masked(c, Ones())
    }
  }

  /** The host bits of a block are what its mask leaves of the mask's own length, and at most the whole address. */
  lemma HostBitsOf(n: IPNet)
    requires n.Valid() && n.Fits()
    ensures n.HostBits() == Min(8 * n.len - n.ones, 8 * |Canon(n.ip)|)
  {
  }

  /** Byte-wise masking compares the network parts of the big-endian values. */
  lemma ContainsIsBlock(n: IPNet, x: IP)
    requires n.Valid() && n.Fits()
    ensures n.Contains(x) <==>
            |Canon(x)| == |Canon(n.ip)| &&
            Net(Value(Canon(x)), n.HostBits()) == Net(Value(Canon(n.ip)), n.HostBits())
  {
    var c, a := Canon(x), Canon(n.ip);
    if |c| == |a| { SameMasked(a, c, n.Ones(), n.HostBits()); }
  }

  ghost predicate Nested(inner: IPNet, outer: IPNet) {
    forall x: IP :: inner.Contains(x) ==> outer.Contains(x)
  }

  ghost predicate Disjoint(a: IPNet, b: IPNet) {
    forall x: IP :: !(a.Contains(x) && b.Contains(x))
  }

  lemma SharedAddressNests(a: IPNet, b: IPNet, x: IP, y: IP)
    requires a.Valid() && b.Valid() && a.Contains(x) && b.Contains(x) && a.Contains(y)
    requires a.HostBits() <= b.HostBits()
    ensures b.Contains(y)
  {
    hide Host, Net, Pow2, Value, Masked, To4, Canon;
    ContainsIsBlock(a, x);
    ContainsIsBlock(b, x);
    ContainsIsBlock(a, y);
    ContainsIsBlock(b, y);
    var g, h := a.HostBits(), b.HostBits() - a.HostBits();
    NetNet(Value(Canon(x)), g, h);
    NetNet(Value(Canon(y)), g, h);
    NetNet(Value(Canon(a.ip)), g, h);
  }

  /** Two CIDR blocks never overlap partially. */
  lemma NestedOrDisjoint(a: IPNet, b: IPNet)
    requires a.Valid() && b.Valid()
    ensures Nested(a, b) || Nested(b, a) || Disjoint(a, b)
  {
    if x: IP :| a.Contains(x) && b.Contains(x) {
      if a.HostBits() <= b.HostBits() {
        forall y: IP | a.Contains(y) ensures b.Contains(y) { SharedAddressNests(a, b, x, y); }
      } else {
        forall y: IP | b.Contains(y) ensures a.Contains(y) { SharedAddressNests(b, a, x, y); }
      }
    }
  }

  // validateRangeIP

  lemma {:induction false} FirstDifferenceDecides(s: IP, t: IP, i: nat)
    requires |s| == |t| && i < |s| && s[..i] == t[..i] && s[i] < t[i]
    ensures Value(s) < Value(t)
  {
    var k := |s| - 1;
    if i == k {
      assert s[..k] == t[..k];
    } else {
      assert s[..k][..i] == s[..i] && t[..k][..i] == t[..i];
      FirstDifferenceDecides(s[..k], t[..k], i);
    }
  }

  predicate AtLeast(ip: IP, bound: Option<IP>) {
    bound.Some? ==>
      && IsAddress(bound.value) && |Canon(bound.value)| == |Canon(ip)|
      && Value(Canon(bound.value)) <= Value(Canon(ip))
  }

  predicate AtMost(ip: IP, bound: Option<IP>) {
    bound.Some? ==>
      && IsAddress(bound.value) && |Canon(bound.value)| == |Canon(ip)|
      && Value(Canon(ip)) <= Value(Canon(bound.value))
  }

  /** The loop that rejects ip below bound: stop at the first larger byte, fail at the first smaller. */
  method NotBelow(ip: IP, bound: IP) returns (ok: bool)
    requires |ip| == |bound|
    ensures ok <==> Value(bound) <= Value(ip)
  {
    var i := 0;
    while i < |ip|
      invariant 0 <= i <= |ip|
      invariant ip[..i] == bound[..i]
    {
      if ip[i] > bound[i] {
        FirstDifferenceDecides(bound, ip, i);
        return true;
      } else if ip[i] < bound[i] {
        FirstDifferenceDecides(ip, bound, i);
        return false;
      }
      i := i + 1;
    }
    assert ip[..i] == ip && bound[..i] == bound;
    return true;
  }

  /** validateRangeIP: the two early-exit byte loops compare big-endian values. */
  method ValidateRangeIP(ip: IP, net: IPNet, start: Option<IP>, end: Option<IP>) returns (ok: bool)
    requires net.Valid()
    ensures ok <==> IsAddress(ip) && net.Contains(ip) && AtLeast(ip, start) && AtMost(ip, end)
  {
    if !IsAddress(ip) { return false; }
    var c := Canon(ip);
    if !net.Contains(c) {
      assert Canon(c) == c;
      return false;
    }
    if start.Some? {
      if !IsAddress(start.value) || |c| != |Canon(start.value)| { return false; }
      ok := NotBelow(c, Canon(start.value));
      if !ok { return; }
    }
    if end.Some? {
      if !IsAddress(end.value) || |c| != |Canon(end.value)| { return false; }
      ok := NotBelow(Canon(end.value), c);
      if !ok { return; }
    }
    return true;
  }

  // networkRange and NewIPAllocator

  function Decrement(b: byte): byte { if b == 0 then 255 else b - 1 }

  /** The last address that networkRange leaves in the range, as a value. */
  function LastHost(net: IPNet): int
    requires net.Valid() && |Canon(net.ip)| == net.len
  {
    var v, h := Value(Canon(net.ip)), 8 * net.len - net.ones;
    v - Host(v, h) + Pow2(h) - 1 - if net.len == 4 then 1 else 0
  }

  /** The last octet of an IPv4 broadcast address is lowered, round to 255 when it is zero. */
  function RangeEnd(net: IPNet): (end: IP)
    requires net.Valid() && |Canon(net.ip)| == net.len
    ensures |end| == net.len
  {
    var b := Broadcast(Canon(net.ip), net.ones);
    if net.len == 4 then b[3 := Decrement(b[3])] else b
  }

  /** networkRange by itself, for any mask: only a /32 whose last octet is zero makes end[3]-- borrow. */
  method NetworkRange(net: IPNet) returns (r: Option<(IP, IP)>)
    requires net.Valid()
    ensures r.Some? <==> |Canon(net.ip)| == net.len
    ensures r.Some? ==> r.value == (net.ip, RangeEnd(net))
    ensures r.Some? ==>
      Value(r.value.1) == LastHost(net) + if net.len == 4 && net.ones == 32 && Canon(net.ip)[3] == 0 then 256 else 0
  {
    hide Value, Host, Pow2, ByteOrNot, Decrement;
    var ip := Canon(net.ip);
    var mask := CIDRMask(net.ones, net.len);
    if |ip| != |mask| { return None; }
    var end: IP := [];
    var i := 0;
    while i < |ip|
      invariant 0 <= i <= |ip|
      invariant end == Broadcast(ip, net.ones)[..i]
    {
      end := end + [ByteOrNot(ip[i], mask[i])];
      i := i + 1;
    }
    assert end == Broadcast(ip, net.ones);
    BroadcastValue(ip, net.ones, 8 * net.len - net.ones);
    if To4(ip).Some? {
      LastByteZero(ip, net.ones);
      DecrementLast(end);
      end := end[3 := Decrement(end[3])];
    }
    return Some((net.ip, end));
  }

  lemma LastByteZero(ip: IP, ones: nat)
    requires |ip| == 4 && ones <= 32
    ensures Broadcast(ip, ones)[3] == 0 <==> ones == 32 && ip[3] == 0
  {
    hide Broadcast, Host;
    ByteParts(ip, ones, 3);
    HostBound(ip[3], ZeroBits(ones, 3));
    if ones < 32 { Pow2Mono(1, ZeroBits(ones, 3)); } else { NoHostBits(ip[3]); }
  }

  lemma NoHostBits(v: nat)
    ensures Host(v, 0) == 0
  {
  }

  /** With at least two host bits the broadcast byte is odd, so end[3]-- never borrows. */
  lemma LastByteIsOdd(ip: IP, ones: nat)
    requires |ip| == 4 && ones <= 30
    ensures Broadcast(ip, ones)[3] > 0
  {
    var z := ZeroBits(ones, 3);
    assert Pow2(8) == 256;
    OrLowBits(ip[3], z, 8);
    Pow2Mono(1, z);
  }

  lemma DecrementLast(s: IP)
    requires |s| == 4
    ensures Value(s[3 := Decrement(s[3])]) == Value(s) - 1 + if s[3] == 0 then 256 else 0
  {
    assert s[3 := Decrement(s[3])][..3] == s[..3];
  }

  /** The range a subnet gives, or none when the subnet is too small, mixes families, or a configured
      bound lies outside it. */
  method NewIPAllocator(net: IPNet, first: Option<IP>, last: Option<IP>) returns (r: Option<(IP, IP)>)
    requires net.Valid()
    ensures r.None? <==>
      || net.ones > 8 * net.len - 2 || |Canon(net.ip)| != net.len
      || (first.Some? && !(IsAddress(first.value) && net.Contains(first.value)))
      || (last.Some? && !(IsAddress(last.value) && net.Contains(last.value)
                          && AtLeast(last.value, Some(if first.Some? then first.value else NextIP(net.ip)))))
    ensures r.Some? ==> r.value.0 == if first.Some? then first.value else NextIP(net.ip)
    ensures r.Some? && last.Some? ==> r.value.1 == last.value
    ensures r.Some? && last.None? ==> |r.value.1| == net.len && Value(r.value.1) == LastHost(net)
  {
    hide *;
    if net.ones > 8 * net.len - 2 { return None; }
    var range := NetworkRange(net);
    if range.None? { return None; }
    EndLength(net);
    var start, end := NextIP(range.value.0), range.value.1;
    if first.Some? {
      var ok := ValidateRangeIP(first.value, net, None, None);
      Unbounded(first.value);
      if !ok { return None; }
      start := first.value;
    }
    if last.Some? {
      var ok := ValidateRangeIP(last.value, net, Some(start), None);
      Unbounded(last.value);
      if !ok { return None; }
      end := last.value;
    }
    return Some((start, end));
  }

  lemma Unbounded(ip: IP)
    ensures AtLeast(ip, None) && AtMost(ip, None)
  {
  }

  lemma EndLength(net: IPNet)
    requires net.Valid() && |Canon(net.ip)| == net.len && net.ones <= 8 * net.len - 2
    ensures |RangeEnd(net)| == net.len && !(net.len == 4 && net.ones == 32)
  {
  }

  /** The inclusive range the allocator walks. */
  datatype Ring = Ring(start: IP, end: IP) {
    predicate Valid() {
      && IsAddress(start) && |start| == |end|
      && start[0] != 0
      && Value(start) <= Value(end)
    }

    function Size(): (n: nat)
      requires Valid()
      ensures n > 0
    {
      Value(end) - Value(start) + 1
    }

    predicate Has(a: IP) {
      |a| == |start| && Value(start) <= Value(a) <= Value(end)
    }
  }

  /** start <= end holds exactly when the configured host part leaves room for a host after it. */
  lemma RangeIsRing(net: IPNet, start: IP, end: IP, h: nat)
    requires net.Valid() && net.ones + h == 8 * net.len && h >= 2 && |Canon(net.ip)| == net.len
    requires start == NextIP(net.ip) && |end| == net.len && Value(end) == LastHost(net)
    ensures Ring(start, end).Valid() <==>
            && Pow2(8 * net.len - 8) <= Value(Canon(net.ip)) + 1
            && Host(Value(Canon(net.ip)), h) + (if net.len == 4 then 3 else 2) <= Pow2(h)
  {
    hide Host, Net, Value, Masked, Broadcast, NextIP, To4, Canon;
    NextIPExact(net.ip);
    ValueBound(end);
    ValueBound(start);
    if Value(start) <= Value(end) && Pow2(8 * net.len - 8) <= Value(start) {
      assert |start| == net.len;
    }
  }

  lemma NoRoomAt(ip: IP, end: IP)
    requires |ip| == 4 && ip[0] != 0 && ip[3] == 254 && |end| == 4 && Value(end) == LastHost(IPNet(ip, 24, 4))
    ensures NextIP(ip) == ip[3 := 255] && end == ip && !Ring(NextIP(ip), end).Valid()
  {
    var b := ip[3 := 255];
    assert ip[..3] == b[..3];
    assert Value(b) == Value(ip) + 1;
    hide Value, Bytes, LastHost, NextIP;
    LastHostOfByte(ip);
    ValueInjective(end, ip);
    NextIPIsBytes(ip);
    BytesOfValue(b);
  }

  /** 10.0.0.254/24 is accepted and leaves no host: the range starts on the broadcast address, after its end. */
  lemma NoRoomAfterLastHost(end: IP)
    requires |end| == 4 && Value(end) == LastHost(IPNet([10, 0, 0, 254], 24, 4))
    ensures var net := IPNet([10, 0, 0, 254], 24, 4);
            && net.Valid() && net.ones <= 8 * net.len - 2 && |Canon(net.ip)| == net.len
            && NextIP(net.ip) == [10, 0, 0, 255] && end == [10, 0, 0, 254] && !Ring(NextIP(net.ip), end).Valid()
  {
    var ip: IP := [10, 0, 0, 254];
    hide Value, Bytes, LastHost, NextIP, Ring.Valid;
    NoRoomAt(ip, end);
    assert ip[3 := 255] == [10, 0, 0, 255];
  }

  lemma LastHostOfByte(ip: IP)
    requires |ip| == 4
    ensures LastHost(IPNet(ip, 24, 4)) == Value(ip) - ip[3] + 254
  {
    var v := Value(ip[..3]);
    assert Value(ip) == 256 * v + ip[3];
    hide Value, Host;
    LastByte(v, ip[3], 0, 8);
    HostOfByte(ip[3]);
    NoHostBits(v);
    assert Pow2(8) == 256;
  }

  /** A range that is out of order starts past its end and has no members: every explicit request is
      refused, and so is every cursor. */
  lemma RefusedRangeIsEmpty(net: IPNet, start: IP, end: IP, ip: IP)
    requires net.Valid() && net.ones <= 8 * net.len - 2 && |Canon(net.ip)| == net.len
    requires start == NextIP(net.ip) && |end| == net.len
    requires !Ring(start, end).Valid()
    ensures |start| != net.len || Value(start) > Value(end)
    ensures !(IsAddress(ip) && net.Contains(ip) && AtLeast(ip, Some(start)) && AtMost(ip, Some(end)))
  {
    hide Host, Net, Value, Masked, NextIP;
    NextStartsNonZero(net.ip);
    if IsAddress(ip) && net.Contains(ip) && AtLeast(ip, Some(start)) && AtMost(ip, Some(end)) {
      LeadingByteIsCanonical(start);
    }
  }

  lemma NextStartsNonZero(ip: IP)
    requires IsAddress(ip)
    ensures NextIP(ip) != [] && NextIP(ip)[0] != 0
  {
    BytesShape(Value(Canon(ip)) + 1);
  }

  /** A range is inside its own block, so the loops of validateRangeIP decide membership alone. */
  lemma RangeInsideBlock(net: IPNet, ring: Ring, a: IP)
    requires net.Valid() && net.ones <= 8 * net.len - 2 && |Canon(net.ip)| == net.len
    requires ring.Valid() && ring.start == NextIP(net.ip)
    requires |ring.end| == net.len && Value(ring.end) == LastHost(net)
    requires ring.Has(a)
    ensures Canon(a) == a && a[0] != 0 && net.Contains(a)
  {
    hide Host, Net, Value, Masked, Broadcast, Bytes, NextIP, To4, Canon;
    NextIPExact(net.ip);
    ValueBound(a);
    ValueBound(ring.start);
    LeadingByteIsCanonical(a);
    ContainsIsBlock(net, a);
    SameBlock(Value(Canon(net.ip)), Value(a), 8 * net.len - net.ones);
  }

  /** An IPv4 subnet given by its network address n/(32-h): the range is n + 1 .. n + 2^h - 2. */
  lemma NetworkFormRange(net: IPNet, ring: Ring, h: nat)
    requires net.Valid() && net.len == 4 && net.ones + h == 32 && h >= 2 && |Canon(net.ip)| == 4
    requires Canon(net.ip)[0] != 0 && Masked(Canon(net.ip), net.ones) == Canon(net.ip)
    requires ring.start == NextIP(net.ip) && |ring.end| == 4 && Value(ring.end) == LastHost(net)
    ensures Host(Value(Canon(net.ip)), h) == 0
    ensures Value(ring.start) == Value(Canon(net.ip)) + 1
    ensures Value(ring.end) == Value(Canon(net.ip)) + Pow2(h) - 2
    ensures ring.Valid() && ring.Size() == Pow2(h) - 2
  {
    hide Host, Net, Value, Masked, Broadcast, Bytes;
    var c := Canon(net.ip);
    assert Pow2(2) == 4;
    Pow2Mono(2, h);
    MaskedValue(c, net.ones, h);
    ValueBound(c);
    RangeIsRing(net, ring.start, ring.end, h);
    NextIPExact(net.ip);
  }

  /** For such a subnet, the range is exactly the host addresses: every address of the block but
      the network address and the directed broadcast. */
  lemma RangeIsHostAddresses(net: IPNet, ring: Ring, h: nat, a: IP)
    requires net.Valid() && net.len == 4 && net.ones + h == 32 && h >= 2 && |Canon(net.ip)| == 4
    requires Canon(net.ip)[0] != 0 && Masked(Canon(net.ip), net.ones) == Canon(net.ip)
    requires ring.start == NextIP(net.ip) && |ring.end| == 4 && Value(ring.end) == LastHost(net)
    requires |a| == 4
    ensures ring.Has(a) <==>
            net.Contains(a) && a != Canon(net.ip) && a != Broadcast(Canon(net.ip), net.ones)
  {
    hide Host, Net, Pow2, Value, Masked, Broadcast, Bytes, NextIP;
    var c := Canon(net.ip);
    NetworkFormRange(net, ring, h);
    BroadcastValue(c, net.ones, h);
    ContainsIsBlock(net, a);
    SameBlock(Value(c), Value(a), h);
    if Value(a) == Value(c) { ValueInjective(a, c); }
    if Value(a) == Value(c) + Pow2(h) - 1 { ValueInjective(a, Broadcast(c, net.ones)); }
  }
}
