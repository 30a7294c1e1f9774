/** internal/domain/ip.go: addresses with a prefix length, their network, broadcast and successor. */
module Cidrs {
  import opened Bits

  /** An address of one family, as a number, with a prefix length. NoCidr is a Cidr whose address
      text does not parse: the empty value, or an address past the end of its family. */
  datatype Cidr = Cidr(v4: bool, addr: nat, len: nat) | NoCidr {
    function Width(): nat
      requires Cidr?
    {
      if v4 then 32 else 128
    }

    predicate Parses() {
      Cidr? && addr < Pow2(Width())
    }

    predicate Valid() {
      Parses() && len <= Width()
    }

    function HostBits(): nat
      requires Valid()
    {
      Width() - len
    }

    function AddrBits(): (bs: seq<bool>)
      requires Parses()
      ensures |bs| == Width()
    {
      BitsOf(Width(), addr)
    }

    /** The prefix with its host bits cleared. */
    function NetworkAddr(): (r: Cidr)
      requires Valid()
      ensures r.Valid() && r.v4 == v4 && r.len == len
    {
      ValBound(AddrBits()[..len] + Fill(HostBits(), false));
      Cidr(v4, Val(AddrBits()[..len] + Fill(HostBits(), false)), len)
    }

    /** The last address of the network. */
    function Broadcast(): (r: Cidr)
      requires Valid()
      ensures r.Valid() && r.v4 == v4 && r.len == len
    {
      BlockEnds(this);
      Cidr(v4, NetworkAddr().addr + Pow2(HostBits()) - 1, len)
    }

    /** The address one above, keeping the length. */
    function NextAddr(): (r: Cidr)
      requires Parses()
      ensures r != NoCidr ==> r.Parses()
    {
      if addr + 1 < Pow2(Width()) then Cidr(v4, addr + 1, len) else NoCidr
    }

    function FirstAddr(): Cidr
      requires Valid()
    {
      NetworkAddr().NextAddr()
    }

    function HostAddr(): Cidr
      requires Parses()
    {
      Cidr(v4, addr, Width())
    }

    function NextSubnet(): Cidr
      requires Valid()
    {
      Broadcast().NextAddr()
    }

    /** Same family and same leading len bits, which is what masking both sides compares. */
    predicate Contains(other: Cidr)
      requires Valid() && other.Parses()
    {
      v4 == other.v4 && AddrBits()[..len] == other.AddrBits()[..len]
    }
  }

  /** The sixteen-byte form of an address; an IPv4 address sits behind the mapped prefix. */
  function As16(c: Cidr): (bytes: seq<bv8>)
    requires c.Parses()
    ensures |bytes| == 16
  {
    PackBytes(if c.v4 then MappedPrefix() + c.AddrBits() else c.AddrBits())
  }

  function MappedPrefix(): (bs: seq<bool>)
    ensures |bs| == 96
  {
    Fill(80, false) + Fill(16, true)
  }

  /** Reads sixteen bytes back; only unmapping turns a mapped address into an IPv4 one. */
  function From16(bytes: seq<bv8>, unmap: bool, len: nat): Cidr
    requires |bytes| == 16
  {
    var bs := BytesToBits(bytes);
    if unmap && bs[..96] == MappedPrefix() then Cidr(true, Val(bs[96..]), len) else Cidr(false, Val(bs), len)
  }

  method BroadcastAddr(c: Cidr) returns (r: Cidr)
    requires c.Parses()
    ensures c.Valid() ==> r == Cidr(c.v4, c.NetworkAddr().addr + Pow2(c.HostBits()) - 1, c.len)
    ensures !c.Valid() ==> r == NoCidr
  {
    if c.len > c.Width() {
      return NoCidr;
    }
    hide As16, From16, BytesToBits, Fill, Pow2, Val;
    var bytes := As16(c);
    var a16 := new bv8[16](i requires 0 <= i < 16 => bytes[i]);
    assert a16[..] == bytes;
    var off, bits := 0, 128;
    if c.v4 {
      off, bits := 12, 32;
    }
    SetHostBits(a16, off, c.len, bits);
    FilledReadsBack(c, a16[..]);
    r := From16(a16[..], c.v4, c.len);
  }

  /** Sixteen bytes whose host bits were all set read back as the last address of the prefix. */
  lemma FilledReadsBack(c: Cidr, bytes: seq<bv8>)
    requires c.Valid() && |bytes| == 16
    requires BytesToBits(bytes) == BytesToBits(As16(c))[..128 - c.HostBits()] + Fill(c.HostBits(), true)
    ensures From16(bytes, c.v4, c.len) == Cidr(c.v4, c.NetworkAddr().addr + Pow2(c.HostBits()) - 1, c.len)
  {
    hide As16, From16, Val, Pow2, Fill, BitsOf;
    As16Bits(c);
    BroadcastBits(c);
    var host := c.AddrBits()[..c.len] + Fill(c.HostBits(), true);
    if c.v4 {
      assert BytesToBits(bytes) == MappedPrefix() + host;
    } else {
      assert BytesToBits(bytes) == host;
    }
    ReadBack(c.v4, host, bytes, c.len);
  }

  lemma ReadBack(v4: bool, host: seq<bool>, bytes: seq<bv8>, len: nat)
    requires |bytes| == 16 && BytesToBits(bytes) == if v4 then MappedPrefix() + host else host
    ensures From16(bytes, v4, len) == Cidr(v4, Val(host), len)
  {
    assert v4 ==> BytesToBits(bytes)[..96] == MappedPrefix() && BytesToBits(bytes)[96..] == host;
  }

  /** Sets bits from..to of the part of a byte array that starts at byte off, one bit at a time. */
  method SetHostBits(a16: array<bv8>, off: nat, from: nat, to: nat)
    requires a16.Length == 16 && from <= to && 8 * off + to == 128
    modifies a16
    ensures BytesToBits(a16[..]) == BytesToBits(old(a16[..]))[..8 * off + from] + Fill(to - from, true)
  {
    hide BytesToBits, Fill;
    ghost var start := BytesToBits(a16[..]);
    assert start[..8 * off + from] + Fill(0, true) + start[8 * off + from..] == start;
    var b := from;
    while b < to
      invariant from <= b <= to
      invariant BytesToBits(a16[..]) == start[..8 * off + from] + Fill(b - from, true) + start[8 * off + b..]
    {
      var byteNum, bitInByte := b / 8, 7 - b % 8;
      ghost var before := a16[..];
      a16[off + byteNum] := a16[off + byteNum] | (1 << bitInByte);
      OneBitSet(before, a16[..], off + byteNum, b % 8);
      OneMoreBit(start, 8 * off + from, 8 * off + b);
      b := b + 1;
    }
  }

  /** One more true bit between the kept front and the kept rest. */
  lemma OneMoreBit(start: seq<bool>, i: nat, k: nat)
    requires i <= k < |start|
    ensures (start[..i] + Fill(k - i, true) + start[k..])[k := true] ==
            start[..i] + Fill(k + 1 - i, true) + start[k + 1..]
  {
  }

  lemma As16Bits(c: Cidr)
    requires c.Parses()
    ensures BytesToBits(As16(c)) == if c.v4 then MappedPrefix() + c.AddrBits() else c.AddrBits()
  {
    UnpackPacked(if c.v4 then MappedPrefix() + c.AddrBits() else c.AddrBits());
  }

  /** An IPv4 address is mapped: ten zero bytes and two of ones before its own four. */
  lemma As16Mapped(c: Cidr)
    requires c.Parses() && c.v4
    ensures BytesToBits(As16(c)) == Fill(80, false) + Fill(16, true) + BitsOf(32, c.addr)
  {
    As16Bits(c);
    hide As16, BytesToBits, Fill, BitsOf, Pow2;
  }

  /** Or-ing one bit into one byte of a byte string changes exactly that bit of its bit string. */
  lemma OneBitSet(before: seq<bv8>, after: seq<bv8>, n: nat, j: nat)
    requires n < |before| && j < 8
    requires after == before[n := before[n] | (1 << (7 - j))]
    ensures BytesToBits(after) == BytesToBits(before)[8 * n + j := true]
  {
    forall i | 0 <= i < 8 * |before|
      ensures BytesToBits(after)[i] == (i == 8 * n + j || BytesToBits(before)[i])
    {
      hide TestBit;
      SetOneBit(before[n], j, i % 8);
    }
  }

  lemma PowSum(a: nat, b: nat)
    ensures Pow2(a + b) == Pow2(a) * Pow2(b)
  {
    if a > 0 {
      PowSum(a - 1, b);
    }
  }

  /** The network address is the address rounded down to a multiple of the block size. */
  lemma NetworkValue(c: Cidr)
    requires c.Valid()
    ensures c.NetworkAddr().addr == c.addr / Pow2(c.HostBits()) * Pow2(c.HostBits())
    ensures c.NetworkAddr().addr == c.addr - c.addr % Pow2(c.HostBits())
    ensures Val(c.AddrBits()[..c.len]) == c.addr / Pow2(c.HostBits())
  {
    ValOfBits(c.Width(), c.addr);
    ValSplit(c.AddrBits(), c.len);
    ValBlock(c.AddrBits(), c.len);
    DivMod(c.addr, Pow2(c.HostBits()));
  }

  lemma DivMod(v: nat, d: nat)
    requires d > 0
    ensures v == v / d * d + v % d
  {
  }

  lemma BlockEnds(c: Cidr)
    requires c.Valid()
    ensures c.NetworkAddr().addr + Pow2(c.HostBits()) <= Pow2(c.Width())
  {
    hide Pow2, BitsOf, Val, Fill;
    NetworkValue(c);
    ValBound(c.AddrBits()[..c.len]);
    PowSum(c.len, c.HostBits());
    var q, d := c.addr / Pow2(c.HostBits()), Pow2(c.HostBits());
    MulStep(q, Pow2(c.len), d);
  }

  lemma BroadcastBits(c: Cidr)
    requires c.Valid()
    ensures Val(c.AddrBits()[..c.len] + Fill(c.HostBits(), true)) == c.NetworkAddr().addr + Pow2(c.HostBits()) - 1
  {
    ValBlock(c.AddrBits(), c.len);
  }

  /** A prefix contains exactly the addresses of its family from network to broadcast. */
  lemma ContainsIsRange(c: Cidr, other: Cidr)
    requires c.Valid() && other.Parses()
    ensures c.Contains(other) <==>
            c.v4 == other.v4 && c.NetworkAddr().addr <= other.addr <= c.Broadcast().addr
  {
    hide Pow2, Val, Fill;
    if c.v4 == other.v4 {
      var o, d := Cidr(other.v4, other.addr, c.len), Pow2(c.HostBits());
      NetworkValue(c);
      NetworkValue(o);
      BitsOfVal(c.AddrBits()[..c.len]);
      BitsOfVal(o.AddrBits()[..c.len]);
      var p, q := c.addr / d, o.addr / d;
      assert o.addr == q * d + o.addr % d;
      if p < q {
        MulStep(p, q, d);
      } else if q < p {
        MulStep(q, p, d);
      }
    }
  }

  lemma NextMultiple(q: nat, d: nat)
    ensures (q + 1) * d == q * d + d
  {
  }

  /** The next subnet starts right after the broadcast address, has the same length and is itself
      a network address; there is none exactly when the block ends the address space. */
  lemma NextSubnetValue(c: Cidr)
    requires c.Valid()
    ensures c.NextSubnet() == NoCidr <==> c.NetworkAddr().addr + Pow2(c.HostBits()) == Pow2(c.Width())
    ensures c.NextSubnet() != NoCidr ==>
              var n := c.NextSubnet();
              n == Cidr(c.v4, c.NetworkAddr().addr + Pow2(c.HostBits()), c.len) && n.Valid() && n.NetworkAddr() == n
  {
    hide Pow2, BitsOf, Val, Fill;
    BlockEnds(c);
    var n := c.NextSubnet();
    if n != NoCidr {
      var d, q := Pow2(c.HostBits()), c.addr / Pow2(c.HostBits());
      NetworkValue(c);
      NetworkValue(n);
      NextMultiple(q, d);
      DivModUnique(n.addr, d, q + 1, 0);
    }
  }
}
