/**
 Which subnet an address belongs to, bit by bit: the first one whose network it agrees with
 wherever the mask has a one.
 */
module Subnets {
  import opened Wrappers
  import opened Config
  import opened ServerModel

  /** Bit `k` of a number, counted from the lowest. */
  function BitAt(x: nat, k: nat): nat {
    if k == 0 then x % 2 else BitAt(x / 2, k - 1)
  }

  function Pow2(n: nat): nat {
    if n == 0 then 1 else 2 * Pow2(n - 1)
  }

  lemma {:induction false} ZeroHasNoBits(k: nat)
    ensures BitAt(0, k) == 0
  {
    if k > 0 {
      ZeroHasNoBits(k - 1);
    }
  }

  /** Bitwise AND has a one exactly where both numbers have one. */
  lemma {:induction false} AndBit(a: nat, b: nat, k: nat)
    ensures BitAt(And(a, b), k) == if BitAt(a, k) == 1 && BitAt(b, k) == 1 then 1 else 0
    decreases k
  {
    if a == 0 || b == 0 {
      ZeroHasNoBits(k);
    } else if k > 0 {
      assert And(a, b) / 2 == And(a / 2, b / 2);
      AndBit(a / 2, b / 2, k - 1);
    }
  }

  /** Numbers of `n` bits that agree in each of them are equal. */
  lemma {:induction false} SameBits(a: nat, b: nat, n: nat)
    requires a < Pow2(n) && b < Pow2(n)
    requires forall k | 0 <= k < n :: BitAt(a, k) == BitAt(b, k)
    ensures a == b
    decreases n
  {
    if n > 0 {
      assert BitAt(a, 0) == BitAt(b, 0);
      forall k | 0 <= k < n - 1
        ensures BitAt(a / 2, k) == BitAt(b / 2, k)
      {
        assert BitAt(a, k + 1) == BitAt(b, k + 1);
      }
      SameBits(a / 2, b / 2, n - 1);
    }
  }

  lemma {:induction false} AndIsSmaller(a: nat, b: nat)
    ensures And(a, b) <= a
    decreases a
  {
    if a > 0 && b > 0 {
      AndIsSmaller(a / 2, b / 2);
    }
  }

  /** Two addresses agree wherever the mask has a one. */
  ghost predicate AgreeUnder(mask: nat, a: nat, b: nat) {
    forall k | 0 <= k < 32 && BitAt(mask, k) == 1 :: BitAt(a, k) == BitAt(b, k)
  }

  lemma AddressHas32Bits(x: IPv4)
    ensures x < Pow2(32)
  {
    assert Pow2(8) == 256;
    assert Pow2(16) == 65536;
    assert Pow2(24) == 16777216;
    assert Pow2(32) == 4294967296;
  }

  /** Equality of masked numbers is agreement under the mask. */
  lemma MaskedEqualIff(mask: IPv4, a: IPv4, b: IPv4)
    ensures And(a, mask) == And(b, mask) <==> AgreeUnder(mask, a, b)
  {
    forall k | 0 <= k < 32
      ensures BitAt(And(a, mask), k) == if BitAt(a, k) == 1 && BitAt(mask, k) == 1 then 1 else 0
      ensures BitAt(And(b, mask), k) == if BitAt(b, k) == 1 && BitAt(mask, k) == 1 then 1 else 0
      ensures BitAt(a, k) in {0, 1} && BitAt(b, k) in {0, 1} && BitAt(mask, k) in {0, 1}
    {
      AndBit(a, mask, k);
      AndBit(b, mask, k);
      BitIsBinary(a, k);
      BitIsBinary(b, k);
      BitIsBinary(mask, k);
    }
    if AgreeUnder(mask, a, b) {
      AndIsSmaller(a, mask);
      AndIsSmaller(b, mask);
      AddressHas32Bits(a);
      AddressHas32Bits(b);
      SameBits(And(a, mask), And(b, mask), 32);
    }
  }

  lemma {:induction false} BitIsBinary(x: nat, k: nat)
    ensures BitAt(x, k) in {0, 1}
    decreases k
  {
    if k > 0 {
      BitIsBinary(x / 2, k - 1);
    }
  }

  lemma MaskTwice(a: IPv4, mask: IPv4)
    ensures And(And(a, mask), mask) == And(a, mask)
  {
    AndIsSmaller(a, mask);
    var masked: IPv4 := And(a, mask);
    forall k | 0 <= k < 32 && BitAt(mask, k) == 1
      ensures BitAt(masked, k) == BitAt(a, k)
    {
      AndBit(a, mask, k);
      BitIsBinary(a, k);
    }
    MaskedEqualIff(mask, masked, a);
  }

  /** The address is in the subnet: network and mask parse, and it agrees with the network under the mask. */
  ghost predicate IsIn(g: Global, subnet: SubnetConfig, ip: IPv4) {
    && g.parseIP(subnet.network).Some? && g.parseIP(subnet.netmask).Some?
    && AgreeUnder(g.parseIP(subnet.netmask).value, g.parseIP(subnet.network).value, ip)
  }

  lemma ContainsIff(g: Global, subnet: SubnetConfig, ip: IPv4)
    ensures Contains(g, subnet, ip) <==> IsIn(g, subnet, ip)
  {
    if g.parseIP(subnet.network).Some? && g.parseIP(subnet.netmask).Some? {
      MaskTwice(g.parseIP(subnet.network).value, g.parseIP(subnet.netmask).value);
      MaskedEqualIff(g.parseIP(subnet.netmask).value, g.parseIP(subnet.network).value, ip);
    }
  }

  /** The subnet found is the first the address is in, and none is found only if it is in none. */
  lemma {:induction false} FindSubnetIsFirst(g: Global, subnets: seq<SubnetConfig>, ip: IPv4)
    ensures FindSubnetForIP(g, subnets, ip).None? <==> forall i | 0 <= i < |subnets| :: !IsIn(g, subnets[i], ip)
    ensures FindSubnetForIP(g, subnets, ip).Some? ==>
      exists i | 0 <= i < |subnets| ::
        && FindSubnetForIP(g, subnets, ip) == Some(subnets[i]) && IsIn(g, subnets[i], ip)
        && forall j | 0 <= j < i :: !IsIn(g, subnets[j], ip)
  {
    if subnets != [] {
      ContainsIff(g, subnets[0], ip);
      if IsIn(g, subnets[0], ip) {
        assert FindSubnetForIP(g, subnets, ip) == Some(subnets[0]);
      } else {
        var rest := subnets[1..];
        FindSubnetIsFirst(g, rest, ip);
        assert forall i | 0 < i < |subnets| :: subnets[i] == rest[i - 1];
        if FindSubnetForIP(g, rest, ip).Some? {
          var i :| 0 <= i < |rest| && FindSubnetForIP(g, rest, ip) == Some(rest[i]) && IsIn(g, rest[i], ip)
            && forall j | 0 <= j < i :: !IsIn(g, rest[j], ip);
          FirstInWhole(g, subnets, ip, i);
        } else {
          assert forall i | 0 < i < |subnets| :: !IsIn(g, subnets[i], ip);
        }
      }
    }
  }

  lemma FirstInWhole(g: Global, subnets: seq<SubnetConfig>, ip: IPv4, i: nat)
    requires i + 1 < |subnets| && IsIn(g, subnets[1..][i], ip) && !IsIn(g, subnets[0], ip)
    requires forall j | 0 <= j < i :: !IsIn(g, subnets[1..][j], ip)
    ensures IsIn(g, subnets[i + 1], ip) && forall j | 0 <= j < i + 1 :: !IsIn(g, subnets[j], ip)
  {
    forall j | 0 <= j < i + 1
      ensures !IsIn(g, subnets[j], ip)
    {
      if j > 0 {
        assert subnets[1..][j - 1] == subnets[j];
      }
    }
  }
}
