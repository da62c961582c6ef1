/**
 Address blocks of `src/access.rs`, in both families, and the policy built from lists of them. An address is
 its bits, most significant first: 32 or 128 of them. Parsing an address from text is not part of this model;
 a block starts from an address and a prefix length.
 */
module Cidr {

  // ---- Machine words as bits --------------------------------------------------------------------

  type Bits = seq<bool>

  function Fill(bit: bool, n: nat): (r: Bits)
    ensures |r| == n && forall i :: 0 <= i < n ==> r[i] == bit
  {
    seq(n, _ => bit)
  }

  function And(a: Bits, b: Bits): (r: Bits)
    requires |a| == |b|
    ensures |r| == |a| && forall i :: 0 <= i < |a| ==> r[i] == (a[i] && b[i])
  {
    seq(|a|, i requires 0 <= i < |a| => a[i] && b[i])
  }

  function ShiftLeft(a: Bits, n: nat): (r: Bits)
    requires n <= |a|
    ensures |r| == |a|
  {
    a[n..] + Fill(false, n)
  }

  // ---- Blocks -----------------------------------------------------------------------------------

  datatype Family = V4 | V6

  function Width(f: Family): nat {
    if f == V4 then 32 else 128
  }

  datatype Ip = Ip(family: Family, bits: Bits)

  datatype Block = Block(family: Family, base: Bits, prefix: nat)

  function Mask(f: Family, prefix: nat): (m: Bits)
    requires prefix <= Width(f)
    ensures |m| == Width(f)
  {
    if prefix == 0 then Fill(false, Width(f)) else ShiftLeft(Fill(true, Width(f)), Width(f) - prefix)
  }

  predicate IsIp(ip: Ip) {
    |ip.bits| == Width(ip.family)
  }

  /** Blocks as parsing leaves them: the bits after the prefix are clear. */
  predicate Normal(b: Block) {
    b.prefix <= Width(b.family) && |b.base| == Width(b.family) && And(b.base, Mask(b.family, b.prefix)) == b.base
  }

  /** The block of an address and a prefix length. */
  function BlockOf(ip: Ip, prefix: nat): (b: Block)
    requires IsIp(ip) && prefix <= Width(ip.family)
  {
    Block(ip.family, And(ip.bits, Mask(ip.family, prefix)), prefix)
  }

  predicate Contains(b: Block, ip: Ip)
    requires Normal(b) && IsIp(ip)
  {
    b.family == ip.family && And(ip.bits, Mask(b.family, b.prefix)) == b.base
  }

  predicate Overlaps(a: Block, b: Block)
    requires Normal(a) && Normal(b)
  {
    && a.family == b.family
    && var mask := Mask(a.family, if a.prefix < b.prefix then a.prefix else b.prefix);
    && And(a.base, mask) == And(b.base, mask)
  }

  // ---- Prefixes ---------------------------------------------------------------------------------

  /** The mask is as many ones as the prefix says, and then zeros. */
  lemma MaskBits(f: Family, prefix: nat)
    requires prefix <= Width(f)
    ensures forall i :: 0 <= i < Width(f) ==> Mask(f, prefix)[i] == (i < prefix)
  {
  }

  /** Masked words are equal exactly when their first bits are. */
  lemma MaskedEqual(f: Family, prefix: nat, x: Bits, y: Bits)
    requires prefix <= Width(f) && |x| == |y| == Width(f)
    ensures And(x, Mask(f, prefix)) == And(y, Mask(f, prefix)) <==> x[..prefix] == y[..prefix]
  {
    MaskBits(f, prefix);
    var m := Mask(f, prefix);
    hide Mask;
    if x[..prefix] == y[..prefix] {
      forall i | 0 <= i < |x| ensures And(x, m)[i] == And(y, m)[i] {
        if i < prefix {
          assert x[..prefix][i] == y[..prefix][i];
        }
      }
    }
    if And(x, m) == And(y, m) {
      forall i | 0 <= i < prefix ensures x[i] == y[i] {
        assert And(x, m)[i] == And(y, m)[i];
      }
    }
  }

  /** A block holds exactly the addresses of its family that begin with its prefix. */
  lemma ContainsExact(b: Block, ip: Ip)
    requires Normal(b) && IsIp(ip)
    ensures Contains(b, ip) <==> b.family == ip.family && b.base[..b.prefix] <= ip.bits
  {
    hide And, Mask;
    if b.family == ip.family {
      MaskedEqual(b.family, b.prefix, ip.bits, b.base);
      assert b.base[..b.prefix] <= ip.bits <==> b.base[..b.prefix] == ip.bits[..b.prefix];
    }
  }

  lemma OverlapsPrefix(a: Block, b: Block)
    requires Normal(a) && Normal(b)
    ensures var n := if a.prefix < b.prefix then a.prefix else b.prefix;
            Overlaps(a, b) <==> a.family == b.family && a.base[..n] == b.base[..n]
  {
    hide And, Mask;
    if a.family == b.family {
      MaskedEqual(a.family, if a.prefix < b.prefix then a.prefix else b.prefix, a.base, b.base);
    }
  }

  lemma BlockIsNormal(ip: Ip, prefix: nat)
    requires IsIp(ip) && prefix <= Width(ip.family)
    ensures Normal(BlockOf(ip, prefix)) && Contains(BlockOf(ip, prefix), ip)
  {
    var m := Mask(ip.family, prefix);
    hide Mask;
    assert And(And(ip.bits, m), m) == And(ip.bits, m);
  }

  // ---- Overlap ----------------------------------------------------------------------------------

  function BaseOf(b: Block): Ip {
    Ip(b.family, b.base)
  }

  /** The longer prefix lies inside the shorter one, as soon as they overlap. */
  lemma Nested(inner: Block, outer: Block, ip: Ip)
    requires Normal(inner) && Normal(outer) && outer.prefix <= inner.prefix && IsIp(ip)
    requires Overlaps(inner, outer) && Contains(inner, ip)
    ensures Contains(outer, ip)
  {
    ContainsExact(inner, ip);
    ContainsExact(outer, ip);
    OverlapsPrefix(inner, outer);
    hide Contains, Overlaps, And, Mask;
    var p, q := inner.prefix, outer.prefix;
    assert inner.base[..p][..q] == inner.base[..q];
  }

  lemma SharedAddress(inner: Block, outer: Block, ip: Ip)
    requires Normal(inner) && Normal(outer) && outer.prefix <= inner.prefix && IsIp(ip)
    requires Contains(inner, ip) && Contains(outer, ip)
    ensures Overlaps(inner, outer)
  {
    ContainsExact(inner, ip);
    ContainsExact(outer, ip);
    OverlapsPrefix(inner, outer);
    hide Contains, Overlaps, And, Mask;
    var p, q := inner.prefix, outer.prefix;
    assert inner.base[..q] == inner.base[..p][..q];
    assert ip.bits[..p][..q] == ip.bits[..q];
  }

  lemma OverlapSymmetric(a: Block, b: Block)
    requires Normal(a) && Normal(b)
    ensures Overlaps(a, b) <==> Overlaps(b, a)
  {
    OverlapsPrefix(a, b);
    OverlapsPrefix(b, a);
    hide Overlaps;
  }

  ghost predicate Shares(a: Block, b: Block)
    requires Normal(a) && Normal(b)
  {
    exists ip :: IsIp(ip) && Contains(a, ip) && Contains(b, ip)
  }

  /** Two blocks overlap exactly when some address is in both. */
  lemma OverlapExact(a: Block, b: Block)
    requires Normal(a) && Normal(b)
    ensures Overlaps(a, b) <==> Shares(a, b)
  {
    OverlapSymmetric(a, b);
    var (inner, outer) := if b.prefix <= a.prefix then (a, b) else (b, a);
    assert Contains(inner, BaseOf(inner));
    hide Contains, Overlaps, Normal;
    if Overlaps(a, b) {
      Nested(inner, outer, BaseOf(inner));
    }
    if Shares(a, b) {
      var ip :| IsIp(ip) && Contains(a, ip) && Contains(b, ip);
      SharedAddress(inner, outer, ip);
    }
  }

  ghost predicate Inside(a: Block, b: Block)
    requires Normal(a) && Normal(b)
  {
    forall ip :: IsIp(ip) && Contains(a, ip) ==> Contains(b, ip)
  }

  /** Blocks never cross: two overlap exactly when one holds all of the other. */
  lemma OverlapIsContainment(a: Block, b: Block)
    requires Normal(a) && Normal(b)
    ensures Overlaps(a, b) <==> Inside(a, b) || Inside(b, a)
  {
    OverlapSymmetric(a, b);
    OverlapExact(a, b);
    assert Contains(a, BaseOf(a)) && Contains(b, BaseOf(b));
    hide Contains, Overlaps, Normal;
    if Overlaps(a, b) {
      var (inner, outer) := if b.prefix <= a.prefix then (a, b) else (b, a);
      forall ip | IsIp(ip) && Contains(inner, ip) ensures Contains(outer, ip) {
        Nested(inner, outer, ip);
      }
    }
    if Inside(a, b) || Inside(b, a) {
      assert Shares(a, b);
    }
  }

  // ---- The policy -------------------------------------------------------------------------------

  datatype Policy = Policy(allow: seq<Block>, deny: seq<Block>)

  predicate AllNormal(blocks: seq<Block>) {
    forall i :: 0 <= i < |blocks| ==> Normal(blocks[i])
  }

  predicate AnyContains(blocks: seq<Block>, ip: Ip)
    requires AllNormal(blocks) && IsIp(ip)
  {
    exists i :: 0 <= i < |blocks| && Contains(blocks[i], ip)
  }

  predicate Allowed(p: Policy, ip: Ip)
    requires AllNormal(p.allow) && AllNormal(p.deny) && IsIp(ip)
  {
    if AnyContains(p.deny, ip) then false
    else if p.allow == [] then true
    else AnyContains(p.allow, ip)
  }

  /** A rule as it is configured: an address and how many of its bits count. */
  datatype Rule = Rule(ip: Ip, prefix: nat)

  predicate WellFormed(rules: seq<Rule>) {
    forall i :: 0 <= i < |rules| ==> IsIp(rules[i].ip) && rules[i].prefix <= Width(rules[i].ip.family)
  }

  function BlocksOf(rules: seq<Rule>): (blocks: seq<Block>)
    requires WellFormed(rules)
    ensures |blocks| == |rules|
  {
    seq(|rules|, i requires 0 <= i < |rules| => BlockOf(rules[i].ip, rules[i].prefix))
  }

  /** The address is of the rule's family and has the bits that count. */
  predicate Matches(rule: Rule, ip: Ip) {
    rule.ip.family == ip.family && rule.prefix <= |rule.ip.bits| && rule.ip.bits[..rule.prefix] <= ip.bits
  }

  lemma MatchesExact(rule: Rule, ip: Ip)
    requires IsIp(rule.ip) && rule.prefix <= Width(rule.ip.family) && IsIp(ip)
    ensures Normal(BlockOf(rule.ip, rule.prefix)) && (Contains(BlockOf(rule.ip, rule.prefix), ip) <==> Matches(rule, ip))
  {
    BlockIsNormal(rule.ip, rule.prefix);
    hide And, Mask, Normal;
    if rule.ip.family == ip.family {
      MaskedEqual(ip.family, rule.prefix, ip.bits, rule.ip.bits);
      assert rule.ip.bits[..rule.prefix] <= ip.bits <==> rule.ip.bits[..rule.prefix] == ip.bits[..rule.prefix];
    }
  }

  lemma AnyMatches(rules: seq<Rule>, ip: Ip)
    requires WellFormed(rules) && IsIp(ip)
    ensures AllNormal(BlocksOf(rules))
    ensures AnyContains(BlocksOf(rules), ip) <==> exists i :: 0 <= i < |rules| && Matches(rules[i], ip)
  {
    hide Contains, Normal, Matches, BlockOf;
    var blocks := BlocksOf(rules);
    forall i | 0 <= i < |rules| ensures Normal(blocks[i]) && (Contains(blocks[i], ip) <==> Matches(rules[i], ip)) {
      MatchesExact(rules[i], ip);
    }
  }

  /** An address may proceed exactly when it matches no rule of the deny list, and one of the allow list or that is empty. */
  lemma AllowedExact(allow: seq<Rule>, deny: seq<Rule>, ip: Ip)
    requires WellFormed(allow) && WellFormed(deny) && IsIp(ip)
    ensures AllNormal(BlocksOf(allow)) && AllNormal(BlocksOf(deny))
    ensures Allowed(Policy(BlocksOf(allow), BlocksOf(deny)), ip)
            <==> && (forall i :: 0 <= i < |deny| ==> !Matches(deny[i], ip))
                 && (allow == [] || exists i :: 0 <= i < |allow| && Matches(allow[i], ip))
  {
    AnyMatches(allow, ip);
    AnyMatches(deny, ip);
    hide BlocksOf, AnyContains, AllNormal, Matches, WellFormed, IsIp;
  }

  function Without(blocks: seq<Block>, k: nat): (r: seq<Block>)
    requires k < |blocks|
    ensures AllNormal(blocks) ==> AllNormal(r)
  {
    blocks[..k] + blocks[k + 1..]
  }

  /** Entry `k` overlaps entry `j` of the list, whose prefix is as short or shorter. */
  predicate Shadowed(blocks: seq<Block>, k: nat, j: nat) {
    && k < |blocks| && j < |blocks| && k != j && AllNormal(blocks)
    && Overlaps(blocks[k], blocks[j]) && blocks[j].prefix <= blocks[k].prefix
  }

  lemma AnyWithout(blocks: seq<Block>, k: nat, j: nat, ip: Ip)
    requires IsIp(ip) && Shadowed(blocks, k, j)
    ensures AnyContains(blocks, ip) <==> AnyContains(Without(blocks, k), ip)
  {
    hide Overlaps, Contains, Normal;
    var rest := Without(blocks, k);
    assert forall i :: 0 <= i < k ==> rest[i] == blocks[i];
    assert forall i :: k <= i < |rest| ==> rest[i] == blocks[i + 1];
    if AnyContains(blocks, ip) {
      var i :| 0 <= i < |blocks| && Contains(blocks[i], ip);
      if i == k {
        Nested(blocks[k], blocks[j], ip);
      }
      var m := if i == k then j else i;
      assert rest[if m < k then m else m - 1] == blocks[m];
    }
  }

  /** A shadowed entry of either list can go: no answer changes. */
  lemma ShadowedEntry(p: Policy, k: nat, j: nat, ip: Ip)
    requires AllNormal(p.allow) && AllNormal(p.deny) && IsIp(ip)
    ensures Shadowed(p.deny, k, j) ==> Allowed(p.(deny := Without(p.deny, k)), ip) == Allowed(p, ip)
    ensures Shadowed(p.allow, k, j) ==> Allowed(p.(allow := Without(p.allow, k)), ip) == Allowed(p, ip)
  {
    hide AllNormal, AnyContains;
    if Shadowed(p.deny, k, j) {
      AnyWithout(p.deny, k, j, ip);
    }
    if Shadowed(p.allow, k, j) {
      AnyWithout(p.allow, k, j, ip);
      assert |Without(p.allow, k)| == |p.allow| - 1 > 0;
    }
  }
}
