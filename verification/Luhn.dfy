/** The payment-card checksum of `src/dlp.rs`, against the rule of Annex B of ISO/IEC 7812-1. */
module Luhn {
  import opened Bytes

  type digit = d: int | 0 <= d <= 9

  /** Twice a digit, with the digits of the product added together. */
  function Doubled(d: digit): (r: digit)
    ensures r % 9 == (2 * d) % 9
  {
    if 2 * d > 9 then 2 * d - 9 else 2 * d
  }

  function DigitsOf(s: bytes): seq<digit> {
    if s == [] then []
    else if 48 <= s[0] <= 57 then [s[0] as int - 48] + DigitsOf(s[1..])
    else DigitsOf(s[1..])
  }

  /** Sum from the right: every second digit, starting with the one before the check digit, is doubled. */
  function RightToLeft(ds: seq<digit>, doubling: bool): nat {
    if ds == [] then 0
    else
      var d := ds[|ds| - 1];
      (if doubling then Doubled(d) else d) + RightToLeft(ds[..|ds| - 1], !doubling)
  }

  predicate Checks(ds: seq<digit>) {
    13 <= |ds| <= 19 && RightToLeft(ds, false) % 10 == 0
  }

  /** What position `i` of `n` digits adds. */
  function Weight(d: digit, i: nat, n: nat): digit {
    if i % 2 == n % 2 then Doubled(d) else d
  }

  /** The sum as the source takes it, left to right. */
  function LeftToRight(ds: seq<digit>, n: nat, i: nat): nat
    requires i <= |ds|
    decreases |ds| - i
  {
    if i == |ds| then 0 else Weight(ds[i], i, n) + LeftToRight(ds, n, i + 1)
  }

  method LuhnValid(s: bytes) returns (ok: bool)
    ensures ok <==> Checks(DigitsOf(s))
  {
    var digits := DigitsOf(s);
    if !(13 <= |digits| <= 19) {
      return false;
    }
    var parity := |digits| % 2;
    var sum := 0;
    for i := 0 to |digits|
      invariant sum + LeftToRight(digits, |digits|, i) == LeftToRight(digits, |digits|, 0)
    {
      var v: int := digits[i];
      if i % 2 == parity {
        v := v * 2;
        if v > 9 {
          v := v - 9;
        }
      }
      sum := sum + v;
    }
    SumsAgree(digits, false);
    ok := sum % 10 == 0;
  }

  /** Both directions double the same digits. */
  lemma {:induction false} SumsAgree(ds: seq<digit>, doubling: bool)
    ensures RightToLeft(ds, doubling) == LeftToRight(ds, |ds| + (if doubling then 1 else 0), 0)
  {
    if ds != [] {
      var n := |ds| + (if doubling then 1 else 0);
      var front := ds[..|ds| - 1];
      SumsAgree(front, !doubling);
      SplitLast(ds, n, 0);
      SameParity(front, n, |front| + (if !doubling then 1 else 0), 0);
    }
  }

  lemma {:induction false} SplitLast(ds: seq<digit>, n: nat, i: nat)
    requires i < |ds|
    ensures LeftToRight(ds, n, i)
            == LeftToRight(ds[..|ds| - 1], n, i) + Weight(ds[|ds| - 1], |ds| - 1, n)
    decreases |ds| - i
  {
    if i + 1 < |ds| {
      SplitLast(ds, n, i + 1);
    } else {
      assert LeftToRight(ds, n, i + 1) == 0;
    }
  }

  lemma {:induction false} SameParity(ds: seq<digit>, a: nat, b: nat, i: nat)
    requires i <= |ds| && a % 2 == b % 2
    ensures LeftToRight(ds, a, i) == LeftToRight(ds, b, i)
    decreases |ds| - i
  {
    if i < |ds| {
      SameParity(ds, a, b, i + 1);
    }
  }

  /** Only the digits count, in order, whatever stands between them. */
  lemma {:induction false} DigitsExact(before: bytes, b: byte, after: bytes)
    ensures DigitsOf(before + [b] + after)
            == DigitsOf(before) + (if '0' as int <= b <= '9' as int then [b - '0' as int] else []) + DigitsOf(after)
    decreases |before|
  {
    var s := before + [b] + after;
    if before == [] {
      assert s[0] == b && s[1..] == after;
    } else {
      DigitsExact(before[1..], b, after);
      assert s[0] == before[0] && s[1..] == before[1..] + [b] + after;
    }
  }

  lemma SumStep(ds: seq<digit>, d: digit, doubling: bool)
    ensures RightToLeft(ds + [d], doubling) == (if doubling then Doubled(d) else d) + RightToLeft(ds, !doubling)
  {
    assert (ds + [d])[..|ds|] == ds;
  }

  /** As many ones after `ds` add one each where they count once, and two where they count twice. */
  lemma {:induction false} OnesAdd(ds: seq<digit>, n: nat, doubling: bool)
    ensures RightToLeft(ds + seq(2 * n, _ => 1), doubling) == RightToLeft(ds, doubling) + 3 * n
    decreases n
  {
    if n == 0 {
      assert ds + seq(0, _ => 1) == ds;
    } else {
      var fewer := ds + seq(2 * n - 2, _ => 1);
      assert ds + seq(2 * n, _ => 1) == fewer + [1] + [1];
      OnesAdd(ds, n - 1, doubling);
      SumStep(fewer + [1], 1, doubling);
      SumStep(fewer, 1, !doubling);
    }
  }

  /** A published example: a four and fifteen ones check, and a four and fourteen do not. */
  lemma KnownNumber()
    ensures Checks([4] + seq(15, _ => 1)) && !Checks([4] + seq(14, _ => 1))
  {
    assert [4] + seq(15, _ => 1) == [4, 1] + seq(2 * 7, _ => 1);
    OnesAdd([4, 1], 7, false);
    OnesAdd([4], 7, false);
    hide RightToLeft;
    SumStep([4], 1, false);
    SumStep([], 4, true);
    SumStep([], 4, false);
    NoDigits();
    assert [4] + [1] == [4, 1] && [] + [4] == [4];
  }

  lemma NoDigits()
    ensures RightToLeft([], false) == 0 && RightToLeft([], true) == 0
  {
  }

  /** Changing one digit changes the sum by the change in what that position adds. */
  lemma {:induction false} ChangeOne(ds: seq<digit>, n: nat, k: nat, d: digit, i: nat)
    requires k < |ds| && i <= |ds|
    ensures LeftToRight(ds[k := d], n, i)
            == LeftToRight(ds, n, i) + (if i <= k then Weight(d, k, n) - Weight(ds[k], k, n) else 0)
    decreases |ds| - i
  {
    if i < |ds| {
      ChangeOne(ds, n, k, d, i + 1);
    }
  }

  /** A valid number stops being valid when any one digit is mistyped. */
  lemma DetectsOneDigit(ds: seq<digit>, k: nat, d: digit)
    requires Checks(ds) && k < |ds| && d != ds[k]
    ensures !Checks(ds[k := d])
  {
    hide RightToLeft, LeftToRight, Weight;
    SumsAgree(ds, false);
    SumsAgree(ds[k := d], false);
    ChangeOne(ds, |ds|, k, d, 0);
    WeightInjective(ds[k], d, k, |ds|);
    ShiftMod(RightToLeft(ds, false), Weight(d, k, |ds|) - Weight(ds[k], k, |ds|));
  }

  lemma WeightInjective(a: digit, b: digit, i: nat, n: nat)
    requires a != b
    ensures (Weight(b, i, n) - Weight(a, i, n)) % 10 != 0
  {
    var change: int := Weight(b, i, n) as int - Weight(a, i, n) as int;
    assert change != 0 && -9 <= change <= 9;
  }

  lemma ShiftMod(sum: int, change: int)
    requires sum % 10 == 0
    ensures (sum + change) % 10 == 0 <==> change % 10 == 0
  {}

  /** And when two neighbours are swapped, exactly unless they are equal, or 0 and 9. */
  lemma DetectsSwap(ds: seq<digit>, k: nat)
    requires Checks(ds) && k + 1 < |ds|
    ensures var swapped := ds[k := ds[k + 1]][k + 1 := ds[k]];
            Checks(swapped) <==> ds[k] == ds[k + 1] || {ds[k], ds[k + 1]} == {0, 9}
  {
    hide RightToLeft, LeftToRight, Weight;
    var n, a, b := |ds|, ds[k], ds[k + 1];
    var once := ds[k := b];
    var swapped := once[k + 1 := a];
    SumsAgree(ds, false);
    SumsAgree(swapped, false);
    ChangeOne(ds, n, k, b, 0);
    ChangeOne(once, n, k + 1, a, 0);
    var change: int := Weight(b, k, n) as int - Weight(a, k, n) as int + Weight(a, k + 1, n) as int - Weight(b, k + 1, n) as int;
    ShiftMod(RightToLeft(ds, false), change);
    SwapWeights(a, b, k, n);
  }

  lemma SwapWeights(a: digit, b: digit, k: nat, n: nat)
    ensures (Weight(b, k, n) as int - Weight(a, k, n) as int + Weight(a, k + 1, n) as int - Weight(b, k + 1, n) as int) % 10 == 0
            <==> a == b || {a, b} == {0, 9}
  {
    PairWeights(a, b);
  }

  lemma PairWeights(a: digit, b: digit)
    ensures (Doubled(b) + a - Doubled(a) - b) % 10 == 0 <==> a == b || {a, b} == {0, 9}
    ensures (b + Doubled(a) - a - Doubled(b)) % 10 == 0 <==> a == b || {a, b} == {0, 9}
  {
    if {a, b} == {0, 9} {
      assert a in {0, 9} && b in {0, 9} && 0 in {a, b} && 9 in {a, b};
    } else {
      assert !(a == 0 && b == 9) && !(a == 9 && b == 0);
    }
  }
}
