/** Decimal printing of naturals, as `format!("{}", n)` does it. */
module Decimal {
  import opened Bytes

  predicate IsDigit(b: byte) {
    48 <= b <= 57
  }

  function Print(n: nat): (r: bytes)
    ensures |r| >= 1
    ensures forall i :: 0 <= i < |r| ==> IsDigit(r[i])
  {
    if n < 10 then [48 + n] else Print(n / 10) + [48 + n % 10]
  }

  /** Reading digits back, most significant first. */
  function Value(s: bytes): nat
    requires forall i :: 0 <= i < |s| ==> IsDigit(s[i])
  {
    if s == [] then 0
    else
      var last := s[|s| - 1];
      assert IsDigit(last);
      10 * Value(s[..|s| - 1]) + (last as int - 48)
  }

  lemma {:induction false} ValueOfPrint(n: nat)
    ensures Value(Print(n)) == n
  {
    if n >= 10 {
      ValueOfPrint(n / 10);
      assert Print(n)[..|Print(n)| - 1] == Print(n / 10);
    } else {
      assert Print(n)[..0] == [];
    }
  }

  /** Different numbers print differently. */
  lemma PrintInjective(a: nat, b: nat)
    requires Print(a) == Print(b)
    ensures a == b
  {
    ValueOfPrint(a);
    ValueOfPrint(b);
  }

  function Pow10(k: nat): (p: nat)
    ensures p > 0
  {
    if k == 0 then 1 else 10 * Pow10(k - 1)
  }

  lemma {:induction false} PrintLength(n: nat, k: nat)
    requires k >= 1 && n < Pow10(k)
    ensures |Print(n)| <= k
  {
    if n >= 10 {
      assert n / 10 < Pow10(k - 1);
      PrintLength(n / 10, k - 1);
    }
  }

  /** A 64-bit number prints in at most twenty digits. */
  lemma PrintLength64(n: nat)
    requires n < 0x1_0000_0000_0000_0000
    ensures |Print(n)| <= 20
  {
    assert Pow10(5) == 100000;
    assert Pow10(10) == 10000000000;
    assert Pow10(15) == 1000000000000000;
    PrintLength(n, 20);
  }

  /** The same digits as characters. */
  function Text(n: nat): (r: string)
    ensures |r| >= 1
    ensures forall i :: 0 <= i < |r| ==> '0' <= r[i] <= '9'
  {
    var d := Print(n);
    assert forall i :: 0 <= i < |d| ==> IsDigit(d[i]);
    seq(|d|, i requires 0 <= i < |d| => d[i] as char)
  }

  lemma TextInjective(a: nat, b: nat)
    requires Text(a) == Text(b)
    ensures a == b
  {
    hide Print;
    var d, e := Print(a), Print(b);
    assert forall i :: 0 <= i < |d| ==> d[i] as char == Text(a)[i];
    assert forall i :: 0 <= i < |e| ==> e[i] as char == Text(b)[i];
    assert d == e;
    PrintInjective(a, b);
  }
}
