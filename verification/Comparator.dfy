/**
  The comparator of the arkworks circuit in contracts/zkp-compliance/src/lib.rs.

  `to_bits_le` puts the least significant bit at index 0, so the numbers compared are
  `LsbFirst(bits)`. The loop as written runs from index n-1 down to 0 and lets the last
  index it visits dominate, which makes index 0 the most significant.
*/
module Comparator {
  import opened Arithmetic

  function Bit(b: bool): nat { if b then 1 else 0 }

  // the number with index 0 as the least significant bit
  function LsbFirst(bits: seq<bool>): (v: nat)
    ensures v < Pow2(|bits|)
  {
    if bits == [] then 0
    else
      var n := |bits| - 1;
      LsbFirst(bits[..n]) + Bit(bits[n]) * Pow2(n)
  }

  // the number with index 0 as the most significant bit
  function MsbFirst(bits: seq<bool>): (v: nat)
    ensures v < Pow2(|bits|)
  {
    if bits == [] then 0
    else Bit(bits[0]) * Pow2(|bits| - 1) + MsbFirst(bits[1..])
  }

  // le = (a_i < b_i) | ((a_i == b_i) & le)
  predicate Update(a: bool, b: bool, le: bool) {
    (!a && b) || (a == b && le)
  }

  lemma {:induction false} MsbStep(a: seq<bool>, b: seq<bool>)
    requires |a| == |b| > 0
    ensures MsbFirst(a) <= MsbFirst(b) <==> Update(a[0], b[0], MsbFirst(a[1..]) <= MsbFirst(b[1..]))
  {
    assert Bit(true) * Pow2(|a| - 1) == Pow2(|a| - 1) && Bit(false) * Pow2(|a| - 1) == 0;
  }

  lemma {:induction false} LsbStep(a: seq<bool>, b: seq<bool>)
    requires |a| == |b| > 0
    ensures var n := |a| - 1;
      LsbFirst(a) <= LsbFirst(b) <==> Update(a[n], b[n], LsbFirst(a[..n]) <= LsbFirst(b[..n]))
  {
    assert Bit(true) * Pow2(|a| - 1) == Pow2(|a| - 1) && Bit(false) * Pow2(|a| - 1) == 0;
  }

  /** The loop of generate_constraints, for every bit width. */
  method CompareAsWritten(amountBits: seq<bool>, limitBits: seq<bool>) returns (le: bool)
    requires |amountBits| == |limitBits|
    ensures le <==> MsbFirst(amountBits) <= MsbFirst(limitBits)
  {
    le := true;
    for i := |amountBits| downto 0
      invariant le <==> MsbFirst(amountBits[i..]) <= MsbFirst(limitBits[i..])
    {
      MsbStep(amountBits[i..], limitBits[i..]);
      assert amountBits[i..][1..] == amountBits[i + 1..] && limitBits[i..][1..] == limitBits[i + 1..];
      le := Update(amountBits[i], limitBits[i], le);
    }
    assert amountBits[0..] == amountBits && limitBits[0..] == limitBits;
  }

  /** The same recurrence run upward decides the comparison the circuit is for. */
  method CompareUpward(amountBits: seq<bool>, limitBits: seq<bool>) returns (le: bool)
    requires |amountBits| == |limitBits|
    ensures le <==> LsbFirst(amountBits) <= LsbFirst(limitBits)
  {
    le := true;
    for i := 0 to |amountBits|
      invariant le <==> LsbFirst(amountBits[..i]) <= LsbFirst(limitBits[..i])
    {
      LsbStep(amountBits[..i + 1], limitBits[..i + 1]);
      assert amountBits[..i + 1][..i] == amountBits[..i] && limitBits[..i + 1][..i] == limitBits[..i];
      le := Update(amountBits[i], limitBits[i], le);
    }
    assert amountBits[..|amountBits|] == amountBits && limitBits[..|limitBits|] == limitBits;
  }

  function LowestDifference(a: seq<bool>, b: seq<bool>): (i: nat)
    requires |a| == |b| && a != b
    ensures i < |a| && a[i] != b[i] && a[..i] == b[..i]
  {
    if a[0] != b[0] then 0
    else
      assert a == [a[0]] + a[1..] && b == [b[0]] + b[1..];
      var i := LowestDifference(a[1..], b[1..]) + 1;
      assert a[..i] == [a[0]] + a[1..][..i - 1] && b[..i] == [b[0]] + b[1..][..i - 1];
      i
  }

  lemma {:induction false} TailSplits(a: seq<bool>, i: nat)
    requires i < |a|
    ensures a[i..] == a[..|a| - 1][i..] + [a[|a| - 1]]
  {
  }

  function HighestDifference(a: seq<bool>, b: seq<bool>): (i: nat)
    requires |a| == |b| && a != b
    ensures i < |a| && a[i] != b[i] && a[i + 1..] == b[i + 1..]
  {
    var n := |a| - 1;
    if a[n] != b[n] then n
    else
      assert a == a[..n] + [a[n]] && b == b[..n] + [b[n]];
      var i := HighestDifference(a[..n], b[..n]);
      TailSplits(a, i + 1);
      TailSplits(b, i + 1);
      i
  }

  lemma {:induction false} LowestDecides(a: seq<bool>, b: seq<bool>)
    requires |a| == |b| && a != b
    ensures MsbFirst(a) <= MsbFirst(b) <==> b[LowestDifference(a, b)]
  {
    hide MsbFirst;
    MsbStep(a, b);
    if a[0] == b[0] {
      assert a == [a[0]] + a[1..] && b == [b[0]] + b[1..];
      LowestDecides(a[1..], b[1..]);
    }
  }

  lemma {:induction false} HighestDecides(a: seq<bool>, b: seq<bool>)
    requires |a| == |b| && a != b
    ensures LsbFirst(a) <= LsbFirst(b) <==> b[HighestDifference(a, b)]
  {
    hide LsbFirst;
    var n := |a| - 1;
    LsbStep(a, b);
    if a[n] == b[n] {
      assert a == a[..n] + [a[n]] && b == b[..n] + [b[n]];
      HighestDecides(a[..n], b[..n]);
    }
  }

  /**
    Exactly when the circuit as written agrees with amount <= limit: the bits are equal, or
    the lowest and the highest differing bit point the same way.
  */
  lemma {:induction false} AgreesIff(a: seq<bool>, b: seq<bool>)
    requires |a| == |b|
    ensures (MsbFirst(a) <= MsbFirst(b) <==> LsbFirst(a) <= LsbFirst(b))
      <==> (a == b || b[LowestDifference(a, b)] == b[HighestDifference(a, b)])
  {
    if a != b {
      LowestDecides(a, b);
      HighestDecides(a, b);
    }
  }

  ghost predicate AllEqual(bits: seq<bool>) {
    forall i, j :: 0 <= i < j < |bits| ==> bits[i] == bits[j]
  }

  // The circuit decides amount <= limit for every amount of that width.
  ghost predicate DecidesLimit(b: seq<bool>) {
    forall a: seq<bool> :: |a| == |b| ==> (MsbFirst(a) <= MsbFirst(b) <==> LsbFirst(a) <= LsbFirst(b))
  }

  // The limit with two differing bits flipped is decided wrongly.
  lemma {:induction false} FlippedIsWrong(b: seq<bool>, i: nat, j: nat)
    requires i < j < |b| && b[i] != b[j]
    ensures var a := b[i := !b[i]][j := !b[j]];
      |a| == |b| && !(MsbFirst(a) <= MsbFirst(b) <==> LsbFirst(a) <= LsbFirst(b))
  {
    hide MsbFirst, LsbFirst, LowestDifference, HighestDifference;
    var a := b[i := !b[i]][j := !b[j]];
    assert a[i] != b[i] && a[j] != b[j];
    AgreesIff(a, b);
    var low, high := LowestDifference(a, b), HighestDifference(a, b);
    assert low == i || low == j;
    assert high == i || high == j;
    assert low != j by { assert a[..j][i] != b[..j][i]; }
    assert high != i by { assert a[i + 1..][j - i - 1] != b[i + 1..][j - i - 1]; }
  }

  lemma {:induction false} AllSameValue(bits: seq<bool>, bit: bool)
    ensures LsbFirst(bits) == (if bit then Pow2(|bits|) - 1 else 0) <==> forall i :: 0 <= i < |bits| ==> bits[i] == bit
  {
    if bits != [] {
      var n := |bits| - 1;
      AllSameValue(bits[..n], bit);
      assert forall i :: 0 <= i < n ==> bits[..n][i] == bits[i];
      assert Bit(true) * Pow2(n) == Pow2(n) && Bit(false) * Pow2(n) == 0;
    }
  }

  /**
    For a limit, the circuit decides amount <= limit for every amount if and only if all
    bits of the limit are equal: the limit is 0 or 2^n - 1, and excludes everything or nothing.
  */
  lemma {:induction false} DecidesLimitIff(b: seq<bool>)
    ensures DecidesLimit(b) <==> AllEqual(b)
    ensures AllEqual(b) <==> LsbFirst(b) == 0 || LsbFirst(b) == Pow2(|b|) - 1
  {
    hide MsbFirst, LsbFirst, LowestDifference, HighestDifference;
    if AllEqual(b) {
      forall a: seq<bool> | |a| == |b| ensures MsbFirst(a) <= MsbFirst(b) <==> LsbFirst(a) <= LsbFirst(b) {
        AgreesIff(a, b);
      }
    } else {
      var i, j :| 0 <= i < j < |b| && b[i] != b[j];
      FlippedIsWrong(b, i, j);
    }
    AllSameValue(b, false);
    AllSameValue(b, true);
    assert AllEqual(b) && b != [] ==> forall i :: 0 <= i < |b| ==> b[i] == b[0];
  }

  function Zeros(n: nat): (z: seq<bool>)
    ensures |z| == n && forall i :: 0 <= i < n ==> !z[i]
  {
    seq(n, i => false)
  }

  lemma {:induction false} LsbFirstPadding(bits: seq<bool>, n: nat)
    ensures LsbFirst(bits + Zeros(n)) == LsbFirst(bits)
  {
    if n == 0 {
      assert bits + Zeros(0) == bits;
    } else {
      LsbFirstPadding(bits, n - 1);
      assert (bits + Zeros(n))[..|bits| + n - 1] == bits + Zeros(n - 1);
    }
  }

  /**
    At every width of two bits or more the circuit accepts amount 2 against limit 1 and
    rejects amount 1 against limit 2.
  */
  lemma {:induction false} OneVersusTwo(n: nat)
    ensures var one, two := [true, false] + Zeros(n), [false, true] + Zeros(n);
      && LsbFirst(one) == 1 && LsbFirst(two) == 2
      && MsbFirst(two) <= MsbFirst(one)
      && !(MsbFirst(one) <= MsbFirst(two))
  {
    var one, two := [true, false] + Zeros(n), [false, true] + Zeros(n);
    LsbFirstPadding([true, false], n);
    LsbFirstPadding([false, true], n);
    assert LsbFirst([true, false]) == 1 && LsbFirst([false, true]) == 2 by {
      assert [true, false][..1] == [true] && [false, true][..1] == [false] && [true][..0] == [] && [false][..0] == [];
      assert LsbFirst([true]) == 1 && LsbFirst([false]) == 0 && Pow2(1) == 2 * Pow2(0);
    }
    assert one[0] && !two[0];
    assert LowestDifference(two, one) == 0 && LowestDifference(one, two) == 0;
    LowestDecides(two, one);
    LowestDecides(one, two);
  }
}
