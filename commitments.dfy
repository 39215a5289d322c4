/**
 * Pedersen commitments as an abstract commutative group.
 *
 * A commitment stands for the point value·H + blinding·G. The model keeps the
 * two coordinates and adds them componentwise, which is exactly the
 * homomorphism the supply equation relies on; the elliptic curve itself is
 * not modelled.
 */
module Commitments {

  datatype Commitment = Commitment(value: int, blinding: int)

  /** The group identity (the point at infinity). */
  const Identity := Commitment(0, 0)

  function Add(a: Commitment, b: Commitment): Commitment {
    Commitment(a.value + b.value, a.blinding + b.blinding)
  }

  function Neg(a: Commitment): Commitment {
    Commitment(-a.value, -a.blinding)
  }

  /** Homomorphic sum of a list of commitments, folded from the front. */
  function Sum(cs: seq<Commitment>): Commitment {
    if |cs| == 0 then Identity else Add(cs[0], Sum(cs[1..]))
  }

  /** `commit_sum(positive, negative)`: Σpositive − Σnegative; with no negative terms, just Σpositive. */
  function CommitSum(positive: seq<Commitment>, negative: seq<Commitment>): Commitment {
    if |negative| == 0 then Sum(positive) else Add(Sum(positive), Neg(Sum(negative)))
  }

  /** `commit(value, blind)`: a commitment to `value` under blinding scalar `blind`. */
  function Commit(value: int, blind: int): Commitment {
    Commitment(value, blind)
  }

  /** `commit_value(value)`: a commitment to a public value, with zero blinding. */
  function CommitValue(value: int): Commitment {
    Commit(value, 0)
  }

  /** Total committed value of a list: the independent reference for Sum. */
  function TotalValue(cs: seq<Commitment>): int {
    if |cs| == 0 then 0 else TotalValue(cs[..|cs| - 1]) + cs[|cs| - 1].value
  }

  /** Total blinding of a list: the independent reference for Sum. */
  function TotalBlinding(cs: seq<Commitment>): int {
    if |cs| == 0 then 0 else TotalBlinding(cs[..|cs| - 1]) + cs[|cs| - 1].blinding
  }

  /** Summing a concatenation is adding the two sums. */
  lemma {:induction false} SumAppend(a: seq<Commitment>, b: seq<Commitment>)
    ensures Sum(a + b) == Add(Sum(a), Sum(b))
  {
    if a == [] {
      assert a + b == b;
    } else {
      assert (a + b)[1..] == a[1..] + b;
      SumAppend(a[1..], b);
    }
  }

  /** The sum of a list commits to the total value under the total blinding. */
  lemma {:induction false} SumOpens(cs: seq<Commitment>)
    ensures Sum(cs) == Commit(TotalValue(cs), TotalBlinding(cs))
  {
    if cs != [] {
      var init, last := cs[..|cs| - 1], cs[|cs| - 1];
      assert cs == init + [last];
      SumOpens(init);
      SumAppend(init, [last]);
      assert Sum([last]) == last;
    }
  }

  /** `commit_sum` with no negative terms commits to the total value under the total blinding. */
  lemma {:induction false} CommitSumOpens(cs: seq<Commitment>)
    ensures CommitSum(cs, []) == Commit(TotalValue(cs), TotalBlinding(cs))
  {
    SumOpens(cs);
  }

  /** Two commitments are the same exactly when their values and their blindings are. */
  lemma {:induction false} CommitInjective(x: Commitment, y: Commitment, a: int, b: int, c: int, d: int)
    requires x == Commit(a, b) && y == Commit(c, d)
    ensures x == y <==> a == c && b == d
  {
  }

  /** The sum of three commitments, as the right-hand side of the supply equation is formed. */
  lemma {:induction false} SumOfThree(a: Commitment, b: Commitment, c: Commitment)
    ensures CommitSum([a, b, c], []) == Add(a, Add(b, c))
  {
    assert [a, b, c][1..] == [b, c];
    assert [b, c][1..] == [c];
    assert [c][1..] == [];
    assert Sum([c]) == Add(c, Identity) == c;
    assert Sum([b, c]) == Add(b, c);
  }

  /** commit(a, r) + commit(b, s) == commit(a + b, r + s). */
  lemma {:induction false} CommitHomomorphic(a: int, r: int, b: int, s: int)
    ensures CommitSum([Commit(a, r), Commit(b, s)], []) == Commit(a + b, r + s)
  {
    var x, y := Commit(a, r), Commit(b, s);
    assert [x, y][1..] == [y];
    assert [y][1..] == [];
    assert Sum([y]) == Add(y, Identity) == y;
    assert Sum([x, y]) == Add(x, y);
  }

  /** Taking one element out of a list takes it out of the sum. */
  lemma {:induction false} SumRemove(b: seq<Commitment>, i: nat)
    requires i < |b|
    ensures Sum(b) == Add(b[i], Sum(b[..i] + b[i + 1..]))
  {
    assert b == b[..i] + ([b[i]] + b[i + 1..]);
    SumAppend(b[..i], [b[i]] + b[i + 1..]);
    assert ([b[i]] + b[i + 1..])[1..] == b[i + 1..];
    SumAppend(b[..i], b[i + 1..]);
  }

  /** The sum does not depend on the order of the list. */
  lemma {:induction false} SumPermutation(a: seq<Commitment>, b: seq<Commitment>)
    requires multiset(a) == multiset(b)
    ensures Sum(a) == Sum(b)
    decreases |a|
  {
    if a == [] {
      assert |b| == |multiset(b)| == 0;
    } else {
      assert a[0] in multiset(b);
      var i :| 0 <= i < |b| && b[i] == a[0];
      var rest := b[..i] + b[i + 1..];
      assert b == b[..i] + [b[i]] + b[i + 1..];
      assert a == [a[0]] + a[1..];
      assert multiset(a[1..]) == multiset(a) - multiset{a[0]};
      assert multiset(rest) == multiset(b) - multiset{b[i]};
      SumPermutation(a[1..], rest);
      SumRemove(b, i);
    }
  }
}
