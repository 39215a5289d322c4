/**
 * Step 1 of the audit: collecting the unspent-output commitments at the
 * pinned tip from the leaves of the output index.
 */
module Utxo {
  import opened Outcomes
  import opened Commitments
  import opened Chain

  /**
   * The commitments of the leaves that hold data, in iteration order; a leaf
   * whose `get_data` is None contributes nothing.
   */
  function Present(leaves: seq<Option<OutputIdentifier>>): (r: seq<Commitment>)
    ensures |r| <= |leaves|
  {
    if |leaves| == 0 then []
    else (match leaves[0] case Some(o) => [o.commit] case None => []) + Present(leaves[1..])
  }

  /** The UTXO collection loop: push each present commitment and count it. */
  method CollectUtxos(leaves: seq<Option<OutputIdentifier>>) returns (utxoCommits: seq<Commitment>, utxoCount: nat)
    ensures utxoCommits == Present(leaves)
    ensures utxoCount == |utxoCommits|
  {
    utxoCommits := [];
    utxoCount := 0;
    for pos := 0 to |leaves|
      invariant utxoCommits == Present(leaves[..pos])
      invariant utxoCount == |utxoCommits|
    {
      PresentAppend(leaves[..pos], [leaves[pos]]);
      assert leaves[..pos + 1] == leaves[..pos] + [leaves[pos]];
      if leaves[pos].Some? {
        var commit := leaves[pos].value.commit;
        utxoCommits := utxoCommits + [commit];
        utxoCount := utxoCount + 1;
      }
    }
    assert leaves[..|leaves|] == leaves;
  }

  /** Collection distributes over concatenation of the leaves: order is kept. */
  lemma {:induction false} PresentAppend(a: seq<Option<OutputIdentifier>>, b: seq<Option<OutputIdentifier>>)
    ensures Present(a + b) == Present(a) + Present(b)
  {
    if a == [] {
      assert a + b == b;
    } else {
      assert (a + b)[0] == a[0];
      assert (a + b)[1..] == a[1..] + b;
      PresentAppend(a[1..], b);
    }
  }

  /** A commitment is collected exactly when some leaf holds it. */
  lemma {:induction false} PresentMembers(leaves: seq<Option<OutputIdentifier>>, x: Commitment)
    ensures x in Present(leaves) <==> exists i :: 0 <= i < |leaves| && leaves[i] == Some(OutputIdentifier(x))
  {
    if leaves != [] {
      PresentMembers(leaves[1..], x);
      if x in Present(leaves[1..]) {
        var i :| 0 <= i < |leaves[1..]| && leaves[1..][i] == Some(OutputIdentifier(x));
        assert leaves[i + 1] == Some(OutputIdentifier(x));
      }
      if exists i :: 0 <= i < |leaves| && leaves[i] == Some(OutputIdentifier(x)) {
        var i :| 0 <= i < |leaves| && leaves[i] == Some(OutputIdentifier(x));
        if i > 0 {
          assert leaves[1..][i - 1] == Some(OutputIdentifier(x));
        }
      }
    }
  }

  /** Every leaf is collected exactly when no leaf is empty. */
  lemma {:induction false} PresentAll(leaves: seq<Option<OutputIdentifier>>)
    ensures |Present(leaves)| == |leaves| <==> forall i :: 0 <= i < |leaves| ==> leaves[i].Some?
  {
    if leaves != [] {
      PresentAll(leaves[1..]);
      if forall i :: 0 <= i < |leaves| ==> leaves[i].Some? {
        assert forall i :: 0 <= i < |leaves[1..]| ==> leaves[1..][i] == leaves[i + 1];
      }
      if forall i :: 0 <= i < |leaves[1..]| ==> leaves[1..][i].Some? {
        assert forall i :: 1 <= i < |leaves| ==> leaves[i] == leaves[1..][i - 1];
      }
    }
  }

  /** Taking one leaf out takes its commitment, if any, out of the collection. */
  lemma {:induction false} PresentRemove(b: seq<Option<OutputIdentifier>>, i: nat)
    requires i < |b|
    ensures multiset(Present(b)) == multiset(Present([b[i]])) + multiset(Present(b[..i] + b[i + 1..]))
  {
    assert b == b[..i] + ([b[i]] + b[i + 1..]);
    PresentAppend(b[..i], [b[i]] + b[i + 1..]);
    PresentAppend([b[i]], b[i + 1..]);
    PresentAppend(b[..i], b[i + 1..]);
  }

  /** Reordering the leaves reorders the collected commitments and nothing more. */
  lemma {:induction false} PresentPermutation(a: seq<Option<OutputIdentifier>>, b: seq<Option<OutputIdentifier>>)
    requires multiset(a) == multiset(b)
    ensures multiset(Present(a)) == multiset(Present(b))
    decreases |a|
  {
    if a == [] {
      assert |b| == |multiset(b)| == 0;
    } else {
      assert a[0] in multiset(b);
      var i :| 0 <= i < |b| && b[i] == a[0];
      var rest := b[..i] + b[i + 1..];
      assert b == b[..i] + [b[i]] + b[i + 1..];
      assert a == [a[0]] + a[1..];
      assert multiset(a[1..]) == multiset(a) - multiset{a[0]};
      assert multiset(rest) == multiset(b) - multiset{b[i]};
      PresentPermutation(a[1..], rest);
      PresentAppend([a[0]], a[1..]);
      PresentRemove(b, i);
    }
  }

  /** An extra output inserted anywhere is collected at the matching place, between the same neighbours. */
  lemma {:induction false} PresentInsert(leaves: seq<Option<OutputIdentifier>>, i: nat, o: OutputIdentifier)
    requires i <= |leaves|
    ensures Present(leaves) == Present(leaves[..i]) + Present(leaves[i..])
    ensures Present(leaves[..i] + [Some(o)] + leaves[i..]) == Present(leaves[..i]) + [o.commit] + Present(leaves[i..])
  {
    assert leaves == leaves[..i] + leaves[i..];
    PresentAppend(leaves[..i], leaves[i..]);
    assert Present([Some(o)]) == [o.commit] by {
      assert [Some(o)][1..] == [];
    }
    PresentAppend(leaves[..i] + [Some(o)], leaves[i..]);
    PresentAppend(leaves[..i], [Some(o)]);
  }

  /** An extra output inserted anywhere adds exactly its commitment to the sum of the collection. */
  lemma {:induction false} PresentSumWithExtra(leaves: seq<Option<OutputIdentifier>>, i: nat, o: OutputIdentifier)
    requires i <= |leaves|
    ensures Sum(Present(leaves[..i] + [Some(o)] + leaves[i..])) == Add(o.commit, Sum(Present(leaves)))
  {
    var before, after := Present(leaves[..i]), Present(leaves[i..]);
    var grown := before + [o.commit] + after;
    PresentInsert(leaves, i, o);
    SumRemove(grown, |before|);
    assert grown[..|before|] + grown[|before| + 1..] == before + after;
  }
}
