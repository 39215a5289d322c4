/**
 * The supply audit: ΣUTXO == Σkernel excesses + offset·G + reward·H.
 *
 * `Audit` is the specification of one run; `VerifySupply` is the run itself,
 * step by step, with the store, the secp256k1 key parser, the reward schedule
 * and the path-existence query passed in as data.
 */
module Supply {
  import opened Outcomes
  import opened Commitments
  import opened Chain
  import opened Utxo
  import opened KernelWalk

  /**
   * The values a successful run reports. The numeric fields are plain
   * integers; `FinishVerdict` and `AuditVerdict` state that each is the
   * height, length or reward it stands for.
   */
  datatype Report = Report(
    tipHeight: int,
    utxoCount: int,
    collectedKernels: int,
    totalReward: int,
    lhs: Commitment,
    rhs: Commitment)

  /**
   * The right-hand side, Σexcess + commit(0, offset) + commit_value(reward):
   * it commits to the excess value plus the reward, under the excess
   * blinding plus the offset.
   */
  function SupplyRhs(excessSum: Commitment, offset: int, totalReward: nat): (r: Commitment)
    ensures r == Commit(excessSum.value + totalReward, excessSum.blinding + offset)
  {
    SumOfThree(excessSum, Commit(0, offset), CommitValue(totalReward));
    CommitSum([excessSum, Commit(0, offset), CommitValue(totalReward)], [])
  }

  /** Step 4: pass with the report when both sides are the same point, otherwise fail with both. */
  function Verdict(report: Report): Result<Report, SupplyError> {
    if report.lhs == report.rhs then Ok(report) else Err(SupplyMismatch(report.lhs, report.rhs))
  }

  /** Every step before the kernel walk succeeds: the path exists, the store, its head and the output index open. */
  predicate WalkReached(chainPath: string, pathExists: string -> bool, c: ChainData) {
    pathExists(chainPath) && c.storeOpens && c.head.Some? && c.txHashSetOpens
  }

  /** Every read of the run succeeds: the walk reaches genesis and the offset is a valid key. */
  predicate AllReadsSucceed(chainPath: string, pathExists: string -> bool, c: ChainData, secretKey: seq<bv8> -> Option<int>)
    requires Descending(c)
  {
    && WalkReached(chainPath, pathExists, c)
    && Trace(c, c.head.value).failure.None?
    && secretKey(c.head.value.totalKernelOffset).Some?
  }

  /**
   * Steps 3 and 4, once both sums are known: the offset becomes a commitment
   * to zero, the reward for the tip height a commitment with zero blinding,
   * and the verdict compares the two sides.
   */
  function Evaluate(
    pinned: Header, lhs: Commitment, utxoCount: nat, excessSum: Commitment, collectedKernels: nat,
    secretKey: seq<bv8> -> Option<int>, overage: nat -> nat): (r: Result<Report, SupplyError>)
    ensures secretKey(pinned.totalKernelOffset).None? ==> r == Err(InvalidOffset)
    ensures secretKey(pinned.totalKernelOffset).Some? ==>
      var offset, reward := secretKey(pinned.totalKernelOffset).value, overage(pinned.height);
      var rhs := Commit(excessSum.value + reward, excessSum.blinding + offset);
      && (r.Ok? <==> lhs == rhs)
      && (r.Ok? ==> r.value == Report(pinned.height, utxoCount, collectedKernels, reward, lhs, rhs))
      && (r.Err? ==> r.error == SupplyMismatch(lhs, rhs))
  {
    match secretKey(pinned.totalKernelOffset)
    case None => Err(InvalidOffset)
    case Some(offset) =>
      var reward := overage(pinned.height);
      var rhs := SupplyRhs(excessSum, offset, reward);
      Verdict(Report(pinned.height, utxoCount, collectedKernels, reward, lhs, rhs))
  }

  /** What the reads of a run deliver: the pinned tip, the UTXO commitments and the kernel excesses. */
  datatype Snapshot = Snapshot(pinned: Header, utxos: seq<Commitment>, excesses: seq<Commitment>)

  /**
   * Steps 0 to 2: check the path, open the store, read its head, open the
   * output index, collect the UTXOs and walk the kernels. The first read that
   * fails decides the error.
   */
  function Gather(chainPath: string, pathExists: string -> bool, c: ChainData): (r: Result<Snapshot, SupplyError>)
    requires Descending(c)
    ensures !pathExists(chainPath) ==> r == Err(ChainDataNotFound(chainPath))
    ensures r.Ok? <==> WalkReached(chainPath, pathExists, c) && Trace(c, c.head.value).failure.None?
    ensures r.Ok? ==> r.value == Snapshot(c.head.value, Present(c.outputLeaves), Trace(c, c.head.value).excesses)
  {
    if !pathExists(chainPath) then Err(ChainDataNotFound(chainPath))
    else if !c.storeOpens then Err(StoreOpenFailed)
    else if c.head.None? then Err(HeadUnreadable)
    else if !c.txHashSetOpens then Err(TxHashSetOpenFailed)
    else
      var t := Trace(c, c.head.value);
      if t.failure.Some? then Err(t.failure.value)
      else Ok(Snapshot(c.head.value, Present(c.outputLeaves), t.excesses))
  }

  /** Steps 3 and 4 once the reads have succeeded; a failed read is passed on unchanged. */
  function Finish(
    gathered: Result<Snapshot, SupplyError>,
    secretKey: seq<bv8> -> Option<int>, overage: nat -> nat): (r: Result<Report, SupplyError>)
    ensures gathered.Err? ==> r == Err(gathered.error)
    ensures r.Ok? ==> gathered.Ok? && secretKey(gathered.value.pinned.totalKernelOffset).Some?
    ensures r.Ok? ==> r.value.lhs == r.value.rhs
  {
    match gathered
    case Err(e) => Err(e)
    case Ok(s) =>
      Evaluate(s.pinned, CommitSum(s.utxos, []), |s.utxos|, CommitSum(s.excesses, []), |s.excesses|, secretKey, overage)
  }

  /**
   * One run of the audit. `pathExists` answers `Path::exists`, `secretKey`
   * answers `SecretKey::from_slice` (None when the library rejects the bytes)
   * and `overage` is `calc_mwc_block_overage(height, true)`.
   */
  function Audit(
    chainPath: string, pathExists: string -> bool, c: ChainData,
    secretKey: seq<bv8> -> Option<int>, overage: nat -> nat): (r: Result<Report, SupplyError>)
    requires Descending(c)
    ensures !pathExists(chainPath) ==> r == Err(ChainDataNotFound(chainPath))
    ensures r.Ok? ==> AllReadsSucceed(chainPath, pathExists, c, secretKey)
    ensures r.Ok? ==> r.value.lhs == r.value.rhs
  {
    Finish(Gather(chainPath, pathExists, c), secretKey, overage)
  }

  /** The progress lines a run prints: those of the kernel walk, once it is reached. */
  function AuditProgress(chainPath: string, pathExists: string -> bool, c: ChainData): (r: seq<nat>)
    requires Descending(c)
    ensures !WalkReached(chainPath, pathExists, c) ==> r == []
    ensures forall x :: x in r ==> c.head.Some? && ReportsProgress(x) && x <= c.head.value.height
  {
    if WalkReached(chainPath, pathExists, c) then
      ProgressBounded(c, c.head.value);
      ProgressHeights(Trace(c, c.head.value).visited)
    else []
  }

  /** `verify_supply`: the audit as the sequence of steps the tool performs. */
  method VerifySupply(
    chainPath: string, pathExists: string -> bool, c: ChainData,
    secretKey: seq<bv8> -> Option<int>, overage: nat -> nat)
    returns (r: Result<Report, SupplyError>, progress: seq<nat>)
    requires Descending(c)
    ensures r == Audit(chainPath, pathExists, c, secretKey, overage)
    ensures progress == AuditProgress(chainPath, pathExists, c)
  {
    progress := [];
    if !pathExists(chainPath) {
      r := Err(ChainDataNotFound(chainPath));
      return;
    }
    if !c.storeOpens {
      r := Err(StoreOpenFailed);
      return;
    }
    if c.head.None? {
      r := Err(HeadUnreadable);
      return;
    }
    var pinned := c.head.value;
    var tipHeight := pinned.height;
    if !c.txHashSetOpens {
      r := Err(TxHashSetOpenFailed);
      return;
    }

    // Step 1: sum all UTXO commitments (left-hand side).
    var utxoCommits, utxoCount := CollectUtxos(c.outputLeaves);
    var lhsCommit := CommitSum(utxoCommits, []);

    // Step 2: sum all kernel excesses, walking from the tip to genesis.
    var walked;
    walked, progress := CollectKernelExcesses(c, pinned);
    if walked.Err? {
      r := Err(walked.error);
      return;
    }
    var sumExcessesCommit := CommitSum(walked.value.excessCommits, []);

    // Step 3: offset and reward commitments.
    var offsetSk := secretKey(pinned.totalKernelOffset);
    if offsetSk.None? {
      r := Err(InvalidOffset);
      return;
    }
    var offsetCommit := Commit(0, offsetSk.value);
    var totalReward := overage(tipHeight);
    var rewardCommit := CommitValue(totalReward);

    // Step 4: right-hand side and verdict.
    var rhsCommit := CommitSum([sumExcessesCommit, offsetCommit, rewardCommit], []);
    if lhsCommit == rhsCommit {
      r := Ok(Report(tipHeight, utxoCount, walked.value.collectedKernels, totalReward, lhsCommit, rhsCommit));
    } else {
      r := Err(SupplyMismatch(lhsCommit, rhsCommit));
    }
  }

  /** The right-hand side opens to the excess totals plus the reward value and the offset blinding. */
  lemma {:induction false} SupplyRhsOpens(excesses: seq<Commitment>, offset: int, reward: nat)
    ensures SupplyRhs(CommitSum(excesses, []), offset, reward)
      == Commit(TotalValue(excesses) + reward, TotalBlinding(excesses) + offset)
  {
    CommitSumOpens(excesses);
  }

  /**
   * The supply equation on commitments holds exactly when it holds of the
   * committed amounts and of the blinding factors separately.
   */
  lemma {:induction false} SupplyEquationOpens(utxos: seq<Commitment>, excesses: seq<Commitment>, offset: int, reward: nat)
    ensures CommitSum(utxos, []) == SupplyRhs(CommitSum(excesses, []), offset, reward)
      <==> TotalValue(utxos) == TotalValue(excesses) + reward && TotalBlinding(utxos) == TotalBlinding(excesses) + offset
  {
    CommitSumOpens(utxos);
    SupplyRhsOpens(excesses, offset, reward);
    CommitInjective(CommitSum(utxos, []), SupplyRhs(CommitSum(excesses, []), offset, reward),
      TotalValue(utxos), TotalBlinding(utxos), TotalValue(excesses) + reward, TotalBlinding(excesses) + offset);
  }

  /**
   * Once the offset parses, finishing a snapshot passes exactly when the
   * supply identity holds of the committed amounts: the UTXO values add up to
   * the excess values plus the reward, and the UTXO blindings add up to the
   * excess blindings plus the kernel offset. The report then counts every
   * UTXO and kernel; otherwise the run fails with both sides.
   */
  lemma {:induction false} FinishVerdict(s: Snapshot, secretKey: seq<bv8> -> Option<int>, overage: nat -> nat)
    requires secretKey(s.pinned.totalKernelOffset).Some?
    ensures var offset, reward := secretKey(s.pinned.totalKernelOffset).value, overage(s.pinned.height);
      var lhs, rhs := CommitSum(s.utxos, []), SupplyRhs(CommitSum(s.excesses, []), offset, reward);
      var r := Finish(Ok(s), secretKey, overage);
      && (r.Ok? <==>
            && TotalValue(s.utxos) == TotalValue(s.excesses) + reward
            && TotalBlinding(s.utxos) == TotalBlinding(s.excesses) + offset)
      && (r.Ok? ==> r.value == Report(s.pinned.height, |s.utxos|, |s.excesses|, reward, lhs, rhs))
      && (r.Err? ==> r.error == SupplyMismatch(lhs, rhs))
  {
    var offset, reward := secretKey(s.pinned.totalKernelOffset).value, overage(s.pinned.height);
    var lhs, excessSum := CommitSum(s.utxos, []), CommitSum(s.excesses, []);
    assert Finish(Ok(s), secretKey, overage) == Evaluate(s.pinned, lhs, |s.utxos|, excessSum, |s.excesses|, secretKey, overage);
    CommitSumOpens(s.utxos);
    CommitSumOpens(s.excesses);
    assert lhs.value == TotalValue(s.utxos) && lhs.blinding == TotalBlinding(s.utxos);
    assert excessSum.value == TotalValue(s.excesses) && excessSum.blinding == TotalBlinding(s.excesses);
    assert SupplyRhs(excessSum, offset, reward) == Commit(excessSum.value + reward, excessSum.blinding + offset);
  }

  /**
   * When every read succeeds, the audit passes exactly when the supply
   * identity holds of the committed amounts of the collected UTXOs and of the
   * kernel excesses from tip to genesis; see `FinishVerdict`.
   */
  lemma {:induction false} AuditVerdict(
    chainPath: string, pathExists: string -> bool, c: ChainData,
    secretKey: seq<bv8> -> Option<int>, overage: nat -> nat)
    requires Descending(c) && AllReadsSucceed(chainPath, pathExists, c, secretKey)
    ensures var pinned := c.head.value;
      var utxos, excesses := Present(c.outputLeaves), Trace(c, pinned).excesses;
      var offset, reward := secretKey(pinned.totalKernelOffset).value, overage(pinned.height);
      var lhs, rhs := CommitSum(utxos, []), SupplyRhs(CommitSum(excesses, []), offset, reward);
      var r := Audit(chainPath, pathExists, c, secretKey, overage);
      && (r.Ok? <==>
            && TotalValue(utxos) == TotalValue(excesses) + reward
            && TotalBlinding(utxos) == TotalBlinding(excesses) + offset)
      && (r.Ok? ==> r.value == Report(pinned.height, |utxos|, |excesses|, reward, lhs, rhs))
      && (r.Err? ==> r.error == SupplyMismatch(lhs, rhs))
  {
    var s := Snapshot(c.head.value, Present(c.outputLeaves), Trace(c, c.head.value).excesses);
    assert Gather(chainPath, pathExists, c) == Ok(s);
    FinishVerdict(s, secretKey, overage);
  }

  /** The walk depends only on the store's blocks and headers. */
  lemma {:induction false} TraceSameStore(c: ChainData, d: ChainData, h: Header)
    requires c.head == d.head && c.blocks == d.blocks && c.headers == d.headers
    requires Descending(c) && ParentBelow(c, h)
    ensures Descending(d) && ParentBelow(d, h)
    ensures Trace(c, h) == Trace(d, h)
    decreases h.height
  {
    assert GetBlock(c, h) == GetBlock(d, h) && GetPreviousHeader(c, h) == GetPreviousHeader(d, h);
    if GetBlock(c, h).Some? && h.height > 0 && GetPreviousHeader(c, h).Some? {
      TraceSameStore(c, d, GetPreviousHeader(c, h).value);
    }
  }

  /**
   * A failed walk on a well-linked store aborts the run with a missing-block
   * or missing-header error naming tip − |visited| (the tip itself when its
   * own block is missing); every height above it was processed once. No
   * verdict is produced.
   */
  lemma {:induction false} AuditWalkFailure(
    chainPath: string, pathExists: string -> bool, c: ChainData,
    secretKey: seq<bv8> -> Option<int>, overage: nat -> nat)
    requires Linked(c) && WalkReached(chainPath, pathExists, c)
    requires Descending(c) && Trace(c, c.head.value).failure.Some?
    ensures var pinned := c.head.value;
      var t := Trace(c, pinned);
      var n := pinned.height - |t.visited|;
      && |t.visited| <= pinned.height
      && (forall i :: 0 <= i < |t.visited| ==> t.visited[i].height == pinned.height - i)
      && Audit(chainPath, pathExists, c, secretKey, overage) in {Err(BlockNotFound(n)), Err(HeaderNotFound(n))}
  {
    TraceCoversHeights(c, c.head.value);
  }

  /**
   * A block missing anywhere between the tip and genesis makes the run fail
   * with a missing-block or missing-header error at or above that height,
   * rather than produce a verdict from a partial sum.
   */
  lemma {:induction false} AuditMissingBlock(
    chainPath: string, pathExists: string -> bool, c: ChainData,
    secretKey: seq<bv8> -> Option<int>, overage: nat -> nat, k: nat)
    requires Linked(c) && WalkReached(chainPath, pathExists, c)
    requires k <= c.head.value.height
    requires AncestorAt(c, c.head.value, k).Some? && GetBlock(c, AncestorAt(c, c.head.value, k).value).None?
    ensures Descending(c)
    ensures var r := Audit(chainPath, pathExists, c, secretKey, overage);
      && r.Err? && (r.error.BlockNotFound? || r.error.HeaderNotFound?)
      && r.error.height >= c.head.value.height - k
  {
    var pinned := c.head.value;
    TraceMatchesAncestors(c, pinned);
    TraceDescends(c, pinned);
    TraceCoversHeights(c, pinned);
    var t := Trace(c, pinned);
    assert !AncestorsStored(c, pinned) by {
      assert !(AncestorAt(c, pinned, k).Some? && GetBlock(c, AncestorAt(c, pinned, k).value).Some?);
    }
    assert |t.visited| <= k;
  }

  /** A passing evaluation fails once a non-trivial commitment is added to its left side. */
  lemma {:induction false} EvaluateDetectsExtra(
    pinned: Header, lhs: Commitment, utxoCount: nat, grownCount: nat, excessSum: Commitment, collectedKernels: nat,
    secretKey: seq<bv8> -> Option<int>, overage: nat -> nat, extra: Commitment)
    requires Evaluate(pinned, lhs, utxoCount, excessSum, collectedKernels, secretKey, overage).Ok?
    requires extra != Identity
    ensures var rhs := Evaluate(pinned, lhs, utxoCount, excessSum, collectedKernels, secretKey, overage).value.rhs;
      Evaluate(pinned, Add(extra, lhs), grownCount, excessSum, collectedKernels, secretKey, overage)
        == Err(SupplyMismatch(Add(extra, lhs), rhs))
  {
  }

  /**
   * Tampering: an extra unspent output with a non-trivial commitment, inserted
   * anywhere into the output index of a chain that passed, makes the run fail
   * with a mismatch whose left side has grown by exactly that commitment.
   */
  lemma {:induction false} AuditDetectsExtraOutput(
    chainPath: string, pathExists: string -> bool, c: ChainData,
    secretKey: seq<bv8> -> Option<int>, overage: nat -> nat, i: nat, o: OutputIdentifier)
    requires Descending(c) && Audit(chainPath, pathExists, c, secretKey, overage).Ok?
    requires i <= |c.outputLeaves| && o.commit != Identity
    ensures var leaves := c.outputLeaves[..i] + [Some(o)] + c.outputLeaves[i..];
      var d := c.(outputLeaves := leaves);
      var report := Audit(chainPath, pathExists, c, secretKey, overage).value;
      && Descending(d)
      && Audit(chainPath, pathExists, d, secretKey, overage) == Err(SupplyMismatch(Add(o.commit, report.lhs), report.rhs))
  {
    var leaves := c.outputLeaves[..i] + [Some(o)] + c.outputLeaves[i..];
    var d := c.(outputLeaves := leaves);
    var pinned := c.head.value;
    var excesses := Trace(c, pinned).excesses;
    TraceSameStore(c, d, pinned);
    assert Gather(chainPath, pathExists, c) == Ok(Snapshot(pinned, Present(c.outputLeaves), excesses));
    assert Gather(chainPath, pathExists, d) == Ok(Snapshot(pinned, Present(leaves), excesses));
    var lhs, grown, excessSum := CommitSum(Present(c.outputLeaves), []), CommitSum(Present(leaves), []), CommitSum(excesses, []);
    assert grown == Add(o.commit, lhs) by {
      PresentSumWithExtra(c.outputLeaves, i, o);
    }
    EvaluateDetectsExtra(pinned, lhs, |Present(c.outputLeaves)|, |Present(leaves)|, excessSum, |excesses|, secretKey, overage, o.commit);
  }

  /**
   * The order in which the output index yields its leaves does not change the
   * outcome of the run.
   */
  lemma {:induction false} AuditIgnoresLeafOrder(
    chainPath: string, pathExists: string -> bool, c: ChainData,
    secretKey: seq<bv8> -> Option<int>, overage: nat -> nat, leaves: seq<Option<OutputIdentifier>>)
    requires Descending(c) && multiset(leaves) == multiset(c.outputLeaves)
    ensures Descending(c.(outputLeaves := leaves))
    ensures Audit(chainPath, pathExists, c.(outputLeaves := leaves), secretKey, overage)
      == Audit(chainPath, pathExists, c, secretKey, overage)
  {
    var d := c.(outputLeaves := leaves);
    if d.head.Some? {
      TraceSameStore(c, d, c.head.value);
    }
    PresentPermutation(leaves, c.outputLeaves);
    SumPermutation(Present(leaves), Present(c.outputLeaves));
    assert |Present(leaves)| == |multiset(Present(leaves))| == |Present(c.outputLeaves)|;
  }
}
