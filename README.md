# mwc-supply-verifier, modelled in Dafny

The tool audits the MWC coin supply by checking the Mimblewimble supply
equation on a fully synced node's chain data:

    Σ UTXO commitments == Σ kernel excesses + offset·G + reward·H

One run does the following:

1. It expands a leading `~/` in the chain path.
2. It checks that the path exists, opens the chain store, and reads the tip
   ("pinned" header).
3. It opens the output index and collects the commitment of every unspent
   output at the tip (left-hand side).
4. It walks from the tip down to genesis, block by block, and collects every
   kernel excess. It prints a progress line at each positive multiple of
   100000. It aborts on the first missing block or parent header, naming the
   height.
5. It turns the tip's total kernel offset into a commitment to zero. It
   turns the total block reward up to the tip into a commitment with zero
   blinding.
6. It compares the two sides.

Files:

- `commitments.dfy` holds Pedersen commitments as an abstract commutative
  group of (value, blinding) pairs. It defines the `commit_sum`, `commit` and
  `commit_value` operations, and the lemmas relating a sum to the total value
  and total blinding it opens to.
- `paths.dfy` holds `expand_tilde`.
- `chain.dfy` holds the chain store and the output index as data: the head,
  blocks and headers by hash, the output leaves, and whether the store and
  the output index open. It also holds the error kinds of a run.
- `utxo.dfy` holds the UTXO collection loop (`CollectUtxos`), proved against
  the function `Present`.
- `kernel_walk.dfy` holds the kernel-excess loop (`CollectKernelExcesses`).
  It is proved against the recursive function `Trace`. The lemmas cover
  where the walk goes, what it collects, where it fails, and which progress
  lines it prints.
- `supply.dfy` holds the whole run. `Audit` is its specification (`Gather`
  does the reads and `Finish` does the equation). `VerifySupply` is the
  step-by-step method. The lemmas state when the run passes, what it
  reports, and which tampering it detects.
- `outcomes.dfy` holds `Option` and `Result`.

The library calls the tool relies on are parameters of the model:

- `pathExists` stands for `Path::exists`.
- `secretKey` stands for `SecretKey::from_slice`; it gives None when the
  library rejects the offset bytes.
- `overage` stands for `calc_mwc_block_overage(height, true)`.

## Model

| member | source | states |
|---|---|---|
| Paths.ExpandTilde | src/main.rs:40-47 | with a `~/` prefix and HOME set, the result is HOME followed by the path without its `~`; otherwise the path is returned unchanged |
| Paths.ExpandKeepsSlash | src/main.rs:41-43 | an expanded path is HOME, then the `/` of the shorthand, then the rest of the path |
| Paths.ExpandLeavesOthers | src/main.rs:41-46 | an unset HOME, a bare `~` or a `~user/` path is left as it is |
| Paths.DefaultPathExpands | src/main.rs:36-47 | the default `--chain-path` expands to HOME + `/.mwc/main/chain_data` |
| Commitments.SumAppend | src/main.rs:113 | summing a concatenation adds the two sums |
| Commitments.SumOpens | src/main.rs:113 | a sum of commitments commits to the total value under the total blinding |
| Commitments.CommitSumOpens | src/main.rs:155 | `commit_sum(cs, [])` opens to the total value and total blinding of `cs` |
| Commitments.CommitInjective | src/main.rs:189 | two commitments are equal exactly when their values and their blindings are |
| Commitments.SumOfThree | src/main.rs:177-180 | the right-hand side's three-term `commit_sum` is the group sum of the three terms |
| Commitments.CommitHomomorphic | src/main.rs:177-180 | commit(a, r) + commit(b, s) == commit(a + b, r + s) |
| Commitments.SumRemove | src/main.rs:113 | taking one element out of a list takes exactly that element out of its sum |
| Commitments.SumPermutation | src/main.rs:113 | the sum does not depend on the order of the list |
| Utxo.Present | src/main.rs:103-109 | the collection has no more commitments than there are leaves |
| Utxo.CollectUtxos | src/main.rs:100-109 | the loop collects exactly `Present(leaves)`, and its counter equals the number collected |
| Utxo.PresentAppend | src/main.rs:103-109 | collection keeps the leaf order: collecting a concatenation concatenates the collections |
| Utxo.PresentMembers | src/main.rs:103-108 | a commitment is collected exactly when some leaf holds it |
| Utxo.PresentAll | src/main.rs:103-108 | every leaf contributes exactly when no leaf is empty |
| Utxo.PresentRemove | src/main.rs:103-109 | removing one leaf removes exactly its commitment, if any, from the collection |
| Utxo.PresentPermutation | src/main.rs:103-109 | reordering the leaves reorders the collection and changes nothing else |
| Utxo.PresentInsert | src/main.rs:103-109 | an output inserted at any position is collected at that position, between the same neighbours |
| Utxo.PresentSumWithExtra | src/main.rs:103-113 | an inserted output adds exactly its commitment to the left-hand side |
| KernelWalk.ReportsProgress | src/main.rs:136 | a height is reported exactly when it is m·100000 for some m > 0 |
| KernelWalk.ProgressHeights | src/main.rs:136-138 | there are no more progress lines than visited headers, and every line names a height that passes the progress test |
| KernelWalk.ProgressReported | src/main.rs:136-138 | a height is reported exactly when it was visited and is a positive multiple of 100000 |
| KernelWalk.ExtendTwice | src/main.rs:131-134 | excesses collected in two stretches are those of the first followed by those of the second |
| KernelWalk.PushExcesses | src/main.rs:131-134 | the inner loop appends every kernel excess of the block in kernel order, and its counter stays equal to the collection's length |
| KernelWalk.Trace | src/main.rs:121-151 | the walk from a header starts there, visits at most height + 1 headers, ends at height 0 when nothing fails, and fails only on a missing block or parent header |
| KernelWalk.CollectKernelExcesses | src/main.rs:118-151 | the loop succeeds exactly when the walk has no error, and then returns every excess from tip to genesis with its count; on the first missing block or header it returns that error and discards the excesses collected so far (the `?` at 123-150); it prints exactly the progress lines of the headers it visited |
| KernelWalk.WalkStop | src/main.rs:123-129 | a missing block ends the walk with an error naming that block's height, keeping what was collected |
| KernelWalk.WalkStep | src/main.rs:131-150 | after a found block, the walk stops at height 0, fails on a missing parent with height − 1, or goes on from the lower parent |
| KernelWalk.TraceParent | src/main.rs:140-150 | below a header whose block is found and whose parent is stored, the walk continues from the lower parent with the same outcome |
| KernelWalk.ProgressCons | src/main.rs:136-138 | a header in front of a stretch of the walk adds its progress line, if any, in front |
| KernelWalk.ProgressStep | src/main.rs:136-138 | visiting one more header appends its height to the progress lines exactly when that height reports progress |
| KernelWalk.ProgressBounded | src/main.rs:136-138 | every progress line of a walk names a positive multiple of 100000 no higher than where the walk started |
| KernelWalk.ProgressAppend | src/main.rs:136-138 | the progress lines of two stretches are those of each, in order |
| KernelWalk.TraceDescends | src/main.rs:121-151 | heights strictly decrease along the walk, and every visited block was found |
| KernelWalk.TraceExcesses | src/main.rs:131-134 | the collected excesses are those of the visited blocks, block after block |
| KernelWalk.TraceCoversHeights | src/main.rs:121-151 | on a well-linked store the walk visits tip, tip−1, … in order; without error it covers tip..0 once each; an error names the first height it could not reach, never one below zero |
| KernelWalk.TraceMatchesAncestors | src/main.rs:121-151 | on a well-linked store the walk visits exactly the tip's ancestors, and it succeeds exactly when every ancestor and its block are stored |
| KernelWalk.MilestoneStep | src/main.rs:136-138 | one step down adds a progress line exactly at a positive multiple of 100000 |
| KernelWalk.ProgressOfCompleteWalk | src/main.rs:136-142 | a complete walk reports every positive multiple of 100000 up to the tip, from highest to lowest, and nothing else |
| Supply.SupplyRhs | src/main.rs:177-180 | the right-hand side commits to the excess value plus the reward, under the excess blinding plus the offset |
| Supply.Evaluate | src/main.rs:160-206 | an offset the key parser rejects fails with an invalid-offset error; otherwise it passes exactly when the left side equals the commitment to excess value + reward under excess blinding + offset, reporting the tip height, both counts, the reward and both sides, and fails with a mismatch carrying both sides |
| Supply.Gather | src/main.rs:67-153 | a missing path fails first, naming the path; the reads succeed exactly when the path exists, the store, head and output index open, and the walk has no error; the result is the tip, the collected UTXOs and the walk's excesses |
| Supply.Finish | src/main.rs:155-206 | a failed read is passed on unchanged; a pass needs a valid offset and has equal sides |
| Supply.Audit | src/main.rs:62-206 | a missing path fails first; a pass needs every read to succeed and has equal sides |
| Supply.AuditProgress | src/main.rs:136-137 | nothing is printed before the walk is reached; every printed height is a positive multiple of 100000 no higher than the tip |
| Supply.VerifySupply | src/main.rs:62-206 | the step-by-step run has exactly the outcome of `Audit` and prints exactly its progress lines |
| Supply.SupplyRhsOpens | src/main.rs:160-180 | the right-hand side opens to the excess value total plus the reward, under the excess blinding total plus the offset |
| Supply.SupplyEquationOpens | src/main.rs:177-189 | the equation on commitments holds exactly when it holds for the values and, separately, for the blindings |
| Supply.FinishVerdict | src/main.rs:155-206 | with a valid offset, a run passes exactly when UTXO values = excess values + reward and UTXO blindings = excess blindings + offset; the report counts every UTXO and kernel |
| Supply.AuditVerdict | src/main.rs:100-206 | when every read succeeds, the audit passes exactly when the supply identity holds for the collected UTXOs and the excesses from tip to genesis |
| Supply.TraceSameStore | src/main.rs:121-151 | the walk depends only on the store's head, blocks and headers |
| Supply.AuditWalkFailure | src/main.rs:122-151 | on a well-linked store a failed walk aborts the run with a missing-block or missing-header error naming tip − |visited| (the tip itself when its own block is missing); every height above it was processed once |
| Supply.AuditMissingBlock | src/main.rs:123-150 | a block missing anywhere between tip and genesis makes the run fail with a missing-block or missing-header error at or above that height |
| Supply.EvaluateDetectsExtra | src/main.rs:189-206 | a passing evaluation fails once a non-trivial commitment is added to the left side |
| Supply.AuditDetectsExtraOutput | src/main.rs:100-206 | an extra non-trivial output inserted anywhere into a passing chain's output index makes the run fail with a mismatch whose left side grew by exactly that commitment |
| Supply.AuditIgnoresLeafOrder | src/main.rs:103-113 | the order of the output leaves does not change the run's outcome |

## Left out

- Elliptic-curve arithmetic is left out. A commitment is a (value, blinding)
  pair of unbounded integers, added componentwise: the group ℤ×ℤ, not the
  curve's cyclic group of prime order n. The model therefore assumes a
  perfectly binding commitment and no reduction modulo n. On the curve,
  `lhs == rhs` is a single congruence modulo n. In the model it is two
  exact integer equations, one for values and one for blindings. For
  example, blinding sums that agree only modulo n pass in the tool but fail
  in the model.
- Commitments.CommitInjective, Supply.SupplyEquationOpens,
  Supply.FinishVerdict and Supply.AuditVerdict state the split into a value
  equation and a blinding equation. That split holds in the model's group
  only, and these four members rest on the assumption above.
- `commit_sum`, `commit` and `commit_value` are total in the model. The
  library's failures (for example, a sum that is the point at infinity) are
  not modelled, so the `?` on lines 113, 155, 162, 171 and 177-180 never
  fires.
- `SecretKey::from_slice`, `calc_mwc_block_overage` and `Path::exists` are
  parameters. The reward schedule and the key-validity rule belong to
  external crates and are not part of this model.
- The storage engine is left out. Opening the chain store and the output
  index (`ChainStore::new`, `TxHashSet::open`) are boolean flags, and the
  chain itself is a map from hash to block and header. Hashes are opaque
  numbers; hashing a header is not modelled.
- `output_pmmr_at(&pinned)` is left out. The leaves at the tip are given
  directly, and the MMR structure behind `leaf_pos_iter` is not modelled.
- Trace (KernelWalk.Trace): its own contract only bounds the number of
  visited headers by height + 1. That heights strictly decrease along the
  walk, so that no height is visited twice, is proved separately in
  `TraceDescends`. Stating it on `Trace` itself made every proof about the
  walk loop too costly.
- KernelWalk.CollectKernelExcesses requires `Descending`: for the head and
  for every stored header above height 0, a stored parent must be strictly
  lower. The recursive specification needs this as a termination measure.
  The requirement constrains every stored header, including headers the
  walk never reaches. It also excludes stores where some parent is not
  lower, yet the walk still reaches height 0 and the tool terminates.
  Stores with cyclic parent links are not excluded as such. A cycle through
  a height-0 header satisfies `Descending`, is modelled, and the walk stops
  at that header, as the tool does at src/main.rs:140-141. Nothing at
  src/main.rs:121-151 checks that a parent is lower. So a walk that reaches
  a cycle of headers above height 0, all with stored blocks, loops forever
  in the tool, and `Descending` excludes every such store.
- Supply.Audit requires the same descending heights, for the same reason.
  So do Supply.Gather, Supply.AuditProgress and Supply.VerifySupply.
- Integer widths (`usize` counters, `u64` heights and rewards) are unbounded
  in the model. The counters cannot overflow on any real chain, and the one
  subtraction, `walk.height - 1`, is only reached when the height is above
  zero (stated in `TraceCoversHeights`).
- Printing is modelled only for the progress lines, as the list of reported
  heights. The banner, the other `println!` output, the hex display of both
  sides and the f64 display of the reward are left out.
- Paths.ExpandTilde takes HOME as an already converted string. The tool
  reads HOME as an OS string and converts it with `to_string_lossy()`,
  which turns bytes that are not valid UTF-8 into U+FFFD. That conversion
  is not modelled.
- Command-line parsing (clap) and the global chain-type setting are left
  out. Only the default path value is used, in `DefaultPathExpands`.
- The error messages' wording is left out. Each error is a constructor that
  carries the height or the values the message shows.
