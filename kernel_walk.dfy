/**
 * Step 2 of the audit: walking from the pinned tip down to genesis, fetching
 * each block and collecting the excess of every kernel in it.
 *
 * The walk is a loop with two ways out: it stops after processing height 0,
 * and it aborts on the first block or parent header that cannot be found,
 * naming the height that failed.
 */
module KernelWalk {
  import opened Outcomes
  import opened Commitments
  import opened Chain

  /** Progress is reported at positive multiples of this height. */
  const ProgressInterval: nat := 100000

  /** The m-th progress height, m·100000. */
  function Milestone(m: nat): nat {
    m * ProgressInterval
  }

  /** `walk.height % 100_000 == 0 && walk.height > 0`: the height is a positive multiple of the interval. */
  predicate ReportsProgress(height: nat): (r: bool)
    ensures r <==> exists m: nat :: 0 < m && height == Milestone(m)
  {
    assert height == Milestone(height / ProgressInterval) + height % ProgressInterval;
    height % ProgressInterval == 0 && height > 0
  }

  /**
   * What the walk from a header does: the headers whose blocks were fetched,
   * in visit order, the kernel excesses collected from them, and the error
   * that ended it, if any.
   */
  datatype WalkTrace = WalkTrace(visited: seq<Header>, excesses: seq<Commitment>, failure: Option<SupplyError>)

  /** The kernel excesses collected by the walk, with their count. */
  datatype KernelTotals = KernelTotals(excessCommits: seq<Commitment>, collectedKernels: nat)

  /** The excess of each kernel of a block, in kernel order. */
  function Excesses(kernels: seq<TxKernel>): seq<Commitment> {
    seq(|kernels|, i requires 0 <= i < |kernels| => kernels[i].excess)
  }

  /** A trace preceded by already visited headers and already collected excesses. */
  function Extend(visited: seq<Header>, excesses: seq<Commitment>, t: WalkTrace): WalkTrace {
    WalkTrace(visited + t.visited, excesses + t.excesses, t.failure)
  }

  /** The end of a walk: nothing more visited, with or without an error. */
  function Stopped(failure: Option<SupplyError>): WalkTrace {
    WalkTrace([], [], failure)
  }

  /** Extending twice is extending once by both prefixes. */
  lemma {:induction false} ExtendTwice(v: seq<Header>, e: seq<Commitment>, h: Header, ex: seq<Commitment>, t: WalkTrace)
    ensures Extend(v, e, Extend([h], ex, t)) == Extend(v + [h], e + ex, t)
  {
    assert v + ([h] + t.visited) == v + [h] + t.visited;
    assert e + (ex + t.excesses) == e + ex + t.excesses;
  }

  /**
   * The walk from `h` as a recursive specification; it terminates because
   * heights descend. It starts at `h`, visits at most height + 1 headers,
   * ends at genesis when nothing fails, and fails only on a missing block or
   * a missing parent header. `TraceDescends` proves that heights strictly
   * decrease along it.
   */
  function Trace(c: ChainData, h: Header): (r: WalkTrace)
    requires Descending(c) && ParentBelow(c, h)
    ensures r.visited != [] ==> r.visited[0] == h
    ensures |r.visited| <= h.height + 1
    ensures r.failure.None? ==> r.visited != [] && r.visited[|r.visited| - 1].height == 0
    ensures r.failure.Some? ==> r.failure.value.BlockNotFound? || r.failure.value.HeaderNotFound?
    decreases h.height
  {
    match GetBlock(c, h)
    case None => Stopped(Some(BlockNotFound(h.height)))
    case Some(block) =>
      var ex := Excesses(block.kernels);
      if h.height == 0 then Extend([h], ex, Stopped(None))
      else match GetPreviousHeader(c, h)
        case None => Extend([h], ex, Stopped(Some(HeaderNotFound(h.height - 1))))
        case Some(parent) => Extend([h], ex, Trace(c, parent))
  }

  /** The progress line, if any, printed for one visited height. */
  function ProgressLine(height: nat): seq<nat> {
    if ReportsProgress(height) then [height] else []
  }

  /** The heights for which a progress line is printed, in visit order. */
  function ProgressHeights(visited: seq<Header>): (r: seq<nat>)
    ensures |r| <= |visited|
    ensures forall k :: 0 <= k < |r| ==> ReportsProgress(r[k])
  {
    if |visited| == 0 then [] else ProgressLine(visited[0].height) + ProgressHeights(visited[1..])
  }

  /** A height is reported exactly when it was visited and is a positive multiple of the interval. */
  lemma {:induction false} ProgressReported(visited: seq<Header>, x: nat)
    ensures x in ProgressHeights(visited) <==> ReportsProgress(x) && exists i :: 0 <= i < |visited| && visited[i].height == x
  {
    if |visited| > 0 {
      ProgressReported(visited[1..], x);
      if exists i :: 0 <= i < |visited[1..]| && visited[1..][i].height == x {
        var i :| 0 <= i < |visited[1..]| && visited[1..][i].height == x;
        assert visited[i + 1].height == x;
      }
      if exists i :: 0 <= i < |visited| && visited[i].height == x {
        var i :| 0 <= i < |visited| && visited[i].height == x;
        if i > 0 {
          assert visited[1..][i - 1].height == x;
        }
      }
    }
  }

  /** The kernel excesses of the block of `h`, none when it is not stored. */
  function StoredExcesses(c: ChainData, h: Header): seq<Commitment> {
    match GetBlock(c, h)
    case Some(b) => Excesses(b.kernels)
    case None => []
  }

  /** The kernel excesses of the stored blocks of `visited`, concatenated in order. */
  function BlockExcesses(c: ChainData, visited: seq<Header>): seq<Commitment> {
    if |visited| == 0 then [] else StoredExcesses(c, visited[0]) + BlockExcesses(c, visited[1..])
  }

  /** Every ancestor of `h` down to genesis is stored, and so is its block. */
  predicate AncestorsStored(c: ChainData, h: Header) {
    forall n :: 0 <= n <= h.height ==> AncestorAt(c, h, n).Some? && GetBlock(c, AncestorAt(c, h, n).value).Some?
  }

  /** The descending multiples m·100000, ..., 100000. */
  function Milestones(m: nat): seq<nat> {
    if m == 0 then [] else [Milestone(m)] + Milestones(m - 1)
  }

  /** The inner loop over one block's kernels: push each excess and count it. */
  method PushExcesses(commits: seq<Commitment>, count: nat, kernels: seq<TxKernel>)
    returns (commits': seq<Commitment>, count': nat)
    requires count == |commits|
    ensures commits' == commits + Excesses(kernels)
    ensures count' == |commits'|
  {
    commits', count' := commits, count;
    for i := 0 to |kernels|
      invariant commits' == commits + Excesses(kernels[..i])
      invariant count' == |commits'|
    {
      assert Excesses(kernels[..i + 1]) == Excesses(kernels[..i]) + [kernels[i].excess];
      commits' := commits' + [kernels[i].excess];
      count' := count' + 1;
    }
    assert kernels[..|kernels|] == kernels;
  }

  /**
   * The kernel-excess loop. It starts at the pinned tip, fetches each block,
   * pushes every kernel excess and counts it, reports progress, stops after
   * height 0 and otherwise moves to the parent header.
   */
  method CollectKernelExcesses(c: ChainData, pinned: Header) returns (r: Result<KernelTotals, SupplyError>, progress: seq<nat>)
    requires Descending(c) && ParentBelow(c, pinned)
    ensures r.Ok? <==> Trace(c, pinned).failure.None?
    ensures r.Err? ==> r.error == Trace(c, pinned).failure.value
    ensures r.Ok? ==> r.value == KernelTotals(Trace(c, pinned).excesses, |Trace(c, pinned).excesses|)
    ensures progress == ProgressHeights(Trace(c, pinned).visited)
  {
    var kernelExcessCommits: seq<Commitment> := [];
    var collectedKernels: nat := 0;
    progress := [];
    ghost var visited: seq<Header> := [];
    var walk := pinned;
    while true
      invariant ParentBelow(c, walk)
      invariant Trace(c, pinned) == Extend(visited, kernelExcessCommits, Trace(c, walk))
      invariant collectedKernels == |kernelExcessCommits|
      invariant progress == ProgressHeights(visited)
      decreases walk.height
    {
      var block := GetBlock(c, walk);
      if block.None? {
        WalkStop(c, pinned, walk, visited, kernelExcessCommits);
        r := Err(BlockNotFound(walk.height));
        return;
      }
      ghost var before := kernelExcessCommits;
      var kernels := block.value.kernels;
      kernelExcessCommits, collectedKernels := PushExcesses(kernelExcessCommits, collectedKernels, kernels);
      WalkStep(c, pinned, walk, visited, before);

      ProgressStep(visited, walk);
      if ReportsProgress(walk.height) {
        progress := progress + [walk.height];
      }
      visited := visited + [walk];

      if walk.height == 0 {
        break;
      }

      var parent := GetPreviousHeader(c, walk);
      if parent.None? {
        r := Err(HeaderNotFound(walk.height - 1));
        return;
      }
      walk := parent.value;
    }
    r := Ok(KernelTotals(kernelExcessCommits, collectedKernels));
  }

  /** A walk that reaches a header whose block is missing stops there with that error. */
  lemma {:induction false} WalkStop(c: ChainData, pinned: Header, walk: Header, visited: seq<Header>, commits: seq<Commitment>)
    requires Descending(c) && ParentBelow(c, pinned) && ParentBelow(c, walk)
    requires Trace(c, pinned) == Extend(visited, commits, Trace(c, walk))
    requires GetBlock(c, walk).None?
    ensures Trace(c, pinned) == WalkTrace(visited, commits, Some(BlockNotFound(walk.height)))
  {
    assert Trace(c, walk) == Stopped(Some(BlockNotFound(walk.height)));
    assert visited + [] == visited && commits + [] == commits;
  }

  /**
   * One step of the walk: once the block of `walk` is found, its excesses
   * follow those already collected, and the walk stops at genesis, stops at
   * a missing parent, or goes on from the parent.
   */
  lemma {:induction false} WalkStep(c: ChainData, pinned: Header, walk: Header, visited: seq<Header>, commits: seq<Commitment>)
    requires Descending(c) && ParentBelow(c, pinned) && ParentBelow(c, walk)
    requires Trace(c, pinned) == Extend(visited, commits, Trace(c, walk))
    requires GetBlock(c, walk).Some?
    ensures var v, e := visited + [walk], commits + Excesses(GetBlock(c, walk).value.kernels);
      if walk.height == 0 then Trace(c, pinned) == WalkTrace(v, e, None)
      else if GetPreviousHeader(c, walk).None? then Trace(c, pinned) == WalkTrace(v, e, Some(HeaderNotFound(walk.height - 1)))
      else ParentBelow(c, GetPreviousHeader(c, walk).value) && Trace(c, pinned) == Extend(v, e, Trace(c, GetPreviousHeader(c, walk).value))
  {
    var ex := Excesses(GetBlock(c, walk).value.kernels);
    if walk.height == 0 {
      assert Trace(c, walk) == WalkTrace([walk], ex, None);
    } else if GetPreviousHeader(c, walk).None? {
      assert Trace(c, walk) == WalkTrace([walk], ex, Some(HeaderNotFound(walk.height - 1)));
    } else {
      var p := GetPreviousHeader(c, walk).value;
      assert Trace(c, walk) == Extend([walk], ex, Trace(c, p));
      ExtendTwice(visited, commits, walk, ex, Trace(c, p));
    }
  }

  /** Every progress line of a walk names a positive multiple of the interval no higher than where it started. */
  lemma {:induction false} ProgressBounded(c: ChainData, h: Header)
    requires Descending(c) && ParentBelow(c, h)
    ensures forall x :: x in ProgressHeights(Trace(c, h).visited) ==> ReportsProgress(x) && x <= h.height
  {
    var v := Trace(c, h).visited;
    TraceDescends(c, h);
    forall x | x in ProgressHeights(v)
      ensures ReportsProgress(x) && x <= h.height
    {
      ProgressReported(v, x);
      var i :| 0 <= i < |v| && v[i].height == x;
      if i > 0 {
        assert v[0].height > v[i].height;
      }
    }
  }

  /** Visiting one more header adds its progress line, if any, at the end. */
  lemma {:induction false} ProgressStep(visited: seq<Header>, h: Header)
    ensures ProgressHeights(visited + [h])
      == if ReportsProgress(h.height) then ProgressHeights(visited) + [h.height] else ProgressHeights(visited)
  {
    ProgressAppend(visited, [h]);
    assert ProgressHeights([h]) == ProgressLine(h.height) + ProgressHeights([]);
  }

  /** Progress lines of two stretches of the walk are those of each, in order. */
  lemma {:induction false} ProgressAppend(a: seq<Header>, b: seq<Header>)
    ensures ProgressHeights(a + b) == ProgressHeights(a) + ProgressHeights(b)
  {
    if a == [] {
      assert a + b == b;
    } else {
      assert (a + b)[0] == a[0];
      assert (a + b)[1..] == a[1..] + b;
      ProgressAppend(a[1..], b);
    }
  }

  /** Heights strictly decrease along the walk, and every visited block was found. */
  lemma {:induction false} TraceDescends(c: ChainData, h: Header)
    requires Descending(c) && ParentBelow(c, h)
    ensures forall i, j :: 0 <= i < j < |Trace(c, h).visited| ==> Trace(c, h).visited[i].height > Trace(c, h).visited[j].height
    ensures forall i :: 0 <= i < |Trace(c, h).visited| ==> GetBlock(c, Trace(c, h).visited[i]).Some?
    decreases h.height
  {
    if GetBlock(c, h).Some? && h.height > 0 && GetPreviousHeader(c, h).Some? {
      var p := GetPreviousHeader(c, h).value;
      TraceDescends(c, p);
      var t, tp := Trace(c, h), Trace(c, p);
      assert t.visited == [h] + tp.visited;
      forall i, j | 0 <= i < j < |t.visited|
        ensures t.visited[i].height > t.visited[j].height
      {
        if i > 0 {
          assert t.visited[i] == tp.visited[i - 1] && t.visited[j] == tp.visited[j - 1];
        } else {
          assert t.visited[j] == tp.visited[j - 1];
          assert tp.visited[j - 1].height <= p.height by {
            if j - 1 > 0 {
              assert tp.visited[0].height > tp.visited[j - 1].height;
            }
          }
        }
      }
    }
  }

  /** The collected excesses are those of the visited blocks, block after block. */
  lemma {:induction false} TraceExcesses(c: ChainData, h: Header)
    requires Descending(c) && ParentBelow(c, h)
    ensures Trace(c, h).excesses == BlockExcesses(c, Trace(c, h).visited)
    decreases h.height
  {
    var t := Trace(c, h);
    if GetBlock(c, h).Some? {
      var ex := Excesses(GetBlock(c, h).value.kernels);
      if h.height == 0 || GetPreviousHeader(c, h).None? {
        assert t.visited == [h] && t.excesses == ex;
        assert BlockExcesses(c, [h]) == ex + BlockExcesses(c, []);
      } else {
        var p := GetPreviousHeader(c, h).value;
        TraceExcesses(c, p);
        assert t.visited == [h] + Trace(c, p).visited;
        assert t.visited[1..] == Trace(c, p).visited;
      }
    }
  }

  /**
   * On a well-linked store the walk visits heights tip, tip-1, ... in order,
   * one header per height; a walk without error covers tip..0 exactly once;
   * an error names the first height the walk could not reach, and the
   * header-lookup error never names a height below zero.
   */
  lemma {:induction false} TraceCoversHeights(c: ChainData, h: Header)
    requires Linked(c) && ParentAdjacent(c, h)
    ensures Descending(c) && ParentBelow(c, h)
    ensures var t := Trace(c, h);
      && |t.visited| <= h.height + 1
      && (forall i :: 0 <= i < |t.visited| ==> t.visited[i].height == h.height - i)
      && (t.failure.None? ==> |t.visited| == h.height + 1)
      && (t.failure.Some? ==>
            && |t.visited| <= h.height
            && t.failure.value in {BlockNotFound(h.height - |t.visited|), HeaderNotFound(h.height - |t.visited|)})
      && (t.failure.Some? && t.failure.value.HeaderNotFound? ==>
            |t.visited| > 0 && t.visited[|t.visited| - 1].height == t.failure.value.height + 1)
    decreases h.height
  {
    LinkedIsDescending(c);
    if GetBlock(c, h).Some? && h.height > 0 && GetPreviousHeader(c, h).Some? {
      var p := GetPreviousHeader(c, h).value;
      TraceCoversHeights(c, p);
      var t, tp := Trace(c, h), Trace(c, p);
      assert t.visited == [h] + tp.visited;
      forall i | 0 <= i < |t.visited|
        ensures t.visited[i].height == h.height - i
      {
        if i > 0 {
          assert t.visited[i] == tp.visited[i - 1];
        }
      }
      if t.failure.Some? && t.failure.value.HeaderNotFound? {
        assert t.visited[|t.visited| - 1] == tp.visited[|tp.visited| - 1];
      }
    }
  }

  /**
   * On a well-linked store the walk visits exactly the ancestors of the tip,
   * and it succeeds exactly when every ancestor down to genesis is stored
   * together with its block: a single missing one makes the whole walk fail.
   */
  lemma {:induction false} TraceMatchesAncestors(c: ChainData, h: Header)
    requires Linked(c) && ParentAdjacent(c, h)
    ensures Descending(c) && ParentBelow(c, h)
    ensures forall i :: 0 <= i < |Trace(c, h).visited| ==> AncestorAt(c, h, i) == Some(Trace(c, h).visited[i])
    ensures Trace(c, h).failure.None? <==> AncestorsStored(c, h)
    decreases h.height
  {
    LinkedIsDescending(c);
    var t := Trace(c, h);
    assert AncestorAt(c, h, 0) == Some(h);
    if GetBlock(c, h).None? {
      assert !AncestorsStored(c, h) by {
        assert !(AncestorAt(c, h, 0).Some? && GetBlock(c, AncestorAt(c, h, 0).value).Some?);
      }
    } else if h.height == 0 {
      assert t.visited == [h] && t.failure.None?;
    } else if GetPreviousHeader(c, h).None? {
      assert AncestorAt(c, h, 1).None?;
    } else {
      var p := GetPreviousHeader(c, h).value;
      TraceMatchesAncestors(c, p);
      var tp := Trace(c, p);
      assert t.visited == [h] + tp.visited && t.failure == tp.failure;
      forall n: nat | 1 <= n
        ensures AncestorAt(c, h, n) == AncestorAt(c, p, n - 1)
      {
      }
      forall i | 0 <= i < |t.visited|
        ensures AncestorAt(c, h, i) == Some(t.visited[i])
      {
        if i > 0 {
          assert t.visited[i] == tp.visited[i - 1];
        }
      }
      if AncestorsStored(c, h) {
        forall n | 0 <= n <= p.height
          ensures AncestorAt(c, p, n).Some? && GetBlock(c, AncestorAt(c, p, n).value).Some?
        {
          assert AncestorAt(c, h, n + 1) == AncestorAt(c, p, n);
        }
      }
      if AncestorsStored(c, p) {
        forall n | 0 <= n <= h.height
          ensures AncestorAt(c, h, n).Some? && GetBlock(c, AncestorAt(c, h, n).value).Some?
        {
          if n > 0 {
            assert AncestorAt(c, h, n) == AncestorAt(c, p, n - 1);
          }
        }
      }
    }
  }

  /** Division by the progress interval, stated through quotient and remainder. */
  lemma {:induction false} DivInterval(a: nat, q: nat, rem: nat)
    requires a == q * ProgressInterval + rem && rem < ProgressInterval
    ensures a / ProgressInterval == q && a % ProgressInterval == rem
  {
  }

  /** One step down the chain adds a milestone exactly when the height reports progress. */
  lemma {:induction false} MilestoneStep(height: nat)
    requires height > 0
    ensures Milestones(height / ProgressInterval)
      == ProgressLine(height) + Milestones((height - 1) / ProgressInterval)
  {
    var q, rem := (height - 1) / ProgressInterval, (height - 1) % ProgressInterval;
    DivInterval(height - 1, q, rem);
    if rem == ProgressInterval - 1 {
      DivInterval(height, q + 1, 0);
      assert (q + 1) * ProgressInterval == height;
      assert ReportsProgress(height);
      assert Milestones(q + 1) == [height] + Milestones(q);
    } else {
      DivInterval(height, q, rem + 1);
      assert !ReportsProgress(height);
    }
  }

  /** Below a header whose block is found and whose parent is stored, the walk goes on from the parent. */
  lemma {:induction false} TraceParent(c: ChainData, h: Header)
    requires Descending(c) && ParentBelow(c, h)
    requires GetBlock(c, h).Some? && h.height > 0 && GetPreviousHeader(c, h).Some?
    ensures ParentBelow(c, GetPreviousHeader(c, h).value)
    ensures Trace(c, h).visited == [h] + Trace(c, GetPreviousHeader(c, h).value).visited
    ensures Trace(c, h).failure == Trace(c, GetPreviousHeader(c, h).value).failure
  {
  }

  /** A header put in front of a stretch of the walk adds its progress line, if any, in front. */
  lemma {:induction false} ProgressCons(h: Header, vs: seq<Header>)
    ensures ProgressHeights([h] + vs) == ProgressLine(h.height) + ProgressHeights(vs)
  {
    assert ([h] + vs)[1..] == vs;
  }

  /**
   * A complete walk on a well-linked store reports progress at every positive
   * multiple of 100000 up to the tip, from the highest down, and at nothing
   * else; genesis is never reported.
   */
  lemma {:induction false} ProgressOfCompleteWalk(c: ChainData, h: Header)
    requires Linked(c) && ParentAdjacent(c, h)
    requires Descending(c) && Trace(c, h).failure.None?
    ensures ProgressHeights(Trace(c, h).visited) == Milestones(h.height / ProgressInterval)
    decreases h.height
  {
    assert GetBlock(c, h).Some?;
    if h.height == 0 {
      assert Trace(c, h).visited == [h];
      ProgressCons(h, []);
      assert Milestones(0) == [];
    } else {
      assert GetPreviousHeader(c, h).Some?;
      var p := GetPreviousHeader(c, h).value;
      assert p == c.headers[h.prevHash];
      assert p.height == h.height - 1 && ParentAdjacent(c, p);
      TraceParent(c, h);
      ProgressOfCompleteWalk(c, p);
      ProgressCons(h, Trace(c, p).visited);
      MilestoneStep(h.height);
    }
  }

}
