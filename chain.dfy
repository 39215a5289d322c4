/**
 * The chain data accessor as plain data: the store's tip, its blocks and
 * headers keyed by hash, and the leaves of the output index at the tip.
 * The storage engine and the output index are external; only what the audit
 * reads from them is modelled.
 */
module Chain {
  import opened Outcomes
  import opened Commitments

  /** A block or header hash, as an opaque identifier. */
  type Hash = nat

  /** The header fields the audit reads. */
  datatype Header = Header(height: nat, hash: Hash, prevHash: Hash, totalKernelOffset: seq<bv8>)

  datatype TxKernel = TxKernel(excess: Commitment)

  datatype Block = Block(kernels: seq<TxKernel>)

  datatype OutputIdentifier = OutputIdentifier(commit: Commitment)

  /**
   * A snapshot of what the accessor returns:
   * storeOpens     — `ChainStore::new` succeeds;
   * head           — `head_header`, None when it cannot be read;
   * txHashSetOpens — `TxHashSet::open` succeeds;
   * outputLeaves   — `get_data(pos)` for each position `leaf_pos_iter` yields
   *                  on the output index at the head, in iteration order;
   * blocks         — `get_block(hash)`, absent when the block is not found;
   * headers        — header lookup by hash, absent when not found.
   */
  datatype ChainData = ChainData(
    storeOpens: bool,
    head: Option<Header>,
    txHashSetOpens: bool,
    outputLeaves: seq<Option<OutputIdentifier>>,
    blocks: map<Hash, Block>,
    headers: map<Hash, Header>)

  /** Every way the audit can end other than success. */
  datatype SupplyError =
    | ChainDataNotFound(path: string)
    | StoreOpenFailed
    | HeadUnreadable
    | TxHashSetOpenFailed
    | BlockNotFound(height: nat)
    | HeaderNotFound(height: nat)
    | InvalidOffset
    | SupplyMismatch(lhs: Commitment, rhs: Commitment)

  /** `store.get_block(&header.hash())`. */
  function GetBlock(c: ChainData, h: Header): Option<Block> {
    if h.hash in c.blocks then Some(c.blocks[h.hash]) else None
  }

  /** `store.get_previous_header(&header)`: the header stored under `prev_hash`. */
  function GetPreviousHeader(c: ChainData, h: Header): Option<Header> {
    if h.prevHash in c.headers then Some(c.headers[h.prevHash]) else None
  }

  /** The parent of a non-genesis header, when stored, is lower than it. */
  predicate ParentBelow(c: ChainData, h: Header) {
    h.height > 0 && GetPreviousHeader(c, h).Some? ==> GetPreviousHeader(c, h).value.height < h.height
  }

  /** The parent of a non-genesis header, when stored, is exactly one lower. */
  predicate ParentAdjacent(c: ChainData, h: Header) {
    h.height > 0 && GetPreviousHeader(c, h).Some? ==> GetPreviousHeader(c, h).value.height == h.height - 1
  }

  /** Heights strictly decrease along parent links from the head and from every stored header. */
  predicate Descending(c: ChainData) {
    && (c.head.Some? ==> ParentBelow(c, c.head.value))
    && forall k :: k in c.headers ==> ParentBelow(c, c.headers[k])
  }

  /** A well-linked store: every parent link goes down by exactly one height. */
  predicate Linked(c: ChainData) {
    && (c.head.Some? ==> ParentAdjacent(c, c.head.value))
    && forall k :: k in c.headers ==> ParentAdjacent(c, c.headers[k])
  }

  /** The header `n` parent links above `h`, None when a link is missing. */
  function AncestorAt(c: ChainData, h: Header, n: nat): Option<Header>
    decreases n
  {
    if n == 0 then Some(h)
    else match GetPreviousHeader(c, h)
      case None => None
      case Some(p) => AncestorAt(c, p, n - 1)
  }

  /** A well-linked store has descending heights. */
  lemma {:induction false} LinkedIsDescending(c: ChainData)
    requires Linked(c)
    ensures Descending(c)
  {
  }
}
