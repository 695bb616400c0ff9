/** Blocks and what they mean: the state after a prefix of the chain, the block a
    leader makes, and the checks a follower and a replay run on it. */
module Chain {
  import opened Types
  import opened Merkle
  import opened Ledger

  /** TxResults.Hash: the instruction hashes and the accepted flags. */
  type TxDigest = seq<(TxHash, bool)>

  function HashResults(version: int, txs: seq<TxResult>): (d: TxDigest)
    ensures |d| == |txs|
  {
    seq(|txs|, i requires 0 <= i < |txs| => (HashInstructions(version, txs[i].instrs), txs[i].accepted))
  }

  datatype Header = Header(trieRoot: Digest, txHash: TxDigest, changesHash: seq<StateChange>, info: BlockInfo)

  type BlockID = Bytes

  /** `forward` lists the targets of the forward links, lowest level first. */
  datatype SkipBlock = SkipBlock(
    index: nat, header: Header, body: Option<seq<TxResult>>, back: Option<BlockID>, forward: seq<BlockID>)

  /** What createStateChanges returns and the cache keeps. */
  datatype Computed = Computed(root: Digest, txOut: seq<TxResult>, states: seq<StateChange>)

  ghost function Compute(env: Env, info: BlockInfo, base: Tree, txs: seq<TxResult>): (c: Computed)
    requires Ready(env, base)
  {
    var b := Block(env, info, base, txs);
    Computed(Hash(env.cfg.nonce, b.state), b.txOut, b.changes)
  }

  /** Header and body that createNewBlock makes from the transactions it is given. */
  ghost function NewBlock(env: Env, info: BlockInfo, base: Tree, txs: seq<TxResult>): (r: (Header, seq<TxResult>))
    requires Ready(env, base)
  {
    var c := Compute(env, info, base, txs);
    (Header(c.root, HashResults(info.version, c.txOut), c.states, info), c.txOut)
  }

  /** The state checks of verifySkipBlock, in the order of the code. */
  predicate Matches(header: Header, body: seq<TxResult>, c: Computed) {
    && |c.txOut| == |body|
    && (forall i :: 0 <= i < |body| ==> c.txOut[i].accepted == body[i].accepted)
    && header.txHash == HashResults(header.info.version, c.txOut)
    && header.trieRoot == c.root
    && header.changesHash == c.states
  }

  ghost predicate Verifies(env: Env, base: Tree, header: Header, body: seq<TxResult>)
    requires Ready(env, base)
  {
    Matches(header, body, Compute(env, header.info, base, body))
  }

  /** A follower on the leader's base accepts exactly the blocks an honest leader can
      have made there. */
  lemma VerifiesExactly(env: Env, base: Tree, header: Header, body: seq<TxResult>)
    requires Ready(env, base)
    ensures Verifies(env, base, header, body) <==> (header, body) == NewBlock(env, header.info, base, body)
  {
    OutKeepsTxs(Processes(env, header.info), base, body);
    var out := Block(env, header.info, base, body).txOut;
    if forall i :: 0 <= i < |body| ==> out[i].accepted == body[i].accepted {
      assert forall i :: 0 <= i < |body| ==> out[i] == body[i];
      assert out == body;
    }
  }

  lemma LeaderBlockVerifies(env: Env, info: BlockInfo, base: Tree, txs: seq<TxResult>)
    requires Ready(env, base)
    ensures
      var (header, body) := NewBlock(env, info, base, txs);
      Verifies(env, base, header, body)
  {
    Rerun(Processes(env, info), base, txs);
  }

  // ------------------------------------------------------------------- the chain

  ghost function BodyOrEmpty(b: SkipBlock): (txs: seq<TxResult>)
  {
    if b.body.Some? then b.body.value else []
  }

  /** The state after the given blocks, from the empty trie on. */
  ghost function Fold(env: Env, blocks: seq<SkipBlock>): (t: Tree)
    requires Collisionless(env.cfg)
    ensures Ready(env, t)
    decreases |blocks|
  {
    if blocks == [] then EmptyIsValid(env.cfg); NewTrie()
    else
      var n := |blocks| - 1;
      Block(env, blocks[n].header.info, Fold(env, blocks[..n]), BodyOrEmpty(blocks[n])).state
  }

  lemma EmptyIsValid(cfg: Config)
    ensures ValidTrie(cfg, NewTrie())
  {
    assert [] + [true] == [true] && [] + [false] == [false];
  }

  /** Every block was verified by a node that was at the block before. */
  ghost predicate Verified(env: Env, blocks: seq<SkipBlock>)
    requires Collisionless(env.cfg)
  {
    forall i :: 0 <= i < |blocks| ==>
      && blocks[i].index == i
      && blocks[i].body.Some?
      && Verifies(env, Fold(env, blocks[..i]), blocks[i].header, blocks[i].body.value)
  }

  /** Every header carries the root of the state after its block. */
  ghost predicate RootsMatch(env: Env, blocks: seq<SkipBlock>)
    requires Collisionless(env.cfg)
  {
    forall i :: 0 <= i < |blocks| ==>
      && blocks[i].index == i
      && blocks[i].body.Some?
      && blocks[i].header.trieRoot == Hash(env.cfg.nonce, Fold(env, blocks[..i + 1]))
  }

  /** The state after block `i`, or before all blocks if that is -1. */
  ghost function StateAfter(env: Env, blocks: seq<SkipBlock>, i: int): (t: Tree)
    requires Collisionless(env.cfg) && -1 <= i < |blocks|
  {
    Fold(env, blocks[..i + 1])
  }

  lemma FoldStep(env: Env, blocks: seq<SkipBlock>, i: nat)
    requires Collisionless(env.cfg) && i < |blocks|
    ensures Fold(env, blocks[..i + 1]) ==
            Block(env, blocks[i].header.info, Fold(env, blocks[..i]), BodyOrEmpty(blocks[i])).state
  {
    assert blocks[..i + 1][..i] == blocks[..i];
  }

  lemma VerifiedRootsMatch(env: Env, blocks: seq<SkipBlock>)
    requires Collisionless(env.cfg) && Verified(env, blocks)
    ensures RootsMatch(env, blocks)
  {
    forall i | 0 <= i < |blocks|
      ensures blocks[i].header.trieRoot == Hash(env.cfg.nonce, Fold(env, blocks[..i + 1]))
    {
      FoldStep(env, blocks, i);
    }
  }

  /** Whatever changes a node applies at block `i - 1`, if they lead to the root in the
      header of block `i` then they lead to the state of the chain. */
  lemma RootAdmitsOnlyChain(env: Env, chain: seq<SkipBlock>, i: nat, scs: seq<StateChange>)
    requires Collisionless(env.cfg) && RootsMatch(env, chain) && i < |chain|
    requires Hash(env.cfg.nonce, StoreAll(env, Fold(env, chain[..i]), scs)) == chain[i].header.trieRoot
    ensures StoreAll(env, Fold(env, chain[..i]), scs) == Fold(env, chain[..i + 1])
  {
    HashInjective(env.cfg.nonce, StoreAll(env, Fold(env, chain[..i]), scs), Fold(env, chain[..i + 1]));
  }

  /** The changes that the block itself makes do lead there. */
  lemma ChainAdmitsBlock(env: Env, chain: seq<SkipBlock>, i: nat)
    requires Collisionless(env.cfg) && RootsMatch(env, chain) && i < |chain|
    ensures
      var base := Fold(env, chain[..i]);
      var scs := Compute(env, chain[i].header.info, base, chain[i].body.value).states;
      Storable(scs) && Hash(env.cfg.nonce, StoreAll(env, base, scs)) == chain[i].header.trieRoot
  {
    FoldStep(env, chain, i);
    BlockStores(env, chain[i].header.info, Fold(env, chain[..i]), chain[i].body.value);
  }

  // -------------------------------------------------------------------- a replay

  /** What ReplayState checks of a block. */
  ghost predicate Replays(env: Env, base: Tree, header: Header, body: seq<TxResult>)
    requires Ready(env, base)
  {
    && header.txHash == HashResults(header.info.version, body)
    && Block(env, header.info, base, body).txOut == body
    && header.trieRoot == Hash(env.cfg.nonce, Block(env, header.info, base, body).state)
  }

  /** A replay and a follower agree, except that a replay does not look at the hash of
      the state changes. */
  lemma ReplaysIsVerifies(env: Env, base: Tree, header: Header, body: seq<TxResult>)
    requires Ready(env, base)
    ensures Verifies(env, base, header, body) <==>
            Replays(env, base, header, body) && header.changesHash == Block(env, header.info, base, body).changes
  {
    VerifiesExactly(env, base, header, body);
  }
}
