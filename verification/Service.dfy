/** The node: its state-change cache, its trie, and the ways it gets from blocks to state -
    making and verifying a proposal, following notifications, replaying from genesis and
    repairing after a crash. They all reach the state that Chain.Fold defines. */
module Service {
  import opened Types
  import opened Merkle
  import opened Ledger
  import opened Chain
  import Execution

  /** Contracts do not generate instructions for ever, so the loops return. */
  ghost predicate Terminating(env: Env) {
    forall info, t, tx :: Ready(env, t) ==> Finishes(env, info, t, tx)
  }

  lemma TerminatingBlocks(env: Env, info: BlockInfo, base: Tree, txs: seq<TxResult>)
    requires Ready(env, base) && Terminating(env)
    ensures BlockFinishes(env, info, base, txs)
  {
    forall i | 0 <= i < |txs|
      ensures Finishes(env, info, RunBlock(Processes(env, info), base, txs[..i]).state, txs[i].instrs)
    {
      BlockStores(env, info, base, txs[..i]);
    }
  }

  // ------------------------------------------------------------------- the cache

  datatype CacheValue = CacheValue(digest: TxDigest, result: Computed)

  /** An entry computed from the same base, version and timestamp is what a recomputation
      gives exactly if its transactions are the same, signatures included. */
  lemma HitIsRecomputation(env: Env, info: BlockInfo, base: Tree, cached: seq<TxResult>, txIn: seq<TxResult>)
    requires Ready(env, base)
    ensures Compute(env, info, base, cached) == Compute(env, info, base, txIn) <==> SameTxs(cached, txIn)
  {
    var p := Processes(env, info);
    if SameTxs(cached, txIn) {
      FlagsIgnored(p, base, cached, txIn);
    }
    OutKeepsTxs(p, base, cached);
    OutKeepsTxs(p, base, txIn);
  }

  /** The hashed bytes of the instructions are the same. */
  ghost predicate HashAlike(version: int, a: Instructions, b: Instructions) {
    |a| == |b| && forall k :: 0 <= k < |a| ==> Preimage(version, a[k]) == Preimage(version, b[k])
  }

  lemma HashAlikeExactly(version: int, a: Instructions, b: Instructions)
    ensures HashInstructions(version, a) == HashInstructions(version, b) <==> HashAlike(version, a, b)
  {
    var x, y := HashInstructions(version, a), HashInstructions(version, b);
    if x == y {
      forall k | 0 <= k < |a| ensures Preimage(version, a[k]) == Preimage(version, b[k]) {
        assert x[k] == y[k];
      }
    }
  }

  /** What a digest match means: the same flags, and instructions whose hashed bytes are
      the same. */
  lemma HitExactly(version: int, a: seq<TxResult>, b: seq<TxResult>)
    ensures HashResults(version, a) == HashResults(version, b) <==>
      && |a| == |b|
      && forall i :: 0 <= i < |a| ==> a[i].accepted == b[i].accepted && HashAlike(version, a[i].instrs, b[i].instrs)
  {
    forall i | 0 <= i < |a| && i < |b|
      ensures HashInstructions(version, a[i].instrs) == HashInstructions(version, b[i].instrs) <==>
        HashAlike(version, a[i].instrs, b[i].instrs)
    {
      HashAlikeExactly(version, a[i].instrs, b[i].instrs);
    }
    var x, y := HashResults(version, a), HashResults(version, b);
    if x == y {
      forall i | 0 <= i < |a|
        ensures a[i].accepted == b[i].accepted
        ensures HashInstructions(version, a[i].instrs) == HashInstructions(version, b[i].instrs)
      {
        assert x[i] == y[i];
      }
    } else if |x| == |y| {
      assert exists i :: 0 <= i < |x| && x[i] != y[i];
    }
  }

  /** A contract that wants a signature, and one instruction with and without it. */
  function SignatureEnv(cfg: Config): (env: Env)
  {
    Env(cfg,
        (t: Tree, info: BlockInfo, instr: Instruction, cin: seq<Coin>, h: TxHash) =>
          if instr.signatures == [] then None else Some(([], [])),
        {}, (b: Bytes) => None, (instr: Instruction, n: nat) => [], (signer: string) => seq(ID_LENGTH, _ => 0))
  }

  function OneInstruction(signatures: seq<Bytes>): (txs: seq<TxResult>)
  {
    [TxResult([Instruction(seq(ID_LENGTH, _ => 0), NoPayload, ["signer"], [[]], [1], signatures, false)], true)]
  }

  /** The condition of `HitIsRecomputation` cannot be dropped: the digest does not cover
      signatures, so the entry of an accepted transaction is also served for the same
      instructions without their signatures, which a recomputation rejects. */
  lemma HitWithOtherSignatures(cfg: Config, info: BlockInfo)
    requires Collisionless(cfg) && ValidTrie(cfg, NewTrie())
    ensures
      var env := SignatureEnv(cfg);
      var signed, unsigned := OneInstruction([[]]), OneInstruction([]);
      var c := Compute(env, info, NewTrie(), signed);
      && c.states != []
      && HashResults(info.version, c.txOut) == HashResults(info.version, unsigned)
      && c != Compute(env, info, NewTrie(), unsigned)
  {
    var env, t := SignatureEnv(cfg), NewTrie();
    var signed, unsigned := OneInstruction([[]]), OneInstruction([]);
    var p := Processes(env, info);
    RunBlockNext(p, t, signed, 0);
    RunBlockNext(p, t, unsigned, 0);
    assert signed[..1] == signed && signed[..0] == [] && unsigned[..1] == unsigned && unsigned[..0] == [];
    SignedAccepted(env, info, t, signed[0].instrs[0]);
    UnsignedRejected(env, info, t, unsigned[0].instrs[0]);
    assert HashInstructions(info.version, signed[0].instrs) == HashInstructions(info.version, unsigned[0].instrs);
  }

  lemma SignedAccepted(env: Env, info: BlockInfo, t: Tree, instr: Instruction)
    requires Ready(env, t) && instr.signers == ["signer"]
    requires forall h :: env.contract(t, info, instr, [], h) == Some(([], []))
    requires Contents(t) == map[]
    ensures Process(env, info, t, [instr]).Accepted? && Process(env, info, t, [instr]).changes != []
  {
    var h := HashInstructions(info.version, [instr]);
    assert Number(env, t, [], 0) == Some(([], map[]));
    assert Check(env, t, instr, [], 0) == Some(CheckState(t, [], 0));
    assert instr.signers[..0] == [] && CounterChanges(env, t, []) == Some([]);
    var s := Step(env, info, h, t, [], instr);
    assert s.Stepped? && |s.changes| == 1 && s.generated == [];
    assert [instr][1..] == [];
    assert Run(Steps(env, info, h), s.state, [] + [], s.coins, 0) == Accepted([], s.state);
    ProcessIsRun(env, info, t, [instr], 1);
  }

  lemma UnsignedRejected(env: Env, info: BlockInfo, t: Tree, instr: Instruction)
    requires Ready(env, t) && forall h :: env.contract(t, info, instr, [], h) == None
    ensures Process(env, info, t, [instr]) == Rejected
  {
    var h := HashInstructions(info.version, [instr]);
    assert Step(env, info, h, t, [], instr) == Failed;
    ProcessIsRun(env, info, t, [instr], 1);
  }

  /** The comparisons of verifySkipBlock. */
  method CheckHeader(header: Header, body: seq<TxResult>, c: Computed) returns (ok: bool)
    ensures ok <==> Matches(header, body, c)
  {
    if |c.txOut| != |body| {
      return false;
    }
    var i := 0;
    while i < |body|
      invariant 0 <= i <= |body|
      invariant forall j :: 0 <= j < i ==> c.txOut[j].accepted == body[j].accepted
    {
      if c.txOut[i].accepted != body[i].accepted {
        return false;
      }
      i := i + 1;
    }
    ok := header.txHash == HashResults(header.info.version, c.txOut) && header.trieRoot == c.root && header.changesHash == c.states;
  }

  /** Where a cached result comes from: the block information, the base and the
      transactions it was computed with. */
  datatype Origin = Origin(info: BlockInfo, base: Tree, txs: seq<TxResult>)

  ghost predicate ComesFrom(env: Env, v: CacheValue, o: Origin) {
    && Ready(env, o.base)
    && v.result == Compute(env, o.info, o.base, o.txs)
    && v.digest == HashResults(o.info.version, v.result.txOut)
  }

  lemma SameTxsItself(txs: seq<TxResult>)
    ensures SameTxs(txs, txs)
  {
  }

  class Service {
    const env: Env
    const scID: string
    var cache: map<string, CacheValue>
    var trie: Tree
    var index: int
    var version: int
    ghost var origins: map<string, Origin>

    ghost predicate Ok()
      reads this
    {
      && Ready(env, trie) && index >= -1 && Terminating(env)
      && (forall id :: id in cache ==> id in origins && ComesFrom(env, cache[id], origins[id]))
    }

    constructor (env: Env, scID: string)
      requires Collisionless(env.cfg) && Terminating(env)
      ensures Ok() && trie == NewTrie() && index == -1 && cache == map[]
      ensures this.env == env && this.scID == scID
    {
      this.env, this.scID := env, scID;
      cache, trie, index, version, origins := map[], NewTrie(), -1, 0, map[];
      new;
      EmptyIsValid(env.cfg);
    }

    ghost predicate Hit(version: int, txIn: seq<TxResult>)
      reads this
    {
      scID in cache && cache[scID].digest == HashResults(version, txIn)
    }

    /** createStateChanges with the one-entry cache. The staging trie is only made on a
        miss. */
    method CreateStateChanges(base: Tree, txIn: seq<TxResult>, info: BlockInfo)
        returns (c: Computed, sst: Option<Tree>)
      requires Ok() && Ready(env, base)
      modifies this`cache, this`origins
      ensures Ok()
      ensures old(Hit(info.version, txIn)) ==>
        cache == old(cache) && origins == old(origins) && sst == None && c == cache[scID].result
      ensures !old(Hit(info.version, txIn)) ==>
        && c == Compute(env, info, base, txIn)
        && sst == Some(Block(env, info, base, txIn).state)
        && (if c.states == [] then cache == old(cache) && origins == old(origins)
            else cache == old(cache)[scID := CacheValue(HashResults(info.version, c.txOut), c)]
                 && origins == old(origins)[scID := Origin(info, base, txIn)])
    {
      if scID in cache && cache[scID].digest == HashResults(info.version, txIn) {
        return cache[scID].result, None;
      }
      TerminatingBlocks(env, info, base, txIn);
      var root, txOut, states, t := Execution.CreateStateChanges(env, info, base, txIn);
      c, sst := Computed(root, txOut, states), Some(t);
      if states != [] && txOut != [] {
        cache := cache[scID := CacheValue(HashResults(info.version, txOut), c)];
        origins := origins[scID := Origin(info, base, txIn)];
      }
    }

    /** What createStateChanges returns, from the cache or not. */
    ghost function Served(info: BlockInfo, base: Tree, txs: seq<TxResult>): (c: Computed)
      requires Ready(env, base)
      reads this
    {
      if Hit(info.version, txs) then cache[scID].result else Compute(env, info, base, txs)
    }

    /** If the cache hits, its entry was made from the same base, block information and
        transactions. */
    ghost predicate Fits(info: BlockInfo, base: Tree, txs: seq<TxResult>)
      reads this
    {
      Hit(info.version, txs) ==>
        && scID in origins
        && origins[scID].info == info && origins[scID].base == base && SameTxs(origins[scID].txs, txs)
    }

    /** What is served is then what a computation gives. */
    lemma FitsServes(info: BlockInfo, base: Tree, txs: seq<TxResult>)
      requires Ok() && Ready(env, base) && Fits(info, base, txs)
      ensures Served(info, base, txs) == Compute(env, info, base, txs)
    {
      if Hit(info.version, txs) {
        HitIsRecomputation(env, info, base, origins[scID].txs, txs);
      }
    }

    /** The state part of createNewBlock. */
    method CreateNewBlock(txs: seq<TxResult>, info: BlockInfo) returns (r: Option<(Header, seq<TxResult>)>)
      requires Ok()
      modifies this`cache, this`origins
      ensures Ok()
      ensures
        var c := old(Served(info, trie, txs));
        r == if c.txOut == [] then None else Some((Header(c.root, HashResults(info.version, c.txOut), c.states, info), c.txOut))
      ensures old(Fits(info, trie, txs)) && r.Some? ==>
        r.value == NewBlock(env, info, trie, txs) && Verifies(env, trie, r.value.0, r.value.1)
    {
      if Fits(info, trie, txs) {
        FitsServes(info, trie, txs);
        LeaderBlockVerifies(env, info, trie, txs);
      }
      var c, _ := CreateStateChanges(trie, txs, info);
      if c.txOut == [] {
        return None;
      }
      r := Some((Header(c.root, HashResults(info.version, c.txOut), c.states, info), c.txOut));
    }

    /** The state checks of verifySkipBlock. With an entry that was not computed from this
        base and block information, they check the block against that entry. */
    method VerifySkipBlock(sb: SkipBlock) returns (ok: bool)
      requires Ok()
      modifies this`cache, this`origins
      ensures Ok()
      ensures ok ==> sb.index == index + 1 && sb.body.Some?
      ensures sb.index == index + 1 && sb.body.Some? ==>
        (ok <==> Matches(sb.header, sb.body.value, old(Served(sb.header.info, trie, sb.body.value))))
      ensures sb.body.Some? && old(Fits(sb.header.info, trie, sb.body.value)) ==>
        (ok <==> sb.index == index + 1 && Verifies(env, trie, sb.header, sb.body.value))
      ensures sb.body.Some? && old(Fits(sb.header.info, trie, sb.body.value)) ==> Fits(sb.header.info, trie, sb.body.value)
    {
      if sb.body == None || index + 1 != sb.index {
        return false;
      }
      if Fits(sb.header.info, trie, sb.body.value) {
        FitsServes(sb.header.info, trie, sb.body.value);
      }
      SameTxsItself(sb.body.value);
      var c, _ := CreateStateChanges(trie, sb.body.value, sb.header.info);
      ok := CheckHeader(sb.header, sb.body.value, c);
    }

    /** VerifiedStoreAll on the value of the trie (module Staging has the transaction). */
    method VerifiedStoreAll(scs: seq<StateChange>, index: nat, version: int, expected: Digest) returns (ok: bool)
      requires Ok()
      modifies this`trie, this`index, this`version
      ensures Ok()
      ensures ok <==> Storable(scs) && Hash(env.cfg.nonce, StoreAll(env, old(trie), scs)) == expected
      ensures ok ==> trie == StoreAll(env, old(trie), scs) && this.index == index && this.version == version
      ensures !ok ==> trie == old(trie) && this.index == old(this.index) && this.version == old(this.version)
    {
      var i := 0;
      while i < |scs|
        invariant 0 <= i <= |scs| && Storable(scs[..i])
      {
        if scs[i].action == InvalidAction {
          assert scs[i] in scs;
          return false;
        }
        i := i + 1;
      }
      assert scs[..i] == scs;
      var t := StoreAll(env, trie, scs);
      if Hash(env.cfg.nonce, t) != expected {
        return false;
      }
      trie, this.index, this.version := t, index, version;
      ok := true;
    }

    /** The node is at some block of the chain and holds the state after it. */
    ghost predicate Follows(chain: seq<SkipBlock>)
      reads this
    {
      Ok() && index < |chain| && trie == StateAfter(env, chain, index)
    }

    /** updateTrieCallback. Old blocks and blocks with a gap are ignored. Whatever the
        cache holds, stale or not, the root check admits only the state of the chain. */
    method UpdateTrieCallback(sb: SkipBlock, ghost chain: seq<SkipBlock>)
      requires Follows(chain) && RootsMatch(env, chain)
      requires sb.index < |chain| && chain[sb.index] == sb
      modifies this
      ensures Follows(chain)
      ensures index == old(index) || (index == old(index) + 1 && index == sb.index)
      ensures sb.index == old(index) + 1 && old(Fits(sb.header.info, trie, sb.body.value)) ==> index == sb.index
      ensures old(Comes(chain, sb)) ==> index == sb.index && Ahead(chain)
    {
      if Comes(chain, sb) {
        ComesMisses(env, chain, trie, index, Cached(), sb);
      }
      if sb.index <= index || sb.index > index + 1 {
        return;
      }
      var ok := NextBlock(sb, chain);
    }

    method NextBlock(sb: SkipBlock, ghost chain: seq<SkipBlock>) returns (ok: bool)
      requires Follows(chain) && RootsMatch(env, chain)
      requires sb.index == index + 1 < |chain| && chain[sb.index] == sb
      modifies this
      ensures Follows(chain) && index == if ok then sb.index else old(index)
      ensures old(Fits(sb.header.info, trie, sb.body.value)) ==> ok
      ensures old(Comes(chain, sb)) ==> ok && Ahead(chain)
    {
      ok := StoreBlock(sb, chain, index);
    }

    /** The next block: its changes are stored exactly if they lead to its root. */
    method StoreBlock(sb: SkipBlock, ghost chain: seq<SkipBlock>, ghost last: int) returns (ok: bool)
      requires Ok() && RootsMatch(env, chain) && -1 <= last && sb.index == last + 1 < |chain| && chain[sb.index] == sb
      requires trie == StateAfter(env, chain, last)
      modifies this
      ensures Ok()
      ensures ok ==> index == sb.index && trie == StateAfter(env, chain, sb.index)
      ensures !ok ==> trie == old(trie) && index == old(index)
      ensures old(Fits(sb.header.info, trie, sb.body.value)) ==> ok
      ensures old(Comes(chain, sb)) ==> ok && Ahead(chain)
    {
      if Fits(sb.header.info, trie, sb.body.value) {
        FitsServes(sb.header.info, trie, sb.body.value);
      }
      var c := ComputeNext(sb, chain);
      ChainAdmits(env, chain, sb, last, trie, c.states);
      ok := StoreComputed(sb, c, chain);
    }

    method StoreComputed(sb: SkipBlock, c: Computed, ghost chain: seq<SkipBlock>) returns (ok: bool)
      requires Ok()
      modifies this`trie, this`index, this`version
      ensures Ok()
      ensures ok <==> Storable(c.states) && Hash(env.cfg.nonce, StoreAll(env, old(trie), c.states)) == sb.header.trieRoot
      ensures ok ==> trie == StoreAll(env, old(trie), c.states) && index == sb.index
      ensures !ok ==> trie == old(trie) && index == old(index)
      ensures old(Leads(env, chain, sb, trie, index, c, Cached())) ==> ok && Ahead(chain)
    {
      ok := VerifiedStoreAll(c.states, sb.index, sb.header.info.version, sb.header.trieRoot);
    }

    /** A follower that verifies a block of the chain and is then told that it was stored
        moves to it: the entry that the verification left fits. */
    method Adopt(sb: SkipBlock, ghost chain: seq<SkipBlock>) returns (ok: bool)
      requires Follows(chain) && RootsMatch(env, chain) && sb.index < |chain| && chain[sb.index] == sb
      modifies this
      ensures Follows(chain)
      ensures old(Fits(sb.header.info, trie, sb.body.value)) ==>
        && (ok <==> sb.index == old(index) + 1 && Verifies(env, old(trie), sb.header, sb.body.value))
        && (ok ==> index == sb.index)
    {
      ok := VerifySkipBlock(sb);
      if ok {
        UpdateTrieCallback(sb, chain);
      }
    }

    /** A new node with an empty cache is ahead of no block. */
    lemma StartsAhead(chain: seq<SkipBlock>)
      requires Ok() && cache == map[] && index == -1 && trie == NewTrie()
      requires chain != [] && Verified(env, chain) && DigestsApart(chain)
      ensures Ahead(chain)
    {
      assert chain[..0] == [];
    }

    /** Any schedule of notifications - duplicates, gaps, any order - keeps the node on
        the chain, and its index never goes back. Told of all blocks in their order, it
        comes to the end. */
    method Notify(schedule: seq<SkipBlock>, ghost chain: seq<SkipBlock>)
      requires Follows(chain) && RootsMatch(env, chain)
      requires forall i :: 0 <= i < |schedule| ==> schedule[i].index < |chain| && chain[schedule[i].index] == schedule[i]
      modifies this
      ensures Follows(chain) && index >= old(index)
      ensures old(Ahead(chain) && InOrder(schedule, chain, index)) ==> index == |chain| - 1
    {
      ghost var start, ordered := index, Ahead(chain) && InOrder(schedule, chain, index);
      for i := 0 to |schedule|
        invariant Follows(chain) && index >= start
        invariant ordered ==> Ahead(chain) && index == start + i
      {
        if ordered {
          InOrderNext(schedule, chain, start, i);
        }
        UpdateTrieCallback(schedule[i], chain);
      }
    }

    // ------------------------------------------------------------------ replay

    /** The transaction loop of ReplayState: accepted transactions must pass and refused
        ones must fail. */
    method ReplayBlock(base: Tree, info: BlockInfo, txs: seq<TxResult>)
        returns (r: Option<(seq<StateChange>, Tree)>)
      requires Ok() && Ready(env, base)
      ensures r.Some? <==> Block(env, info, base, txs).txOut == txs
      ensures r.Some? ==> r.value == (Block(env, info, base, txs).changes, Block(env, info, base, txs).state)
    {
      var sst, scs, i := base, [], 0;
      ghost var pr := Processes(env, info);
      while i < |txs|
        invariant 0 <= i <= |txs| && Ready(env, sst)
        invariant BlockResult(txs[..i], scs, sst) == RunBlock(pr, base, txs[..i])
      {
        var p := Execution.ProcessOneTx(env, info, sst, txs[i].instrs);
        ReplayStep(pr, base, txs, i);
        if txs[i].accepted != p.Some? {
          return None;
        }
        if p.Some? {
          scs, sst := scs + p.value.0, p.value.1;
        }
        i := i + 1;
      }
      assert txs[..i] == txs;
      r := Some((scs, sst));
    }

    /** One turn of the block loop of ReplayState. */
    method ReplayOne(base: Tree, header: Header, body: seq<TxResult>) returns (r: Option<Tree>)
      requires Ok() && Ready(env, base)
      ensures r.Some? <==> Replays(env, base, header, body)
      ensures r.Some? ==> r.value == Block(env, header.info, base, body).state
    {
      if header.txHash != HashResults(header.info.version, body) {
        return None;
      }
      var replayed := ReplayBlock(base, header.info, body);
      if replayed == None || header.trieRoot != Hash(env.cfg.nonce, replayed.value.1) {
        return None;
      }
      BlockStores(env, header.info, base, body);
      r := Some(StoreAll(env, base, replayed.value.0));
    }

    /** ReplayState over at most `maxBlocks` blocks, from a throwaway in-memory trie. */
    method ReplayState(db: map<BlockID, SkipBlock>, id: BlockID, maxBlocks: nat) returns (r: Option<(Tree, int)>)
      requires Ok()
      ensures r == if id in db then Replayed(env, db, db[id], NewTrie(), -1, maxBlocks) else None
    {
      EmptyIsValid(env.cfg);
      if id !in db {
        return None;
      }
      var st, index: int := NewTrie(), -1;
      var sb, left := db[id], maxBlocks;
      while left > 0
        invariant Ready(env, st) && Replayed(env, db, db[id], NewTrie(), -1, maxBlocks) == Replayed(env, db, sb, st, index, left)
      {
        if sb.body.Some? {
          var replayed := ReplayOne(st, sb.header, sb.body.value);
          if replayed == None {
            return None;
          }
          st, index := replayed.value, sb.index;
        }
        if sb.forward == [] {
          return Some((st, index));
        }
        if sb.forward[0] !in db {
          return None;
        }
        sb, left := db[sb.forward[0]], left - 1;
      }
      r := Some((st, index));
    }

    // ------------------------------------------------------------------ repair

    /** repairStateTrie: forward along the level-0 links from a block whose root is the
        one of the trie. It succeeds only at the end of these links, with the root and
        the index of the block there; and it does if all blocks of a chain are there. */
    method RepairStateTrie(db: map<BlockID, SkipBlock>, start: SkipBlock, ghost top: nat, ghost chain: seq<SkipBlock>)
        returns (ok: bool, ghost path: seq<SkipBlock>)
      requires Ok() && forall id :: id in db ==> db[id].index <= top
      modifies this
      ensures Ok() && index >= old(index)
      ensures LevelZeroPath(db, start, path)
      ensures ok ==> start.header.trieRoot == Hash(env.cfg.nonce, old(trie))
      ensures ok ==> |path| > 1 && IsAt(path[|path| - 1]) && path[|path| - 1].forward == []
      ensures ok ==> index == old(index) + |path| - 1
      ensures old(Going(db, chain, start)) && start.forward != [] ==> ok
    {
      path := [start];
      if start.header.trieRoot != Hash(env.cfg.nonce, trie) {
        return false, path;
      }
      var from, cnt := start, 0;
      while from.forward != []
        invariant Ok() && LevelZeroPath(db, start, path) && path[|path| - 1] == from
        invariant |path| == cnt + 1 && index == old(index) + cnt
        invariant if cnt > 0 then IsAt(from) else from == start
        invariant old(Going(db, chain, start)) ==> Going(db, chain, from)
        decreases top - index
      {
        var stored, next := RepairNext(db, from, chain);
        if !stored {
          return false, path;
        }
        PathOneMore(db, start, path);
        from, path, cnt := next, path + [next], cnt + 1;
      }
      ok := cnt > 0;
    }

    /** One turn of that loop. */
    method RepairNext(db: map<BlockID, SkipBlock>, from: SkipBlock, ghost chain: seq<SkipBlock>) returns (stored: bool, next: SkipBlock)
      requires Ok() && from.forward != []
      modifies this
      ensures Ok()
      ensures stored ==> from.forward[0] in db && next == db[from.forward[0]] && IsAt(next) && index == old(index) + 1
      ensures !stored ==> index == old(index)
      ensures old(Going(db, chain, from)) ==> stored && Going(db, chain, next)
    {
      ghost var going := Going(db, chain, from);
      if going {
        OnChainNext(db, chain, from, index);
      }
      if from.forward[0] !in db {
        return false, from;
      }
      next := db[from.forward[0]];
      stored := RepairOne(next, chain);
    }

    method RepairOne(sb: SkipBlock, ghost chain: seq<SkipBlock>) returns (stored: bool)
      requires Ok()
      modifies this
      ensures Ok()
      ensures stored ==> IsAt(sb) && index == old(index) + 1
      ensures !stored ==> trie == old(trie) && index == old(index)
      ensures old(Comes(chain, sb)) ==> stored && Ahead(chain)
    {
      if sb.body == None {
        return false;
      }
      var c := ComputeNext(sb, chain);
      if index + 1 != sb.index {
        return false;
      }
      stored := StoreComputed(sb, c, chain);
    }

    method ComputeNext(sb: SkipBlock, ghost chain: seq<SkipBlock>) returns (c: Computed)
      requires Ok() && sb.body.Some?
      modifies this`cache, this`origins
      ensures Ok()
      ensures c == old(Served(sb.header.info, trie, sb.body.value))
      ensures old(Comes(chain, sb)) ==> Leads(env, chain, sb, trie, index, c, Cached())
    {
      ghost var before := Cached();
      if ComesAt(env, chain, trie, index, before, sb) {
        ComesMisses(env, chain, trie, index, before, sb);
      }
      var sst;
      c, sst := CreateStateChanges(trie, sb.body.value, sb.header.info);
      if ComesAt(env, chain, trie, index, before, sb) {
        ComesLeads(env, chain, trie, index, before, sb, c, Cached());
      }
    }

    /** It is ahead, and this is the next block. */
    ghost predicate Comes(chain: seq<SkipBlock>, sb: SkipBlock)
      reads this
    {
      Ok() && ComesAt(env, chain, trie, index, Cached(), sb)
    }

    /** The trie is that of block `from` of such a chain, all of whose blocks are stored. */
    ghost predicate Going(db: map<BlockID, SkipBlock>, chain: seq<SkipBlock>, from: SkipBlock)
      reads this
    {
      Ahead(chain) && OnChain(db, chain, from, index) && from.header.trieRoot == Hash(env.cfg.nonce, trie)
    }

    /** The node is on a verified chain whose blocks have different digests, and its cache
        holds no result of a block to come. */
    ghost predicate Ahead(chain: seq<SkipBlock>)
      reads this
    {
      Ok() && AheadAt(env, chain, trie, index, Cached())
    }

    ghost function Cached(): (d: Option<TxDigest>)
      reads this
    {
      if scID in cache then Some(cache[scID].digest) else None
    }

    /** The trie has the root and the index of the block. */
    ghost predicate IsAt(sb: SkipBlock)
      reads this
    {
      Hash(env.cfg.nonce, trie) == sb.header.trieRoot && index == sb.index
    }

    /** fixInconsistencyIfAny: nothing to do if the latest block has the root of the trie;
        else back along the links to the first block that has it, and repair from there. On
        the stored blocks of a chain this succeeds exactly if the trie is already there, or
        no block after the one of its index has its root. */
    method FixInconsistencyIfAny(db: map<BlockID, SkipBlock>, latest: SkipBlock, ghost top: nat, ghost chain: seq<SkipBlock>)
        returns (ok: bool, ghost back: seq<SkipBlock>, ghost path: seq<SkipBlock>)
      requires Ok() && forall id :: id in db ==> db[id].index <= top
      requires BackLinksDecrease(db, latest)
      modifies this
      ensures Ok() && BackPath(db, latest, back)
      ensures ok && |back| == 1 ==> trie == old(trie) && index == old(index) && latest.header.trieRoot == Hash(env.cfg.nonce, trie)
      ensures ok && |back| > 1 ==>
        && back[|back| - 1].header.trieRoot == Hash(env.cfg.nonce, old(trie))
        && LevelZeroPath(db, back[|back| - 1], path)
        && IsAt(path[|path| - 1]) && path[|path| - 1].forward == []
      ensures old(Fixable(db, latest, chain)) ==> (ok <==> old(NoOtherRoot(latest, chain)))
    {
      back, path := [latest], [latest];
      var root := Hash(env.cfg.nonce, trie);
      if latest.header.trieRoot == root {
        return true, back, path;
      }
      if Fixable(db, latest, chain) {
        FixableRoot(db, latest, chain);
      }
      var found, curr;
      found, curr, back := WalkBack(db, latest, root, chain, index);
      if !found {
        return false, back, path;
      }
      ok, path := RepairFrom(db, curr, top, chain);
    }

    /** Repairing from a block of the chain that has the root of the trie. */
    method RepairFrom(db: map<BlockID, SkipBlock>, start: SkipBlock, ghost top: nat, ghost chain: seq<SkipBlock>)
        returns (ok: bool, ghost path: seq<SkipBlock>)
      requires Ok() && forall id :: id in db ==> db[id].index <= top
      requires start.header.trieRoot == Hash(env.cfg.nonce, trie)
      modifies this
      ensures Ok() && LevelZeroPath(db, start, path)
      ensures ok ==> IsAt(path[|path| - 1]) && path[|path| - 1].forward == []
      ensures old(Ahead(chain)) && LastWith(db, chain, old(index), start, Hash(env.cfg.nonce, old(trie))) ==>
        (ok <==> OnlyRoot(chain, old(index), Hash(env.cfg.nonce, old(trie))))
    {
      ghost var root, k := Hash(env.cfg.nonce, trie), index;
      if LastWith(db, chain, k, start, root) {
        StartHasNext(db, chain, start);
        OnlyRootMoves(chain, k, start.index, root);
      }
      ok, path := RepairStateTrie(db, start, top, chain);
      if LastWith(db, chain, k, start, root) {
        StartsAtIndex(db, chain, start.index, path, k, index, ok);
      }
    }

    ghost predicate NoOtherRoot(latest: SkipBlock, chain: seq<SkipBlock>)
      reads this
    {
      latest.header.trieRoot == Hash(env.cfg.nonce, trie) || OnlyRoot(chain, index, Hash(env.cfg.nonce, trie))
    }

    ghost predicate Fixable(db: map<BlockID, SkipBlock>, latest: SkipBlock, chain: seq<SkipBlock>)
      reads this
    {
      Ahead(chain) && Complete(db, chain) && 0 <= index && latest == chain[|chain| - 1]
    }

    lemma FixableRoot(db: map<BlockID, SkipBlock>, latest: SkipBlock, chain: seq<SkipBlock>)
      requires Fixable(db, latest, chain)
      ensures RootOnChain(db, latest, chain, index, Hash(env.cfg.nonce, trie))
    {
      AheadRoot(env, chain, trie, index, Cached());
    }

    /** The walk back to a block with the root. `k` is a block of the chain that has it. */
    method WalkBack(db: map<BlockID, SkipBlock>, latest: SkipBlock, root: Digest, ghost chain: seq<SkipBlock>, ghost k: int)
        returns (found: bool, curr: SkipBlock, ghost back: seq<SkipBlock>)
      requires BackLinksDecrease(db, latest) && latest.header.trieRoot != root
      ensures BackPath(db, latest, back) && curr == back[|back| - 1]
      ensures found ==> curr.header.trieRoot == root && |back| > 1
      ensures RootOnChain(db, latest, chain, k, root) ==>
        found && LastWith(db, chain, k, curr, root)
    {
      curr, back := latest, [latest];
      while curr.header.trieRoot != root
        invariant BackLinksDecrease(db, curr) && BackPath(db, latest, back) && back[|back| - 1] == curr
        invariant curr.header.trieRoot == root ==> |back| > 1
        invariant RootOnChain(db, latest, chain, k, root) ==>
          OnChain(db, chain, curr, curr.index) && k <= curr.index && OnlyRoot(chain, curr.index, root)
        invariant RootOnChain(db, latest, chain, k, root) && curr.header.trieRoot == root ==> curr.index < |chain| - 1
        decreases curr.index
      {
        if RootOnChain(db, latest, chain, k, root) {
          BackOnce(db, chain, curr, k, root);
        }
        if curr.back == None || curr.back.value !in db {
          return false, curr, back;
        }
        BackOneMore(db, latest, back);
        curr := db[curr.back.value];
        back := back + [curr];
      }
      found := true;
    }
  }

  /** The chain is stored up to its latest block, and its block `k` has the root. */
  ghost predicate RootOnChain(db: map<BlockID, SkipBlock>, latest: SkipBlock, chain: seq<SkipBlock>, k: int, root: Digest) {
    Complete(db, chain) && latest == chain[|chain| - 1] && 0 <= k < |chain| && chain[k].header.trieRoot == root
  }

  lemma BackOnce(db: map<BlockID, SkipBlock>, chain: seq<SkipBlock>, sb: SkipBlock, k: int, root: Digest)
    requires OnChain(db, chain, sb, sb.index) && 0 <= k <= sb.index && chain[k].header.trieRoot == root != sb.header.trieRoot
    requires OnlyRoot(chain, sb.index, root)
    ensures sb.back.Some? && sb.back.value in db
    ensures
      var prev := db[sb.back.value];
      && OnChain(db, chain, prev, prev.index) && k <= prev.index < |chain| - 1 && OnlyRoot(chain, prev.index, root)
  {
    var i := sb.index;
    assert k < i && db[chain[i].back.value] == chain[i - 1] && chain[i - 1].index == i - 1;
  }

  /** The last block of the chain with the root: not before `k`, and not the latest. */
  ghost predicate LastWith(db: map<BlockID, SkipBlock>, chain: seq<SkipBlock>, k: int, sb: SkipBlock, root: Digest) {
    && OnChain(db, chain, sb, sb.index) && 0 <= k <= sb.index < |chain| - 1
    && sb.header.trieRoot == root && OnlyRoot(chain, sb.index, root)
  }

  lemma OnlyRootMoves(chain: seq<SkipBlock>, k: int, m: nat, root: Digest)
    requires 0 <= k <= m < |chain| && chain[m].header.trieRoot == root && OnlyRoot(chain, m, root)
    ensures OnlyRoot(chain, k, root) <==> m == k
  {
  }

  lemma StartHasNext(db: map<BlockID, SkipBlock>, chain: seq<SkipBlock>, sb: SkipBlock)
    requires OnChain(db, chain, sb, sb.index) && sb.index < |chain| - 1
    ensures sb.forward != []
  {
  }

  // --------------------------------------------------------- paths through blocks

  /** A walk from `start` along the level-0 links. */
  ghost predicate LevelZeroPath(db: map<BlockID, SkipBlock>, start: SkipBlock, path: seq<SkipBlock>) {
    && path != [] && path[0] == start
    && forall i :: 0 <= i < |path| - 1 ==>
         path[i].forward != [] && path[i].forward[0] in db && db[path[i].forward[0]] == path[i + 1]
  }

  lemma PathOneMore(db: map<BlockID, SkipBlock>, start: SkipBlock, path: seq<SkipBlock>)
    requires LevelZeroPath(db, start, path)
    requires var last := path[|path| - 1]; last.forward != [] && last.forward[0] in db
    ensures LevelZeroPath(db, start, path + [db[path[|path| - 1].forward[0]]])
  {
  }

  /** A walk from `start` along the first back links. */
  ghost predicate BackPath(db: map<BlockID, SkipBlock>, start: SkipBlock, path: seq<SkipBlock>) {
    && path != [] && path[0] == start
    && forall i :: 0 <= i < |path| - 1 ==>
         path[i].back.Some? && path[i].back.value in db && db[path[i].back.value] == path[i + 1]
  }

  lemma BackOneMore(db: map<BlockID, SkipBlock>, start: SkipBlock, path: seq<SkipBlock>)
    requires BackPath(db, start, path)
    requires var last := path[|path| - 1]; last.back.Some? && last.back.value in db
    ensures BackPath(db, start, path + [db[path[|path| - 1].back.value]])
  {
  }

  /** The schedule is the blocks of the chain after `index`. */
  ghost predicate InOrder(schedule: seq<SkipBlock>, chain: seq<SkipBlock>, index: int) {
    |schedule| == |chain| - index - 1 && forall i :: 0 <= i < |schedule| && 0 <= index + 1 + i < |chain| ==> schedule[i] == chain[index + 1 + i]
  }

  lemma InOrderNext(schedule: seq<SkipBlock>, chain: seq<SkipBlock>, index: int, i: nat)
    requires InOrder(schedule, chain, index) && -1 <= index && i < |schedule|
    ensures index + i + 1 < |chain| && schedule[i] == chain[index + i + 1]
  {
  }

  function DigestOf(sb: SkipBlock): (d: TxDigest)
  {
    HashResults(sb.header.info.version, if sb.body.Some? then sb.body.value else [])
  }

  ghost predicate DigestsApart(chain: seq<SkipBlock>) {
    forall i, j :: 0 <= i < j < |chain| ==> DigestOf(chain[i]) != DigestOf(chain[j])
  }

  /** No block of the chain after `k` has this root. */
  ghost predicate OnlyRoot(chain: seq<SkipBlock>, k: int, root: Digest) {
    forall i :: 0 <= i < |chain| && k < i ==> chain[i].header.trieRoot != root
  }

  /** All blocks of the chain can be reached along the stored links, in both directions. */
  ghost predicate Complete(db: map<BlockID, SkipBlock>, chain: seq<SkipBlock>) {
    && chain != [] && chain[|chain| - 1].forward == []
    && (forall i :: 0 <= i < |chain| ==> chain[i].index == i)
    && (forall i :: 0 <= i < |chain| - 1 ==>
          chain[i].forward != [] && chain[i].forward[0] in db && db[chain[i].forward[0]] == chain[i + 1])
    && (forall i :: 1 <= i < |chain| ==>
          chain[i].back.Some? && chain[i].back.value in db && db[chain[i].back.value] == chain[i - 1])
  }

  ghost predicate OnChain(db: map<BlockID, SkipBlock>, chain: seq<SkipBlock>, sb: SkipBlock, index: int) {
    Complete(db, chain) && 0 <= index < |chain| && sb == chain[index]
  }

  lemma OnChainNext(db: map<BlockID, SkipBlock>, chain: seq<SkipBlock>, sb: SkipBlock, index: int)
    requires OnChain(db, chain, sb, index) && sb.forward != []
    ensures index + 1 < |chain| && sb.forward[0] in db && db[sb.forward[0]] == chain[index + 1]
    ensures OnChain(db, chain, chain[index + 1], index + 1)
  {
  }

  /** A trie is at block `index` of a verified chain whose blocks have different digests, and
      the cached digest, if any, is of no block to come. */
  ghost predicate AheadAt(env: Env, chain: seq<SkipBlock>, t: Tree, index: int, cached: Option<TxDigest>) {
    && Collisionless(env.cfg) && -1 <= index < |chain| && t == StateAfter(env, chain, index)
    && Verified(env, chain) && DigestsApart(chain)
    && (cached.Some? ==> NoneToCome(chain, index, cached.value))
  }

  ghost predicate NoneToCome(chain: seq<SkipBlock>, index: int, d: TxDigest) {
    forall j :: 0 <= j < |chain| && index < j ==> DigestOf(chain[j]) != d
  }

  lemma AheadRoot(env: Env, chain: seq<SkipBlock>, t: Tree, index: int, cached: Option<TxDigest>)
    requires AheadAt(env, chain, t, index, cached) && 0 <= index
    ensures chain[index].header.trieRoot == Hash(env.cfg.nonce, t)
  {
    VerifiedRootsMatch(env, chain);
  }

  ghost predicate ComesAt(env: Env, chain: seq<SkipBlock>, t: Tree, index: int, cached: Option<TxDigest>, sb: SkipBlock) {
    AheadAt(env, chain, t, index, cached) && index + 1 < |chain| && sb == chain[index + 1]
  }

  /** The computed changes are those of the block: they lead to its root and the state after
      it, and no cached result is in the way of the blocks behind it. */
  ghost predicate Leads(env: Env, chain: seq<SkipBlock>, sb: SkipBlock, t: Tree, index: int, c: Computed, cached: Option<TxDigest>)
    requires Ready(env, t)
  {
    && sb.index == index + 1 && Storable(c.states)
    && Hash(env.cfg.nonce, StoreAll(env, t, c.states)) == sb.header.trieRoot
    && AheadAt(env, chain, StoreAll(env, t, c.states), index + 1, cached)
  }

  /** The next block is not in the cache. */
  lemma ComesMisses(env: Env, chain: seq<SkipBlock>, t: Tree, index: int, cached: Option<TxDigest>, sb: SkipBlock)
    requires ComesAt(env, chain, t, index, cached, sb)
    ensures sb.index == index + 1 && sb.body.Some? && Ready(env, t) && cached != Some(HashResults(sb.header.info.version, sb.body.value))
  {
    assert DigestOf(sb) == HashResults(sb.header.info.version, sb.body.value);
  }

  /** Computing it reproduces its flags, its root and the state after it. */
  lemma ComesLeads(env: Env, chain: seq<SkipBlock>, t: Tree, index: int, cached: Option<TxDigest>, sb: SkipBlock, c: Computed,
                   cached': Option<TxDigest>)
    requires ComesAt(env, chain, t, index, cached, sb) && sb.body.Some? && Ready(env, t)
    requires c == Compute(env, sb.header.info, t, sb.body.value)
    requires cached' == cached || cached' == Some(HashResults(sb.header.info.version, c.txOut))
    ensures Leads(env, chain, sb, t, index, c, cached')
  {
    ComesState(env, chain, t, index, cached, sb, c.states);
    ReplaysIsVerifies(env, t, sb.header, sb.body.value);
    ComesDigest(chain, index, cached, sb, cached');
  }

  lemma ComesState(env: Env, chain: seq<SkipBlock>, t: Tree, index: int, cached: Option<TxDigest>, sb: SkipBlock, scs: seq<StateChange>)
    requires ComesAt(env, chain, t, index, cached, sb) && sb.body.Some? && Ready(env, t)
    requires scs == Compute(env, sb.header.info, t, sb.body.value).states
    ensures Storable(scs) && Hash(env.cfg.nonce, StoreAll(env, t, scs)) == sb.header.trieRoot
    ensures StoreAll(env, t, scs) == StateAfter(env, chain, sb.index) && sb.index == index + 1
  {
    VerifiedRootsMatch(env, chain);
    ChainAdmits(env, chain, sb, index, t, scs);
  }

  lemma ComesDigest(chain: seq<SkipBlock>, index: int, cached: Option<TxDigest>, sb: SkipBlock, cached': Option<TxDigest>)
    requires DigestsApart(chain) && -1 <= index < |chain| - 1 && sb == chain[index + 1]
    requires cached.Some? ==> NoneToCome(chain, index, cached.value)
    requires cached' == cached || cached' == Some(DigestOf(sb))
    ensures cached'.Some? ==> NoneToCome(chain, index + 1, cached'.value)
  {
  }

  /** A repair that starts at another block than the one of the trie's index does not
      arrive. */
  lemma StartsAtIndex(db: map<BlockID, SkipBlock>, chain: seq<SkipBlock>, m: nat, path: seq<SkipBlock>, before: int, after: int, ok: bool)
    requires Complete(db, chain) && m < |chain| && LevelZeroPath(db, chain[m], path)
    requires ok ==> path[|path| - 1].index == after && after == before + |path| - 1
    ensures ok ==> m == before
  {
    CompleteOnPath(db, chain, m, path, |path| - 1);
  }

  lemma {:induction false} CompleteOnPath(db: map<BlockID, SkipBlock>, chain: seq<SkipBlock>, k: nat, path: seq<SkipBlock>, i: nat)
    requires Complete(db, chain) && k < |chain| && LevelZeroPath(db, chain[k], path) && i < |path|
    ensures k + i < |chain| && path[i] == chain[k + i]
    decreases i
  {
    if i > 0 {
      CompleteOnPath(db, chain, k, path, i - 1);
    }
  }

  /** The stored links between blocks of the chain are those of the chain. */
  ghost predicate Holds(db: map<BlockID, SkipBlock>, chain: seq<SkipBlock>) {
    && (forall i :: 0 <= i < |chain| ==> chain[i].index == i)
    && (forall i :: 0 <= i < |chain| && chain[i].forward != [] && chain[i].forward[0] in db ==>
          i + 1 < |chain| && db[chain[i].forward[0]] == chain[i + 1])
    && (forall i :: 0 <= i < |chain| && chain[i].forward == [] ==> i == |chain| - 1)
    && (forall i :: 0 <= i < |chain| && chain[i].back.Some? && chain[i].back.value in db ==>
          i > 0 && db[chain[i].back.value] == chain[i - 1])
  }

  lemma {:induction false} PathOnChain(db: map<BlockID, SkipBlock>, chain: seq<SkipBlock>, k: nat, path: seq<SkipBlock>, i: nat)
    requires Holds(db, chain) && k < |chain| && LevelZeroPath(db, chain[k], path) && i < |path|
    ensures k + i < |chain| && path[i] == chain[k + i]
    decreases i
  {
    if i > 0 {
      PathOnChain(db, chain, k, path, i - 1);
    }
  }

  lemma {:induction false} BackOnChain(db: map<BlockID, SkipBlock>, chain: seq<SkipBlock>, k: nat, path: seq<SkipBlock>, i: nat)
    requires Holds(db, chain) && k < |chain| && BackPath(db, chain[k], path) && i < |path|
    ensures i <= k && path[i] == chain[k - i]
    decreases i
  {
    if i > 0 {
      BackOnChain(db, chain, k, path, i - 1);
    }
  }

  /** What a successful repair means: a node whose blocks are those of a chain with matching
      roots has the state after the whole chain, and its index. */
  lemma RepairedIsChain(env: Env, db: map<BlockID, SkipBlock>, chain: seq<SkipBlock>,
                        back: seq<SkipBlock>, path: seq<SkipBlock>, t: Tree)
    requires Collisionless(env.cfg) && RootsMatch(env, chain) && Holds(db, chain) && chain != []
    requires BackPath(db, chain[|chain| - 1], back) && LevelZeroPath(db, back[|back| - 1], path)
    requires path[|path| - 1].forward == [] && Hash(env.cfg.nonce, t) == path[|path| - 1].header.trieRoot
    ensures path[|path| - 1] == chain[|chain| - 1]
    ensures t == StateAfter(env, chain, |chain| - 1)
  {
    WalksEndAtLatest(db, chain, back, path);
    RootIsState(env, chain, |chain| - 1, t);
  }

  lemma WalksEndAtLatest(db: map<BlockID, SkipBlock>, chain: seq<SkipBlock>, back: seq<SkipBlock>, path: seq<SkipBlock>)
    requires Holds(db, chain) && chain != []
    requires BackPath(db, chain[|chain| - 1], back) && LevelZeroPath(db, back[|back| - 1], path)
    requires path[|path| - 1].forward == []
    ensures path[|path| - 1] == chain[|chain| - 1]
  {
    BackOnChain(db, chain, |chain| - 1, back, |back| - 1);
    PathOnChain(db, chain, |chain| - |back|, path, |path| - 1);
  }

  lemma RootIsState(env: Env, chain: seq<SkipBlock>, n: nat, t: Tree)
    requires Collisionless(env.cfg) && RootsMatch(env, chain) && n < |chain|
    requires Hash(env.cfg.nonce, t) == chain[n].header.trieRoot
    ensures t == StateAfter(env, chain, n)
  {
    HashInjective(env.cfg.nonce, t, Fold(env, chain[..n + 1]));
  }

  // ---------------------------------------------------------------- whole replays

  /** What a replay makes of the block `sb` and at most `n - 1` more. A block without a
      payload is passed over; a missing one is an error. */
  ghost function Replayed(env: Env, db: map<BlockID, SkipBlock>, sb: SkipBlock, st: Tree, index: int, n: nat)
      : (r: Option<(Tree, int)>)
    requires Ready(env, st)
    decreases n
  {
    if n == 0 then Some((st, index))
    else if sb.body.Some? && !Replays(env, st, sb.header, sb.body.value) then None
    else
      var st' := Block(env, sb.header.info, st, BodyOrEmpty(sb)).state;
      var index' := if sb.body.Some? then sb.index else index;
      if sb.forward == [] then Some((st', index'))
      else if sb.forward[0] !in db then None
      else Replayed(env, db, db[sb.forward[0]], st', index', n - 1)
  }

  /** `chain` is what the level-0 links lead through, and it ends. */
  ghost predicate IsChain(db: map<BlockID, SkipBlock>, chain: seq<SkipBlock>) {
    && chain != []
    && (forall i :: 0 <= i < |chain| ==> chain[i].index == i)
    && (forall i :: 0 <= i < |chain| - 1 ==>
          chain[i].forward != [] && chain[i].forward[0] in db && db[chain[i].forward[0]] == chain[i + 1])
    && chain[|chain| - 1].forward == []
  }

  ghost predicate BackLinksDecrease(db: map<BlockID, SkipBlock>, sb: SkipBlock) {
    && (sb.back.Some? && sb.back.value in db ==> db[sb.back.value].index < sb.index)
    && (forall id :: id in db && db[id].back.Some? && db[id].back.value in db ==>
          db[db[id].back.value].index < db[id].index)
  }

  /** Changes that lead to a block's root lead to the state after it, and the block's own
      changes do. */
  lemma ChainAdmits(env: Env, chain: seq<SkipBlock>, sb: SkipBlock, last: int, base: Tree, scs: seq<StateChange>)
    requires Collisionless(env.cfg) && RootsMatch(env, chain) && -1 <= last && sb.index == last + 1 < |chain| && chain[sb.index] == sb
    requires base == StateAfter(env, chain, last)
    ensures Hash(env.cfg.nonce, StoreAll(env, base, scs)) == sb.header.trieRoot ==>
      StoreAll(env, base, scs) == StateAfter(env, chain, sb.index)
    ensures scs == Compute(env, sb.header.info, base, sb.body.value).states ==>
      Storable(scs) && Hash(env.cfg.nonce, StoreAll(env, base, scs)) == sb.header.trieRoot
  {
    assert chain[..last + 1] == chain[..sb.index];
    ChainAdmitsBlock(env, chain, sb.index);
    if Hash(env.cfg.nonce, StoreAll(env, base, scs)) == sb.header.trieRoot {
      RootAdmitsOnlyChain(env, chain, sb.index, scs);
    }
  }

  ghost predicate AllReplay(env: Env, chain: seq<SkipBlock>, k: nat, n: nat)
    requires Collisionless(env.cfg) && n <= |chain|
  {
    forall i :: k <= i < n && chain[i].body.Some? ==>
      Replays(env, Fold(env, chain[..i]), chain[i].header, chain[i].body.value)
  }

  /** On a chain a replay reports no error exactly if every block it visits replays, and then
      it has rebuilt the state after them; with a payload in each it also has their index. */
  lemma {:induction false} ReplayedIsFold(env: Env, db: map<BlockID, SkipBlock>, chain: seq<SkipBlock>,
                                          k: nat, index: int, n: nat, m: nat)
    requires Collisionless(env.cfg) && IsChain(db, chain) && k < |chain|
    requires m == if k + n < |chain| then k + n else |chain|
    ensures
      var r := Replayed(env, db, chain[k], Fold(env, chain[..k]), index, n);
      && (r.Some? <==> AllReplay(env, chain, k, m))
      && (r.Some? ==> r.value.0 == Fold(env, chain[..m]))
      && (r.Some? && m > k && chain[m - 1].body.Some? ==> r.value.1 == m - 1)
    decreases n
  {
    if n > 0 {
      var next, less, index' := k + 1, n - 1, if chain[k].body.Some? then k else index;
      ReplayedStep(env, db, chain, k, next, index, n, less);
      AllReplaySplit(env, chain, k, next, m);
      if next < |chain| {
        ReplayedIsFold(env, db, chain, next, index', less, m);
      }
    }
  }

  lemma AllReplaySplit(env: Env, chain: seq<SkipBlock>, k: nat, next: nat, m: nat)
    requires Collisionless(env.cfg) && k < m <= |chain| && next == k + 1
    ensures AllReplay(env, chain, k, m) <==>
      && (chain[k].body.Some? ==> Replays(env, Fold(env, chain[..k]), chain[k].header, chain[k].body.value))
      && AllReplay(env, chain, next, m)
  {
  }

  lemma ReplayedStep(env: Env, db: map<BlockID, SkipBlock>, chain: seq<SkipBlock>, k: nat, next: nat, index: int, n: nat, less: nat)
    requires Collisionless(env.cfg) && IsChain(db, chain) && k < |chain| && next == k + 1 && n == less + 1
    ensures
      var index' := if chain[k].body.Some? then k else index;
      Replayed(env, db, chain[k], Fold(env, chain[..k]), index, n) ==
        if chain[k].body.Some? && !Replays(env, Fold(env, chain[..k]), chain[k].header, chain[k].body.value) then None
        else if next == |chain| then Some((Fold(env, chain[..next]), index'))
        else Replayed(env, db, chain[next], Fold(env, chain[..next]), index', less)
  {
    FoldStep(env, chain, k);
  }

  /** A chain of verified blocks replays without an error into the state of a node that
      has followed it to the end. */
  lemma VerifiedChainReplays(env: Env, db: map<BlockID, SkipBlock>, chain: seq<SkipBlock>, n: nat)
    requires Collisionless(env.cfg) && IsChain(db, chain) && Verified(env, chain) && n >= |chain|
    requires Ready(env, NewTrie())
    ensures Replayed(env, db, chain[0], NewTrie(), -1, n) == Some((StateAfter(env, chain, |chain| - 1), |chain| - 1))
  {
    forall i | 0 <= i < |chain|
      ensures Replays(env, Fold(env, chain[..i]), chain[i].header, chain[i].body.value)
    {
      ReplaysIsVerifies(env, Fold(env, chain[..i]), chain[i].header, chain[i].body.value);
    }
    assert chain[..0] == [];
    ReplayedIsFold(env, db, chain, 0, -1, n, |chain|);
  }
}
