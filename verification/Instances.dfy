/** Instances of what the other modules only assume: a key hash without collisions, counter
    keys that stay apart, value instances of a store, and blocks that meet the conditions on
    version numbers. */
module Instances {
  import opened Types
  import opened Encoding
  import opened Merkle
  import opened Ledger
  import Hashing
  import Counters
  import Versions
  import History
  import Service
  import BEvm
  import SkipchainProof

  // ------------------------------------------------------------------ the key bits

  function Pow2(k: nat): (p: nat)
  {
    if k == 0 then 1 else 2 * Pow2(k - 1)
  }

  function BitsOf(n: nat, k: nat): (r: Bits)
    ensures |r| == k
  {
    if k == 0 then [] else [n % 2 == 1] + BitsOf(n / 2, k - 1)
  }

  lemma {:induction false} BitsInjective(m: nat, n: nat, k: nat)
    requires m < Pow2(k) && n < Pow2(k) && BitsOf(m, k) == BitsOf(n, k)
    ensures m == n
    decreases k
  {
    if k > 0 {
      assert BitsOf(m, k)[0] == BitsOf(n, k)[0];
      assert BitsOf(m, k)[1..] == BitsOf(m / 2, k - 1) && BitsOf(n, k)[1..] == BitsOf(n / 2, k - 1);
      BitsInjective(m / 2, n / 2, k - 1);
    }
  }

  function KeyBits(k: Bytes): (r: Bits)
    ensures |r| == 8 * |k|
  {
    if k == [] then [] else BitsOf(k[0] as int, 8) + KeyBits(k[1..])
  }

  lemma {:induction false} KeyBitsInjective(a: Bytes, b: Bytes)
    requires |a| == |b| && KeyBits(a) == KeyBits(b)
    ensures a == b
    decreases |a|
  {
    if a != [] {
      var x, y := KeyBits(a), KeyBits(b);
      assert x[..8] == BitsOf(a[0] as int, 8) && y[..8] == BitsOf(b[0] as int, 8);
      assert x[8..] == KeyBits(a[1..]) && y[8..] == KeyBits(b[1..]);
      assert Pow2(4) == 16 && Pow2(8) == 256;
      BitsInjective(a[0] as int, b[0] as int, 8);
      KeyBitsInjective(a[1..], b[1..]);
      assert a == [a[0]] + a[1..] && b == [b[0]] + b[1..];
    }
  }

  function PlainConfig(): (cfg: Config)
  {
    Config((k: InstanceID) => KeyBits(k), [])
  }

  lemma PlainCollisionless()
    ensures Collisionless(PlainConfig()) && ValidTrie(PlainConfig(), NewTrie())
  {
    var cfg := PlainConfig();
    forall a: InstanceID, b: InstanceID | cfg.bits(a) == cfg.bits(b) ensures a == b {
      KeyBitsInjective(a, b);
    }
  }

  // ------------------------------------------------------------- padded identifiers

  function Zeros(n: nat): (b: Bytes)
    ensures |b| == n
  {
    seq(n, _ => 0)
  }

  /** A byte string of less than 32 bytes, behind its length. */
  function Pad(b: Bytes): (id: InstanceID)
  {
    if |b| < 32 then [|b| as byte] + b + Zeros(31 - |b|) else Zeros(32)
  }

  lemma PadInjective(a: Bytes, b: Bytes)
    requires |a| < 32 && |b| < 32 && Pad(a) == Pad(b)
    ensures a == b
  {
    assert Pad(a)[0] == |a| as byte && Pad(b)[0] == |b| as byte;
    assert Pad(a)[1..1 + |a|] == a && Pad(b)[1..1 + |b|] == b;
  }

  /** Fewer than 32 characters, each a byte. */
  predicate Short(s: string) {
    |s| < 32 && Hashing.ByteString(s)
  }

  // ---------------------------------------------------------------- signer counters

  /** Contracts that create the instance they are invoked on, if its ID is not short. */
  function ShortEnv(): (env: Env)
  {
    Env(PlainConfig(),
        (t, info, instr: Instruction, cin, h) =>
          Some((if instr.payload.Spawn? && instr.id[0] >= 32 then [StateChange(Create, instr.id, "", [], 0, [])] else [], cin)),
        {}, b => None, (i, n) => [], s => Pad(Raw(s)))
  }

  lemma ShortApart(ids: set<string>)
    requires forall s :: s in ids ==> Short(s)
    ensures Counters.CountersApart(ShortEnv(), ids)
  {
    var env := ShortEnv();
    forall a, b | a in ids && b in ids && env.counterKey(a) == env.counterKey(b) ensures a == b {
      PadInjective(Raw(a), Raw(b));
      Hashing.RawExactly(a, b);
    }
  }

  function SignedOnce(): (i: Instruction)
  {
    Instruction(Zeros(32), NoPayload, ["a"], [], [1], [], false)
  }

  lemma SignedOnceSteps(info: BlockInfo, h: TxHash)
    ensures Ready(ShortEnv(), NewTrie()) && Step(ShortEnv(), info, h, NewTrie(), [], SignedOnce()).Stepped?
  {
    PlainCollisionless();
    var env, t, instr := ShortEnv(), NewTrie(), SignedOnce();
    assert env.contract(t, info, instr, [], h) == Some(([], []));
    assert Number(env, t, [], 0) == Some(([], map[]));
    assert CounterChanges(env, t, instr.signers[..0]) == Some([]);
    assert SignerCounter(env, t, "a") == Some(0);
    assert Check(env, t, instr, [], 0) == Some(CheckState(t, [], 0));
  }

  /** The first instruction of a signer is expected in the empty state and, once accepted,
      not expected again. */
  lemma ReplayRefused(info: BlockInfo, h: TxHash)
    ensures
      var env, instr := ShortEnv(), SignedOnce();
      && Ready(env, NewTrie()) && Step(env, info, h, NewTrie(), [], instr).Stepped?
      && Counters.CountersMatch(env, NewTrie(), s => true, instr.counters, instr.signers)
      && !Counters.CountersMatch(env, Step(env, info, h, NewTrie(), [], instr).state, s => true, instr.counters, instr.signers)
  {
    SignedOnceSteps(info, h);
    ShortApart({"a"});
    RefusedNext(ShortEnv(), {"a"}, info, h, NewTrie(), SignedOnce(), s => true);
  }

  lemma RefusedNext(env: Env, ids: set<string>, info: BlockInfo, h: TxHash, t: Tree, instr: Instruction, primary: string -> bool)
    requires Ready(env, t) && Counters.CountersApart(env, ids) && Counters.Within(instr.signers, ids) && instr.signers != []
    requires Step(env, info, h, t, [], instr).Stepped? && Counters.CountersMatch(env, t, primary, instr.counters, instr.signers)
    ensures !Counters.CountersMatch(env, Step(env, info, h, t, [], instr).state, primary, instr.counters, instr.signers)
  {
    var t' := Step(env, info, h, t, [], instr).state;
    var ex := [Counters.Executed(info, h, [], instr)];
    assert ex[1..] == [];
    assert Counters.Reaches(Counters.Does(env), t, ex, t');
    assert Counters.Signed(ex, instr.signers[0]) == 1;
    Counters.NoReplayBeforeWrap(env, ids, t, ex, t', primary, 0, instr, 0);
  }

  // -------------------------------------------------------------------- termination

  ghost predicate GeneratesNone(step: Stepper) {
    forall t, cin, instr :: step(t, cin, instr).Stepped? ==> step(t, cin, instr).generated == []
  }

  lemma {:induction false} RunsOut(step: Stepper, t: Tree, queue: Instructions, cin: seq<Coin>)
    requires GeneratesNone(step)
    ensures !Run(step, t, queue, cin, |queue|).Unfinished?
    decreases |queue|
  {
    if queue != [] {
      var s := step(t, cin, queue[0]);
      if s.Stepped? {
        assert s.generated + queue[1..] == queue[1..];
        RunsOut(step, s.state, queue[1..], s.coins);
      }
    }
  }

  lemma {:induction false} ChecksNone(env: Env, t: Tree, instr: Instruction, scs: seq<StateChange>, n: nat)
    requires Ready(env, t) && n <= |scs| && Check(env, t, instr, scs, n).Some? && forall b :: env.decode(b).None?
    ensures Check(env, t, instr, scs, n).value.generated == []
    decreases n
  {
    if n > 0 {
      ChecksNone(env, t, instr, scs, n - 1);
    }
  }

  /** Where no generated instruction decodes, no transaction runs for ever. */
  lemma Terminates(env: Env)
    requires forall b :: env.decode(b).None?
    ensures Service.Terminating(env)
  {
    forall info, t, tx | Ready(env, t) ensures Finishes(env, info, t, tx) {
      var h := HashInstructions(info.version, tx);
      StepsGenerateNone(env, info, h);
      RunsOut(Steps(env, info, h), t, tx, []);
    }
  }

  lemma StepsGenerateNone(env: Env, info: BlockInfo, h: TxHash)
    requires forall b :: env.decode(b).None?
    ensures GeneratesNone(Steps(env, info, h))
  {
    forall t, cin, instr | Ready(env, t) && Step(env, info, h, t, cin, instr).Stepped?
      ensures Step(env, info, h, t, cin, instr).generated == []
    {
      var scs := ExecuteInstruction(env, info, t, cin, instr, h).value.0;
      ChecksNone(env, t, instr, scs, |scs|);
    }
  }

  // ----------------------------------------------------------------- version numbers

  /** In the empty state, the block that creates an instance twice meets all conditions on
      blocks, and its lives do not fit. */
  lemma CreatedTwiceIsPlain(x: InstanceID, info: BlockInfo)
    ensures
      var env := Versions.ToggleEnv(PlainConfig(), x);
      var txs := [TxResult([Versions.Toggle(false, x), Versions.Toggle(true, x), Versions.Toggle(false, x)], false)];
      History.Plain(env, {}, info, NewTrie(), txs) && !Versions.EachFits(env, {}, info, NewTrie(), txs)
  {
    PlainCollisionless();
    var env := Versions.ToggleEnv(PlainConfig(), x);
    var txs := [TxResult([Versions.Toggle(false, x), Versions.Toggle(true, x), Versions.Toggle(false, x)], false)];
    Versions.CreatedTwice(PlainConfig(), x, info, NewTrie());
    RoomInNewTrie(env, 3);
    Unsigned(x);
    Versions.BlockKeysExactly(env, {}, info, NewTrie(), txs);
  }

  lemma RoomInNewTrie(env: Env, n: nat)
    requires Ready(env, NewTrie()) && n + 1 < TWO_TO_THE_64
    ensures Versions.Room(env, {}, NewTrie(), n)
  {
    assert forall id: InstanceID :: Versions.Stored(env, {}, NewTrie(), id).None?;
  }

  lemma Unsigned(x: InstanceID)
    ensures Versions.Signs([Versions.Toggle(false, x), Versions.Toggle(true, x), Versions.Toggle(false, x)], {})
  {
  }

  // ------------------------------------------------------------------ value instances

  function TrieOf(m: BEvm.Store): (t: BEvm.Trie)
    requires forall a, b :: a in m && b in m && Pad(a) == Pad(b) ==> a == b
  {
    map k | k in m :: Pad(k) := m[k]
  }

  /** A database can start on any store whose keys are short, with any short keys to come. */
  lemma DatabaseCanStart(m: BEvm.Store, ks: set<Bytes>)
    requires m.Keys <= ks && forall k :: k in ks ==> |k| < 32
    ensures BEvm.Injective(Pad, ks)
    ensures (forall a, b :: a in m && b in m && Pad(a) == Pad(b) ==> a == b) && BEvm.Agree(Pad, ks, TrieOf(m), m)
  {
    forall a, b | a in ks && b in ks && Pad(a) == Pad(b) ensures a == b {
      PadInjective(a, b);
    }
    forall k | k in ks ensures BEvm.At(TrieOf(m), Pad(k)) == if k in m then Some(m[k]) else None {
    }
  }

  // -------------------------------------------------------------------- a skipchain

  function TwoHeader(): (h: SkipchainProof.Header)
  {
    SkipchainProof.Header(Some(Hash([], NewTrie())))
  }

  function TwoFixed(index: nat): (f: SkipchainProof.Fixed)
  {
    SkipchainProof.Fixed(index, Some([9]), 0, Some(TwoHeader()))
  }

  /** Two blocks of one roster with a link between them, which is all that the roster signs. */
  function TwoBlocks(): (db: SkipchainProof.DB)
  {
    map[[0] := SkipchainProof.Block(TwoFixed(0), [0], [SkipchainProof.ForwardLink([0], [1], None, [0, 1], [])]),
        [1] := SkipchainProof.Block(TwoFixed(1), [1], [])]
  }

  function TwoCrypto(): (c: SkipchainProof.Crypto)
  {
    SkipchainProof.Crypto(
      (f: SkipchainProof.Fixed) => [(f.index % 256) as byte],
      (from, to, newRoster: Option<SkipchainProof.Roster>) => if newRoster.None? then from + to else [],
      (scheme, msg, sig, roster) => msg == [0, 1])
  }

  /** They meet what is assumed of a skipchain by the soundness of proofs ... */
  lemma TwoBlocksHonest()
    ensures SkipchainProof.Honest(TwoCrypto(), TwoBlocks()) && SkipchainProof.BlocksHashed(TwoCrypto(), TwoBlocks())
  {
    var c, db := TwoCrypto(), TwoBlocks();
    forall id, to, newRoster, sig, scheme |
      id in db && db[id].fixed.roster.Some? && c.check(scheme, c.linkHash(id, to, newRoster), sig, db[id].fixed.roster.value)
      ensures to in db && SkipchainProof.Continues(db[id], newRoster, db[to])
    {
      SignedOne(id, to);
    }
  }

  /** ... and by their completeness. */
  lemma TwoBlocksLinked()
    ensures SkipchainProof.WellFormed(TwoCrypto(), TwoBlocks(), 0) && SkipchainProof.NeverStuck(TwoBlocks(), 1)
  {
    var c, db := TwoCrypto(), TwoBlocks();
    TheLink();
    var a: Bytes, b: Bytes := [0], [1];
    assert db.Keys == {a, b};
    SkipchainProof.LevelZeroNeverStuck(db, 1);
  }

  lemma TheLink()
    ensures
      var first, second := TwoBlocks()[[0]], TwoBlocks()[[1]];
      && first.links[0].to == [1] && (forall l :: l in first.links ==> l == first.links[0]) && second.links == []
      && SkipchainProof.Links(TwoCrypto(), first, first.links[0], second, 0)
  {
    assert TwoCrypto().linkHash([0], [1], None) == [0] + [1] == [0, 1];
  }

  lemma TwoBlocksComplete()
    ensures SkipchainProof.Complete(TwoBlocks(), [[0], [1]], 0, 1)
  {
    var db, chain := TwoBlocks(), [[0], [1]];
    TheLink();
    assert chain[0] == [0] && chain[1] == [1];
  }

  lemma TwoBlocksRoots()
    ensures Collisionless(PlainConfig())
    ensures SkipchainProof.HoldsRoots(PlainConfig(), TwoBlocks(), map[[0] := NewTrie(), [1] := NewTrie()])
  {
    PlainCollisionless();
  }

  lemma SignedOne(id: Bytes, to: Bytes)
    requires id == [0] || id == [1]
    ensures id + to == [0, 1] ==> id == [0] && to == [1]
  {
    if id + to == [0, 1] {
      assert (id + to)[0] == id[0] && (id + to)[1..] == to;
    }
  }
}
