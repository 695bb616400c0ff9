/** Signer counters over whole histories: each accepted instruction raises the counter
    of each of its signers by one, so an instruction with checked counters is accepted
    again only after the counter has gone all the way round. */
module Counters {
  import opened Types
  import opened Encoding
  import opened Merkle
  import opened Ledger
  import opened Chain

  /** The counter keys of these signers are digests that do not collide, and no contract
      writes under them. */
  ghost predicate CountersApart(env: Env, ids: set<string>) {
    && (forall a, b :: a in ids && b in ids && env.counterKey(a) == env.counterKey(b) ==> a == b)
    && (forall t, info, instr, cin, h :: env.contract(t, info, instr, cin, h).Some? ==>
          forall sc :: sc in env.contract(t, info, instr, cin, h).value.0 ==> !IsCounterKey(env, ids, sc.id))
  }

  ghost predicate IsCounterKey(env: Env, ids: set<string>, id: InstanceID) {
    exists s :: s in ids && env.counterKey(s) == id
  }

  ghost predicate Within(signers: seq<string>, ids: set<string>) {
    forall s :: s in signers ==> s in ids
  }

  // ------------------------------------------------------------- verification

  /** verifySignerCounters: one counter per signer, each the successor of the stored one. */
  ghost predicate CountersMatch(env: Env, t: Tree, primary: string -> bool, counters: seq<uint64>, ids: seq<string>)
    requires Ready(env, t)
  {
    && |counters| == |ids|
    && forall i :: 0 <= i < |ids| ==>
      primary(ids[i]) && SignerCounter(env, t, ids[i]).Some? && counters[i] == Next64(SignerCounter(env, t, ids[i]).value)
  }

  method VerifySignerCounters(env: Env, t: Tree, primary: string -> bool, counters: seq<uint64>, ids: seq<string>)
      returns (ok: bool)
    requires Ready(env, t)
    ensures ok <==>
      && |counters| == |ids|
      && forall i :: 0 <= i < |ids| ==>
        primary(ids[i]) && SignerCounter(env, t, ids[i]).Some? && counters[i] == (SignerCounter(env, t, ids[i]).value + 1) % TWO_TO_THE_64
    ensures ok <==> CountersMatch(env, t, primary, counters, ids)
  {
    if |counters| != |ids| {
      return false;
    }
    var i := 0;
    while i < |counters|
      invariant 0 <= i <= |counters|
      invariant CountersMatch(env, t, primary, counters[..i], ids[..i])
    {
      var c := SignerCounter(env, t, ids[i]);
      if !primary(ids[i]) || c == None || counters[i] != Next64(c.value) {
        return false;
      }
      i := i + 1;
    }
    assert counters[..i] == counters && ids[..i] == ids;
    ok := true;
  }

  // ------------------------------------------------------------ one instruction

  lemma {:induction false} StoreAllElsewhere(env: Env, t: Tree, scs: seq<StateChange>, id: InstanceID)
    requires Ready(env, t) && forall sc :: sc in scs ==> sc.id != id
    ensures GetKey(env.cfg, StoreAll(env, t, scs), id) == GetKey(env.cfg, t, id)
    decreases |scs|
  {
    if scs != [] {
      StoreElsewhere(env, t, scs[0], id);
      StoreAllElsewhere(env, Store(env, t, scs[0]), scs[1..], id);
    }
  }

  lemma StoreElsewhere(env: Env, t: Tree, sc: StateChange, id: InstanceID)
    requires Ready(env, t) && sc.id != id
    ensures GetKey(env.cfg, Store(env, t, sc), id) == GetKey(env.cfg, t, id)
  {
  }

  lemma {:induction false} CounterChangesKeys(env: Env, t: Tree, signers: seq<string>)
    requires Ready(env, t) && CounterChanges(env, t, signers).Some?
    ensures forall sc :: sc in CounterChanges(env, t, signers).value ==>
      exists s :: s in signers && sc.id == env.counterKey(s)
    decreases |signers|
  {
    if signers != [] {
      var n := |signers| - 1;
      CounterChangesKeys(env, t, signers[..n]);
      assert signers[n] in signers && forall s :: s in signers[..n] ==> s in signers;
    }
  }

  /** Storing the counter changes, in any state whose counters are still those they
      were computed from, raises exactly the counters of the signers. */
  lemma {:induction false} CountersRaised(env: Env, ids: set<string>, t: Tree, u: Tree, signers: seq<string>, s: string)
    requires Ready(env, t) && Ready(env, u) && CountersApart(env, ids) && Within(signers, ids) && s in ids
    requires CounterChanges(env, t, signers).Some?
    ensures
      var u' := StoreAll(env, u, CounterChanges(env, t, signers).value);
      if s in signers then SignerCounter(env, t, s).Some?
                           && SignerCounter(env, u', s) == Some(Next64(SignerCounter(env, t, s).value))
      else SignerCounter(env, u', s) == SignerCounter(env, u, s)
    decreases |signers|
  {
    if signers != [] {
      var front, last := CounterChangesSplit(env, t, signers);
      var before, c := CounterChanges(env, t, front).value, SignerCounter(env, t, last).value;
      assert last in signers && forall x :: x in front ==> x in signers;
      CountersRaised(env, ids, t, u, front, s);
      StoreSnoc(env, u, before, CounterChange(env, last, c));
      StoreCounter(env, ids, StoreAll(env, u, before), last, c, s);
    }
  }

  lemma StoreCounter(env: Env, ids: set<string>, v: Tree, signer: string, c: uint64, s: string)
    requires Ready(env, v) && CountersApart(env, ids) && signer in ids && s in ids
    ensures
      var v' := Store(env, v, CounterChange(env, signer, c));
      SignerCounter(env, v', s) == if s == signer then Some(Next64(c)) else SignerCounter(env, v, s)
  {
    var sc := CounterChange(env, signer, c);
    if s != signer {
      StoreElsewhere(env, v, sc, env.counterKey(s));
    }
  }

  ghost predicate Raised(env: Env, t: Tree, t': Tree, instr: Instruction, s: string)
    requires Ready(env, t) && Ready(env, t')
  {
    if s in instr.signers then
      SignerCounter(env, t, s).Some? && SignerCounter(env, t', s) == Some(Next64(SignerCounter(env, t, s).value))
    else SignerCounter(env, t', s) == SignerCounter(env, t, s)
  }

  /** An accepted instruction raises each distinct signer's counter by one, modulo
      2^64, and no other counter. */
  lemma StepRaises(env: Env, ids: set<string>, info: BlockInfo, h: TxHash, t: Tree, cin: seq<Coin>, instr: Instruction, s: string)
    requires Ready(env, t) && CountersApart(env, ids) && Within(instr.signers, ids) && s in ids
    requires Step(env, info, h, t, cin, instr).Stepped?
    ensures Raised(env, t, Step(env, info, h, t, cin, instr).state, instr, s)
  {
    var (scs, _) := ExecuteInstruction(env, info, t, cin, instr, h).value;
    AvoidsCounters(env, ids, info, h, t, cin, instr, s);
    CheckStores(env, t, instr, scs, |scs|);
    assert scs[..|scs|] == scs;
    StoreAllElsewhere(env, t, scs, env.counterKey(s));
    CountersRaised(env, ids, t, StoreAll(env, t, scs), instr.signers, s);
  }

  lemma AvoidsCounters(env: Env, ids: set<string>, info: BlockInfo, h: TxHash, t: Tree, cin: seq<Coin>, instr: Instruction, s: string)
    requires Ready(env, t) && CountersApart(env, ids) && s in ids
    requires ExecuteInstruction(env, info, t, cin, instr, h).Some?
    ensures forall sc :: sc in ExecuteInstruction(env, info, t, cin, instr, h).value.0 ==> sc.id != env.counterKey(s)
  {
    var (raw, cout) := env.contract(t, info, instr, cin, h).value;
    var (scs, _) := ExecuteInstruction(env, info, t, cin, instr, h).value;
    NumberKeepsIds(env, t, raw, |raw|);
    assert IsCounterKey(env, ids, env.counterKey(s));
    forall sc | sc in scs ensures sc.id != env.counterKey(s) {
      var i :| 0 <= i < |scs| && scs[i] == sc;
      assert raw[i] in raw;
    }
  }

  lemma {:induction false} NumberKeepsIds(env: Env, t: Tree, raw: seq<StateChange>, n: nat)
    requires Ready(env, t) && n <= |raw| && Number(env, t, raw, n).Some?
    ensures forall i :: 0 <= i < n ==> Number(env, t, raw, n).value.0[i].id == raw[i].id
    decreases n
  {
    if n > 0 {
      NumberKeepsIds(env, t, raw, n - 1);
    }
  }

  // -------------------------------------------------------------- whole histories

  /** An instruction together with what it was executed with. */
  datatype Executed = Executed(info: BlockInfo, h: TxHash, cin: seq<Coin>, instr: Instruction)

  type Doer = (Tree, Executed) -> StepResult

  ghost function Does(env: Env): (do: Doer)
  {
    (t: Tree, e: Executed) => if Ready(env, t) then Step(env, e.info, e.h, t, e.cin, e.instr) else Failed
  }

  /** The accepted instructions `ex`, one after the other, lead from `t` to `t'`. */
  ghost predicate Reaches(do: Doer, t: Tree, ex: seq<Executed>, t': Tree)
    decreases |ex|
  {
    if ex == [] then t == t'
    else do(t, ex[0]).Stepped? && Reaches(do, do(t, ex[0]).state, ex[1..], t')
  }

  lemma {:induction false} ReachesConcat(do: Doer, t: Tree, ex: seq<Executed>, u: Tree, more: seq<Executed>, t': Tree)
    requires Reaches(do, t, ex, u) && Reaches(do, u, more, t')
    ensures Reaches(do, t, ex + more, t')
    decreases |ex|
  {
    if ex == [] {
      assert ex + more == more;
    } else {
      assert (ex + more)[1..] == ex[1..] + more;
      ReachesConcat(do, do(t, ex[0]).state, ex[1..], u, more, t');
    }
  }

  /** Two histories, of the instructions `a` and then `b`, are one. */
  lemma Join(do: Doer, t: Tree, ex: seq<Executed>, a: Instructions, u: Tree, more: seq<Executed>, b: Instructions, t': Tree)
      returns (all: seq<Executed>)
    requires Reaches(do, t, ex, u) && Own(Instrs(ex)) == Own(a)
    requires Reaches(do, u, more, t') && Own(Instrs(more)) == Own(b)
    ensures Reaches(do, t, all, t') && Own(Instrs(all)) == Own(a + b)
  {
    all := ex + more;
    ReachesConcat(do, t, ex, u, more, t');
    assert Instrs(ex + more) == Instrs(ex) + Instrs(more);
    OwnConcat(Instrs(ex), Instrs(more));
    OwnConcat(a, b);
  }

  /** The instructions of a transaction are done by the steps of its block. */
  ghost predicate Performs(do: Doer, step: Stepper, info: BlockInfo, h: TxHash) {
    forall t, cin, instr :: step(t, cin, instr) == do(t, Executed(info, h, cin, instr))
  }

  /** What the clients sent: not the instructions that contracts generated. */
  ghost function Own(instrs: Instructions): (r: Instructions)
  {
    if instrs == [] then [] else (if instrs[0].synthetic then [] else [instrs[0]]) + Own(instrs[1..])
  }

  lemma {:induction false} OwnConcat(a: Instructions, b: Instructions)
    ensures Own(a + b) == Own(a) + Own(b)
    decreases |a|
  {
    if a == [] {
      assert a + b == b;
    } else {
      assert (a + b)[1..] == a[1..] + b;
      OwnConcat(a[1..], b);
    }
  }

  lemma {:induction false} NoneOwn(a: Instructions)
    requires forall i :: i in a ==> i.synthetic
    ensures Own(a) == []
    decreases |a|
  {
    if a != [] {
      assert a[0] in a;
      NoneOwn(a[1..]);
    }
  }

  ghost function Instrs(ex: seq<Executed>): (r: Instructions)
    ensures |r| == |ex|
  {
    seq(|ex|, i requires 0 <= i < |ex| => ex[i].instr)
  }

  ghost predicate Marks(step: Stepper) {
    forall t, cin, instr :: step(t, cin, instr).Stepped? ==>
      forall g :: g in step(t, cin, instr).generated ==> g.synthetic
  }

  lemma StepsMark(env: Env, info: BlockInfo, h: TxHash)
    ensures Marks(Steps(env, info, h))
  {
    forall t, cin, instr | Ready(env, t) && Step(env, info, h, t, cin, instr).Stepped?
      ensures forall g :: g in Step(env, info, h, t, cin, instr).generated ==> g.synthetic
    {
      var scs := ExecuteInstruction(env, info, t, cin, instr, h).value.0;
      CheckMarks(env, t, instr, scs, |scs|);
    }
  }

  lemma {:induction false} CheckMarks(env: Env, t: Tree, instr: Instruction, scs: seq<StateChange>, n: nat)
    requires Ready(env, t) && n <= |scs| && Check(env, t, instr, scs, n).Some?
    ensures forall g :: g in Check(env, t, instr, scs, n).value.generated ==> g.synthetic
    decreases n
  {
    if n > 0 {
      CheckMarks(env, t, instr, scs, n - 1);
    }
  }

  /** An accepted transaction is such a history of the instructions that were sent, and of
      those they generated ... */
  lemma {:induction false} RunReaches(do: Doer, step: Stepper, info: BlockInfo, h: TxHash, t: Tree,
                                      queue: Instructions, cin: seq<Coin>, n: nat) returns (ex: seq<Executed>)
    requires Performs(do, step, info, h) && Marks(step) && Run(step, t, queue, cin, n).Accepted?
    ensures Reaches(do, t, ex, Run(step, t, queue, cin, n).state)
    ensures Own(Instrs(ex)) == Own(queue)
    decreases n
  {
    ex := [];
    if queue != [] {
      var s := step(t, cin, queue[0]);
      var rest := RunReaches(do, step, info, h, s.state, s.generated + queue[1..], s.coins, n - 1);
      var e := Executed(info, h, cin, queue[0]);
      ex := [e] + rest;
      assert ex[1..] == rest && do(t, e) == s;
      OwnConcat(s.generated, queue[1..]);
      NoneOwn(s.generated);
      assert Instrs(ex)[1..] == Instrs(rest);
    }
  }

  ghost function AcceptedInstrs(txs: seq<TxResult>): (r: Instructions)
    decreases |txs|
  {
    if txs == [] then []
    else
      var n := |txs| - 1;
      AcceptedInstrs(txs[..n]) + if txs[n].accepted then txs[n].instrs else []
  }

  /** ... and so is a block with the instructions of its accepted transactions ... */
  lemma {:induction false} BlockReaches(env: Env, info: BlockInfo, t: Tree, txs: seq<TxResult>) returns (ex: seq<Executed>)
    requires Ready(env, t)
    ensures Reaches(Does(env), t, ex, Block(env, info, t, txs).state)
    ensures Own(Instrs(ex)) == Own(AcceptedInstrs(Block(env, info, t, txs).txOut))
    decreases |txs|
  {
    ex := [];
    if txs != [] {
      var n := |txs| - 1;
      ex := BlockReaches(env, info, t, txs[..n]);
      var before, tx := Block(env, info, t, txs[..n]), txs[n].instrs;
      var out := Block(env, info, t, txs).txOut;
      assert out[..n] == before.txOut;
      if Process(env, info, before.state, tx).Accepted? {
        var more := TxReaches(env, info, before.state, tx);
        ex := Join(Does(env), t, ex, AcceptedInstrs(before.txOut), before.state, more, tx, Block(env, info, t, txs).state);
      } else {
        assert AcceptedInstrs(before.txOut) + [] == AcceptedInstrs(before.txOut);
      }
    }
  }

  lemma TxReaches(env: Env, info: BlockInfo, t: Tree, tx: Instructions) returns (ex: seq<Executed>)
    requires Ready(env, t) && Process(env, info, t, tx).Accepted?
    ensures Reaches(Does(env), t, ex, Process(env, info, t, tx).state)
    ensures Own(Instrs(ex)) == Own(tx)
  {
    var h := HashInstructions(info.version, tx);
    var step := Steps(env, info, h);
    var k: nat :| !Run(step, t, tx, [], k).Unfinished?;
    ProcessIsRun(env, info, t, tx, k);
    StepsMark(env, info, h);
    assert Performs(Does(env), step, info, h);
    ex := RunReaches(Does(env), step, info, h, t, tx, [], k);
  }

  /** What the accepted transactions of the blocks consist of. */
  ghost function ChainInstrs(env: Env, blocks: seq<SkipBlock>): (r: Instructions)
    requires Collisionless(env.cfg)
    decreases |blocks|
  {
    if blocks == [] then []
    else
      var n := |blocks| - 1;
      ChainInstrs(env, blocks[..n]) +
      AcceptedInstrs(Block(env, blocks[n].header.info, Fold(env, blocks[..n]), BodyOrEmpty(blocks[n])).txOut)
  }

  /** ... and the chain from genesis on. */
  lemma {:induction false} ChainReaches(env: Env, blocks: seq<SkipBlock>) returns (ex: seq<Executed>)
    requires Collisionless(env.cfg)
    ensures Reaches(Does(env), NewTrie(), ex, Fold(env, blocks))
    ensures Own(Instrs(ex)) == Own(ChainInstrs(env, blocks))
    decreases |blocks|
  {
    ex := [];
    if blocks != [] {
      var n := |blocks| - 1;
      ex := ChainReaches(env, blocks[..n]);
      var base, info, body := Fold(env, blocks[..n]), blocks[n].header.info, BodyOrEmpty(blocks[n]);
      var more := BlockReaches(env, info, base, body);
      ex := Join(Does(env), NewTrie(), ex, ChainInstrs(env, blocks[..n]), base, more,
                 AcceptedInstrs(Block(env, info, base, body).txOut), Fold(env, blocks));
    }
  }

  /** How many of these instructions carry the signer. */
  ghost function Signed(ex: seq<Executed>, s: string): (n: nat)
    decreases |ex|
  {
    if ex == [] then 0 else (if s in ex[0].instr.signers then 1 else 0) + Signed(ex[1..], s)
  }

  /** Each step of a doer raises what it should and stays among valid tries. */
  ghost predicate Counting(env: Env, do: Doer, ids: set<string>, s: string) {
    forall t, e: Executed :: Ready(env, t) && Within(e.instr.signers, ids) && do(t, e).Stepped? ==>
      Ready(env, do(t, e).state) && Raised(env, t, do(t, e).state, e.instr, s)
  }

  lemma DoesCount(env: Env, ids: set<string>, s: string)
    requires CountersApart(env, ids) && s in ids
    ensures Counting(env, Does(env), ids, s)
  {
    forall t, e: Executed | Ready(env, t) && Within(e.instr.signers, ids) && Does(env)(t, e).Stepped?
      ensures Ready(env, Does(env)(t, e).state) && Raised(env, t, Does(env)(t, e).state, e.instr, s)
    {
      StepRaises(env, ids, e.info, e.h, t, e.cin, e.instr, s);
    }
  }

  ghost predicate AllWithin(ex: seq<Executed>, ids: set<string>) {
    forall e :: e in ex ==> Within(e.instr.signers, ids)
  }

  /** Over any history the counter of a signer moves by the number of accepted
      instructions that the signer signed, modulo 2^64. */
  lemma {:induction false} CounterMoves(env: Env, do: Doer, ids: set<string>, t: Tree, ex: seq<Executed>, t': Tree, s: string)
    requires Ready(env, t) && Counting(env, do, ids, s) && AllWithin(ex, ids) && Reaches(do, t, ex, t')
    requires SignerCounter(env, t, s).Some?
    ensures Ready(env, t')
    ensures SignerCounter(env, t', s) == Some((SignerCounter(env, t, s).value + Signed(ex, s)) % TWO_TO_THE_64)
    decreases |ex|
  {
    if ex != [] {
      var u := do(t, ex[0]).state;
      assert ex[0] in ex && Raised(env, t, u, ex[0].instr, s);
      CounterMoves(env, do, ids, u, ex[1..], t', s);
      NextThenAdd(SignerCounter(env, t, s).value, Signed(ex[1..], s));
    }
  }

  lemma NextThenAdd(c: uint64, n: nat)
    ensures (Next64(c) + n) % TWO_TO_THE_64 == (c + 1 + n) % TWO_TO_THE_64
  {
    if c + 1 == TWO_TO_THE_64 {
      assert (c + 1 + n) % TWO_TO_THE_64 == n % TWO_TO_THE_64;
    }
  }

  /** The engine counts: from one state to any later one, the counter of a signer has moved by
      what the signer signed in between. */
  lemma CounterCounts(env: Env, ids: set<string>, t: Tree, ex: seq<Executed>, t': Tree, s: string)
    requires Ready(env, t) && CountersApart(env, ids) && AllWithin(ex, ids) && s in ids && Reaches(Does(env), t, ex, t')
    requires SignerCounter(env, t, s).Some?
    ensures Ready(env, t')
    ensures SignerCounter(env, t', s) == Some((SignerCounter(env, t, s).value + Signed(ex, s)) % TWO_TO_THE_64)
  {
    DoesCount(env, ids, s);
    CounterMoves(env, Does(env), ids, t, ex, t', s);
  }

  /** So the counter that is expected of a signer is expected again exactly after a multiple
      of 2^64 accepted instructions of that signer. */
  lemma ExpectedAgainExactly(env: Env, ids: set<string>, t: Tree, ex: seq<Executed>, t': Tree, s: string)
    requires Ready(env, t) && Ready(env, t') && CountersApart(env, ids) && AllWithin(ex, ids) && s in ids
    requires Reaches(Does(env), t, ex, t') && SignerCounter(env, t, s).Some?
    ensures SignerCounter(env, t', s).Some?
    ensures Next64(SignerCounter(env, t', s).value) == Next64(SignerCounter(env, t, s).value) <==>
      Signed(ex, s) % TWO_TO_THE_64 == 0
  {
    DoesCount(env, ids, s);
    CounterReturns(env, Does(env), ids, t, ex, t', s);
  }

  lemma CounterReturns(env: Env, do: Doer, ids: set<string>, t: Tree, ex: seq<Executed>, t': Tree, s: string)
    requires Ready(env, t) && Ready(env, t') && Counting(env, do, ids, s) && AllWithin(ex, ids)
    requires Reaches(do, t, ex, t') && SignerCounter(env, t, s).Some?
    ensures SignerCounter(env, t', s).Some?
    ensures Next64(SignerCounter(env, t', s).value) == Next64(SignerCounter(env, t, s).value) <==>
      Signed(ex, s) % TWO_TO_THE_64 == 0
  {
    CounterMoves(env, do, ids, t, ex, t', s);
    ReturnsExactly(SignerCounter(env, t, s), SignerCounter(env, t', s), Signed(ex, s));
  }

  lemma ReturnsExactly(c: Option<uint64>, c': Option<uint64>, n: nat)
    requires c.Some? && c' == Some((c.value + n) % TWO_TO_THE_64)
    ensures Next64(c'.value) == Next64(c.value) <==> n % TWO_TO_THE_64 == 0
  {
    WrapAround(c.value, n);
  }

  lemma WrapAround(c: uint64, n: nat)
    ensures Next64((c + n) % TWO_TO_THE_64) == Next64(c) <==> n % TWO_TO_THE_64 == 0
  {
    var q, r := n / TWO_TO_THE_64, n % TWO_TO_THE_64;
    assert c + n == TWO_TO_THE_64 * q + (c + r);
    assert (c + n) % TWO_TO_THE_64 == (c + r) % TWO_TO_THE_64;
  }

  /** Replay protection: an instruction whose counters were checked is not accepted again, nor
      is any other one that presents one of its counters, before the signer of that counter
      has signed 2^64 accepted instructions. */
  lemma NoReplayBeforeWrap(env: Env, ids: set<string>, t: Tree, ex: seq<Executed>, t': Tree, primary: string -> bool, i: nat,
                           again: Instruction, j: nat)
    requires Ready(env, t) && Ready(env, t') && CountersApart(env, ids) && AllWithin(ex, ids)
    requires Reaches(Does(env), t, ex, t') && ex != []
    requires CountersMatch(env, t, primary, ex[0].instr.counters, ex[0].instr.signers)
    requires i < |ex[0].instr.signers| && j < |again.signers| && j < |again.counters|
    requires again.signers[j] == ex[0].instr.signers[i] && again.counters[j] == ex[0].instr.counters[i]
    requires Signed(ex, again.signers[j]) < TWO_TO_THE_64
    ensures !CountersMatch(env, t', primary, again.counters, again.signers)
  {
    var s := again.signers[j];
    assert ex[0] in ex && s in ex[0].instr.signers;
    DoesCount(env, ids, s);
    NotExpected(env, Does(env), ids, t, ex, t', s, ex[0].instr.counters[i]);
  }

  lemma NotExpected(env: Env, do: Doer, ids: set<string>, t: Tree, ex: seq<Executed>, t': Tree, s: string, c: uint64)
    requires Ready(env, t) && Ready(env, t') && Counting(env, do, ids, s) && AllWithin(ex, ids) && Reaches(do, t, ex, t')
    requires SignerCounter(env, t, s).Some? && c == Next64(SignerCounter(env, t, s).value)
    requires 0 < Signed(ex, s) < TWO_TO_THE_64
    ensures SignerCounter(env, t', s).Some? && c != Next64(SignerCounter(env, t', s).value)
  {
    CounterReturns(env, do, ids, t, ex, t', s);
  }
}
