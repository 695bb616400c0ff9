/** The loops of the execution engine, each proved to compute the function of Ledger
    that gives its meaning. A staging trie is the tree it stands for (module Staging),
    so cloning one is keeping the value. */
module Execution {
  import opened Types
  import opened Merkle
  import opened Ledger

  method IncrementSignerCounters(env: Env, t: Tree, ids: seq<string>) returns (r: Option<seq<StateChange>>)
    requires Ready(env, t)
    ensures r == CounterChanges(env, t, ids)
  {
    var scs := [];
    var i := 0;
    while i < |ids|
      invariant 0 <= i <= |ids|
      invariant CounterChanges(env, t, ids[..i]) == Some(scs)
    {
      assert ids[..i + 1][..i] == ids[..i];
      var counter := SignerCounter(env, t, ids[i]);
      if counter == None {
        CountersFail(env, t, ids, i + 1);
        return None;
      }
      scs := scs + [CounterChange(env, ids[i], counter.value)];
      i := i + 1;
    }
    assert ids[..i] == ids;
    r := Some(scs);
  }

  lemma {:induction false} CountersFail(env: Env, t: Tree, ids: seq<string>, i: nat)
    requires Ready(env, t) && i <= |ids| && CounterChanges(env, t, ids[..i]) == None
    ensures CounterChanges(env, t, ids) == None
    decreases |ids| - i
  {
    if i == |ids| {
      assert ids[..i] == ids;
    } else {
      assert ids[..i + 1][..i] == ids[..i];
      CountersFail(env, t, ids, i + 1);
    }
  }

  method ExecuteInstruction(env: Env, info: BlockInfo, t: Tree, cin: seq<Coin>, instr: Instruction, h: TxHash)
      returns (r: Option<(seq<StateChange>, seq<Coin>)>)
    requires Ready(env, t)
    ensures r == Ledger.ExecuteInstruction(env, info, t, cin, instr, h)
  {
    var out := env.contract(t, info, instr, cin, h);
    if out == None {
      return None;
    }
    var (raw, cout) := out.value;
    var scs: seq<StateChange> := [];
    var vv: map<InstanceID, uint64> := map[];
    var i := 0;
    while i < |raw|
      invariant 0 <= i <= |raw|
      invariant Number(env, t, raw, i) == Some((scs, vv))
    {
      var sc := raw[i];
      if sc.contractID !in env.registry && sc.contractID != "" {
        NumberFails(env, t, raw, i + 1);
        return None;
      }
      var v: uint64;
      if sc.id in vv {
        v := Next64(vv[sc.id]);
      } else {
        var stored := GetKey(env.cfg, t, sc.id);
        v := if stored == None then 0 else Next64(stored.value.version);
      }
      scs := scs + [sc.(version := v)];
      vv := vv[sc.id := v];
      i := i + 1;
    }
    r := Some((scs, cout));
  }

  lemma {:induction false} NumberFails(env: Env, t: Tree, scs: seq<StateChange>, i: nat)
    requires Ready(env, t) && i <= |scs| && Number(env, t, scs, i) == None
    ensures Number(env, t, scs, |scs|) == None
    decreases |scs| - i
  {
    if i < |scs| {
      NumberFails(env, t, scs, i + 1);
    }
  }

  /** One change: an instance is not created twice, and not updated or removed unless
      it exists; a generated instruction is collected. */
  method CheckChange(env: Env, instr: Instruction, c: CheckState, sc: StateChange) returns (r: Option<CheckState>)
    requires Ready(env, c.state)
    ensures r == CheckOne(env, instr, c, sc)
  {
    var present := GetKey(env.cfg, c.state, sc.id).Some?;
    if sc.action == InvalidAction || (sc.action == Create && present)
       || ((sc.action == Update || sc.action == Remove) && !present) {
      return None;
    }
    if sc.action != GenerateInstruction {
      return Some(c.(state := Store(env, c.state, sc)));
    }
    var generated := Generated(env, instr, c.seedCounter, sc);
    if generated == None {
      return None;
    }
    r := Some(CheckState(c.state, c.generated + [generated.value],
                         if generated.value.payload.Spawn? then (c.seedCounter + 1) % 256 else c.seedCounter));
  }

  method CheckChanges(env: Env, t: Tree, instr: Instruction, scs: seq<StateChange>) returns (r: Option<CheckState>)
    requires Ready(env, t)
    ensures r == Check(env, t, instr, scs, |scs|)
  {
    var c := CheckState(t, [], 0);
    var i := 0;
    while i < |scs|
      invariant 0 <= i <= |scs|
      invariant Check(env, t, instr, scs, i) == Some(c)
    {
      var checked := CheckChange(env, instr, c, scs[i]);
      if checked == None {
        CheckFails(env, t, instr, scs, i + 1);
        return None;
      }
      c := checked.value;
      i := i + 1;
    }
    r := Some(c);
  }

  lemma {:induction false} CheckFails(env: Env, t: Tree, instr: Instruction, scs: seq<StateChange>, i: nat)
    requires Ready(env, t) && i <= |scs| && Check(env, t, instr, scs, i) == None
    ensures Check(env, t, instr, scs, |scs|) == None
    decreases |scs| - i
  {
    if i < |scs| {
      CheckFails(env, t, instr, scs, i + 1);
    }
  }

  /** One turn of the instruction loop. */
  method StepInstruction(env: Env, info: BlockInfo, h: TxHash, t: Tree, cin: seq<Coin>, instr: Instruction)
      returns (r: StepResult)
    requires Ready(env, t)
    ensures r == Steps(env, info, h)(t, cin, instr)
    ensures r.Stepped? ==> Ready(env, r.state)
  {
    var exec := ExecuteInstruction(env, info, t, cin, instr, h);
    if exec == None {
      return Failed;
    }
    var (scs, cout) := exec.value;
    var counterScs := IncrementSignerCounters(env, t, instr.signers);
    if counterScs == None {
      return Failed;
    }
    var checked := CheckChanges(env, t, instr, scs);
    if checked == None {
      return Failed;
    }
    r := Stepped(scs + counterScs.value, StoreAll(env, checked.value.state, counterScs.value), cout,
                 checked.value.generated);
  }

  /** The slice insertion: what is left to run after instruction `i`. */
  method InsertAfter(instrs: Instructions, i: nat, generated: Instructions, ghost queue: Instructions)
      returns (r: Instructions)
    requires i < |instrs| && instrs[i..] == queue
    ensures |r| > i && r[i + 1..] == generated + queue[1..]
  {
    r := instrs[..i + 1] + generated + instrs[i + 1..];
  }

  /** processOneTx: new instructions are inserted behind the current one, and a failing
      instruction drops everything the transaction has done. */
  method ProcessOneTx(env: Env, info: BlockInfo, base: Tree, tx: Instructions)
      returns (r: Option<(seq<StateChange>, Tree)>)
    requires Ready(env, base) && Finishes(env, info, base, tx)
    ensures Process(env, info, base, tx) == if r == None then Rejected else Accepted(r.value.0, r.value.1)
  {
    var h := HashInstructions(info.version, tx);
    ghost var n: nat :| !Run(Steps(env, info, h), base, tx, [], n).Unfinished?;
    ProcessIsRun(env, info, base, tx, n);
    r := RunInstructions(env, info, h, base, tx, n);
  }

  /** The instruction loop; `n` is a number of instructions that suffices. */
  method RunInstructions(env: Env, info: BlockInfo, h: TxHash, base: Tree, tx: Instructions, ghost n: nat)
      returns (r: Option<(seq<StateChange>, Tree)>)
    requires Ready(env, base) && !Run(Steps(env, info, h), base, tx, [], n).Unfinished?
    ensures Run(Steps(env, info, h), base, tx, [], n) == if r == None then Rejected else Accepted(r.value.0, r.value.1)
  {
    var sst, instrs, i := base, tx, 0;
    var states: seq<StateChange> := [];
    var cin: seq<Coin> := [];
    ghost var total, left, queue := Run(Steps(env, info, h), base, tx, [], n), n, tx;
    while i < |instrs|
      invariant 0 <= i <= |instrs| && Ready(env, sst) && instrs[i..] == queue
      invariant total == After(states, Run(Steps(env, info, h), sst, queue, cin, left))
      decreases left
    {
      var s;
      s, left := AdvanceOne(env, info, h, total, states, sst, instrs[i], queue, cin, left);
      if s == Failed {
        return None;
      }
      instrs := InsertAfter(instrs, i, s.generated, queue);
      queue := s.generated + queue[1..];
      states, sst, cin := states + s.changes, s.state, s.coins;
      i := i + 1;
    }
    r := Some((states, sst));
  }

  /** One turn of the loop: what the run comes to does not change. */
  method AdvanceOne(env: Env, info: BlockInfo, h: TxHash, ghost total: Outcome, ghost states: seq<StateChange>,
                    t: Tree, instr: Instruction, ghost queue: Instructions, cin: seq<Coin>, ghost left: nat)
      returns (s: StepResult, ghost less: nat)
    requires Ready(env, t) && queue != [] && queue[0] == instr && !total.Unfinished?
    requires total == After(states, Run(Steps(env, info, h), t, queue, cin, left))
    ensures left == less + 1 && (s.Stepped? ==> Ready(env, s.state))
    ensures if s.Failed? then total == Rejected
            else total == After(states + s.changes,
                                Run(Steps(env, info, h), s.state, s.generated + queue[1..], s.coins, less))
  {
    s := StepInstruction(env, info, h, t, cin, instr);
    less := Advance(Steps(env, info, h), total, states, t, queue, cin, left);
  }

  lemma Advance(step: Stepper, total: Outcome, states: seq<StateChange>, t: Tree, queue: Instructions, cin: seq<Coin>, left: nat)
      returns (less: nat)
    requires total == After(states, Run(step, t, queue, cin, left)) && !total.Unfinished? && queue != []
    ensures left == less + 1
    ensures
      var s := step(t, cin, queue[0]);
      if s.Failed? then total == Rejected
      else total == After(states + s.changes, Run(step, s.state, s.generated + queue[1..], s.coins, less))
  {
    less := left - 1;
  }

  /** createStateChanges on a cache miss and without a timeout. */
  method CreateStateChanges(env: Env, info: BlockInfo, base: Tree, txIn: seq<TxResult>)
      returns (root: Digest, txOut: seq<TxResult>, states: seq<StateChange>, sst: Tree)
    requires Ready(env, base) && BlockFinishes(env, info, base, txIn)
    ensures BlockResult(txOut, states, sst) == Block(env, info, base, txIn)
    ensures root == Hash(env.cfg.nonce, sst)
  {
    txOut, states, sst := [], [], base;
    ghost var p := Processes(env, info);
    var i := 0;
    while i < |txIn|
      invariant 0 <= i <= |txIn| && Ready(env, sst)
      invariant BlockResult(txOut, states, sst) == RunBlock(p, base, txIn[..i])
    {
      RunBlockNext(p, base, txIn, i);
      var tx := txIn[i];
      var r := ProcessOneTx(env, info, sst, tx.instrs);
      if r == None {
        txOut := txOut + [tx.(accepted := false)];
      } else {
        txOut, states, sst := txOut + [tx.(accepted := true)], states + r.value.0, r.value.1;
      }
      i := i + 1;
    }
    assert txIn[..i] == txIn;
    root := Hash(env.cfg.nonce, sst);
  }
}
