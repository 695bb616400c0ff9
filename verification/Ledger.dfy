/** The meaning of a transaction and of a block: pure functions that the loops of
    the service are proved against.

    A contract is an arbitrary deterministic function of the state it is given, the
    block information, the instruction, the coins and the transaction hash. */
module Ledger {
  import opened Types
  import opened Encoding
  import opened Merkle
  import Batch

  datatype StateChange = StateChange(
    action: StateAction, id: InstanceID, contractID: string, value: Bytes, version: uint64, darcID: Bytes)

  function BodyOf(sc: StateChange): (b: Body)
  {
    Body(sc.action, sc.contractID, sc.value, sc.version, sc.darcID)
  }

  datatype Coin = Coin(name: Bytes, value: uint64)

  type Arguments = seq<(string, Bytes)>

  datatype Payload =
    | Spawn(contractID: string, args: Arguments)
    | Invoke(contractID: string, command: string, args: Arguments)
    | Delete(contractID: string, args: Arguments)
    | NoPayload

  /** `publics` are the public bytes of the signers, `synthetic` marks generated
      instructions. */
  datatype Instruction = Instruction(
    id: InstanceID, payload: Payload, signers: seq<string>, publics: seq<Bytes>, counters: seq<uint64>,
    signatures: seq<Bytes>, synthetic: bool)

  type Instructions = seq<Instruction>

  datatype TxResult = TxResult(instrs: Instructions, accepted: bool)

  // --------------------------------------------------------------------- hashing

  /** A Go string as bytes: each character stands for a byte. */
  function Raw(s: string): (b: Bytes)
    ensures |b| == |s|
  {
    seq(|s|, i requires 0 <= i < |s| => (s[i] as int % 256) as byte)
  }

  function WithLength(b: Bytes): (r: Bytes)
  {
    EncodeLE(|b|, 8) + b
  }

  function ArgumentBytes(args: Arguments): (b: Bytes)
  {
    if args == [] then [] else WithLength(Raw(args[0].0)) + WithLength(args[0].1) + ArgumentBytes(args[1..])
  }

  function CounterBytes(counters: seq<uint64>): (b: Bytes)
  {
    if counters == [] then [] else EncodeLE(counters[0], 8) + CounterBytes(counters[1..])
  }

  function PublicBytes(publics: seq<Bytes>): (b: Bytes)
  {
    if publics == [] then [] else WithLength(publics[0]) + PublicBytes(publics[1..])
  }

  /** What is hashed of an invocation's contract ID and command: there is no separator, and
      before version 1 no command. */
  function Label(version: int, p: Payload): (b: Bytes)
    requires p.Invoke?
  {
    if version >= 1 then Raw(p.contractID) + Raw(p.command) else Raw(p.contractID)
  }

  /** hashType: what is hashed of the kind of an instruction and what it is called with. */
  function PayloadBytes(version: int, p: Payload): (b: Bytes)
  {
    match p
    case Spawn(contractID, args) => [0] + Raw(contractID) + ArgumentBytes(args)
    case Invoke(_, _, args) =>
      [1] + Label(version, p) + ArgumentBytes(args)
    case Delete(contractID, _) => [2] + Raw(contractID)
    case NoPayload => []
  }

  /** The bytes of which Instruction.Hash is the digest. */
  function Preimage(version: int, i: Instruction): (b: Bytes)
  {
    i.id + PayloadBytes(version, i.payload) + CounterBytes(i.counters) + PublicBytes(i.publics)
  }

  /** The hash of a transaction: that of the hashes of its instructions. */
  type TxHash = seq<Bytes>

  function HashInstructions(version: int, instrs: Instructions): (h: TxHash)
    ensures |h| == |instrs|
  {
    seq(|instrs|, i requires 0 <= i < |instrs| => Preimage(version, instrs[i]))
  }

  /** Invocations with the same rest hash alike exactly if their labels are the same. */
  lemma InvokeAlike(version: int, i: Instruction, j: Instruction)
    requires i.payload.Invoke? && j.payload.Invoke? && i.payload.args == j.payload.args
    requires i.id == j.id && i.counters == j.counters && i.publics == j.publics
    ensures Preimage(version, i) == Preimage(version, j) <==>
      Label(version, i.payload) == Label(version, j.payload)
  {
    var rest := ArgumentBytes(i.payload.args) + CounterBytes(i.counters) + PublicBytes(i.publics);
    InvokeBytes(version, i, rest);
    InvokeBytes(version, j, rest);
    SameMiddle(i.id + [1], Label(version, i.payload), Label(version, j.payload), rest);
  }

  lemma InvokeBytes(version: int, i: Instruction, rest: Bytes)
    requires i.payload.Invoke? && rest == ArgumentBytes(i.payload.args) + CounterBytes(i.counters) + PublicBytes(i.publics)
    ensures Preimage(version, i) == i.id + [1] + Label(version, i.payload) + rest
  {
    var called, args, counters, publics :=
      Label(version, i.payload), ArgumentBytes(i.payload.args), CounterBytes(i.counters), PublicBytes(i.publics);
    assert PayloadBytes(version, i.payload) == [1] + called + args;
    assert i.id + ([1] + called + args) + counters + publics == i.id + [1] + called + (args + counters + publics);
  }

  lemma SameMiddle(front: Bytes, a: Bytes, b: Bytes, back: Bytes)
    ensures front + a + back == front + b + back <==> a == b
  {
    var x, y := front + a + back, front + b + back;
    if x == y {
      assert |a| == |b|;
      assert x[|front|..|front| + |a|] == a && y[|front|..|front| + |a|] == b;
    }
  }

  /** So "value" invoked with "update" hashes like "val" invoked with "ueupdate". */
  lemma NoSeparator(version: int, i: Instruction, args: Arguments)
    requires version >= 1
    ensures Preimage(version, i.(payload := Invoke("value", "update", args)))
         == Preimage(version, i.(payload := Invoke("val", "ueupdate", args)))
  {
    InvokeAlike(version, i.(payload := Invoke("value", "update", args)), i.(payload := Invoke("val", "ueupdate", args)));
    assert Raw("value") + Raw("update") == Raw("val") + Raw("ueupdate");
  }

  datatype BlockInfo = BlockInfo(version: int, timestamp: int)

  datatype Env = Env(
    cfg: Config,
    contract: (Tree, BlockInfo, Instruction, seq<Coin>, TxHash) -> Option<(seq<StateChange>, seq<Coin>)>,
    registry: set<string>,
    decode: Bytes -> Option<Instruction>,
    seed: (Instruction, nat) -> Bytes,
    counterKey: string -> InstanceID)

  ghost predicate Ready(env: Env, t: Tree) {
    Collisionless(env.cfg) && ValidTrie(env.cfg, t)
  }

  // ------------------------------------------------------- storing state changes

  function OpOf(sc: StateChange): (op: Batch.Op)
  {
    match sc.action
    case Create => Batch.Apply(Put(sc.id, BodyOf(sc)))
    case Update => Batch.Apply(Put(sc.id, BodyOf(sc)))
    case Remove => Batch.Apply(Drop(sc.id))
    case GenerateInstruction => Batch.Nop
    case InvalidAction => Batch.Unknown
  }

  function OpsOf(scs: seq<StateChange>): (ops: seq<Batch.Op>)
  {
    if scs == [] then [] else [OpOf(scs[0])] + OpsOf(scs[1..])
  }

  function Store(env: Env, t: Tree, sc: StateChange): (t': Tree)
    requires Ready(env, t)
    ensures Ready(env, t')
  {
    match OpOf(sc)
    case Apply(w) => Write1(env.cfg, t, w)
    case Nop => t
    case Unknown => t
  }

  function StoreAll(env: Env, t: Tree, scs: seq<StateChange>): (t': Tree)
    requires Ready(env, t)
    ensures Ready(env, t')
    decreases |scs|
  {
    if scs == [] then t else StoreAll(env, Store(env, t, scs[0]), scs[1..])
  }

  ghost predicate Storable(scs: seq<StateChange>) {
    forall sc :: sc in scs ==> sc.action != InvalidAction
  }

  lemma {:induction false} StoreAllConcat(env: Env, t: Tree, scs: seq<StateChange>, more: seq<StateChange>)
    requires Ready(env, t)
    ensures StoreAll(env, t, scs + more) == StoreAll(env, StoreAll(env, t, scs), more)
    decreases |scs|
  {
    if scs == [] {
      assert scs + more == more;
    } else {
      assert (scs + more)[1..] == scs[1..] + more;
      StoreAllConcat(env, Store(env, t, scs[0]), scs[1..], more);
    }
  }

  function Flatten(parts: seq<seq<StateChange>>): (scs: seq<StateChange>)
    decreases |parts|
  {
    if parts == [] then [] else parts[0] + Flatten(parts[1..])
  }

  lemma {:induction false} FlattenConcat(a: seq<seq<StateChange>>, b: seq<seq<StateChange>>)
    ensures Flatten(a + b) == Flatten(a) + Flatten(b)
    decreases |a|
  {
    if a == [] {
      assert a + b == b;
    } else {
      FlattenConcat(a[1..], b);
      assert (a + b)[1..] == a[1..] + b;
    }
  }

  lemma StoreOne(env: Env, t: Tree, sc: StateChange)
    requires Ready(env, t)
    ensures StoreAll(env, t, [sc]) == Store(env, t, sc)
  {
    assert [sc][1..] == [];
  }

  lemma StoreSnoc(env: Env, t: Tree, scs: seq<StateChange>, sc: StateChange)
    requires Ready(env, t)
    ensures StoreAll(env, t, scs + [sc]) == Store(env, StoreAll(env, t, scs), sc)
    ensures Storable(scs + [sc]) <==> Storable(scs) && sc.action != InvalidAction
  {
    StoreAllConcat(env, t, scs, [sc]);
    StoreOne(env, StoreAll(env, t, scs), sc);
    assert forall x :: x in scs + [sc] <==> x in scs || x == sc;
  }

  /** StoreAll is the batch that the staging and state tries run. */
  lemma {:induction false} StoreAllIsBatch(env: Env, t: Tree, scs: seq<StateChange>)
    requires Ready(env, t) && Storable(scs)
    ensures Batch.Unknown !in OpsOf(scs)
    ensures StoreAll(env, t, scs) == WriteAll(env.cfg, t, Batch.WritesOf(OpsOf(scs)))
    decreases |scs|
  {
    if scs != [] {
      var ops := OpsOf(scs);
      assert ops[1..] == OpsOf(scs[1..]);
      assert forall sc :: sc in scs[1..] ==> sc in scs;
      StoreAllIsBatch(env, Store(env, t, scs[0]), scs[1..]);
      if OpOf(scs[0]).Apply? {
        var w := OpOf(scs[0]).w;
        Batch.WriteAllConcat(env.cfg, t, [w], Batch.WritesOf(ops[1..]));
        assert [w][..0] == [];
        assert WriteAll(env.cfg, t, [w]) == Write1(env.cfg, t, w);
      }
    }
  }

  // ------------------------------------------------------------- signer counters

  /** getSignerCounter; `None` where Go panics on a stored value under 8 bytes. */
  function SignerCounter(env: Env, t: Tree, signer: string): (c: Option<uint64>)
    requires Ready(env, t)
  {
    match GetKey(env.cfg, t, env.counterKey(signer))
    case None => Some(0)
    case Some(body) => if |body.value| < 8 then None else Some(Decode64(body.value))
  }

  function CounterChange(env: Env, signer: string, counter: uint64): (sc: StateChange)
  {
    StateChange(if counter == 0 then Create else Update, env.counterKey(signer), "",
                Encode64(Next64(counter)), Next64(counter), [])
  }

  /** incrementSignerCounters: all counters are read before any is stored. */
  function CounterChanges(env: Env, t: Tree, signers: seq<string>): (r: Option<seq<StateChange>>)
    requires Ready(env, t)
    decreases |signers|
  {
    if signers == [] then Some([])
    else
      var n := |signers| - 1;
      match (CounterChanges(env, t, signers[..n]), SignerCounter(env, t, signers[n]))
      case (Some(scs), Some(c)) => Some(scs + [CounterChange(env, signers[n], c)])
      case _ => None
  }

  lemma CounterChangesSplit(env: Env, t: Tree, signers: seq<string>) returns (front: seq<string>, last: string)
    requires Ready(env, t) && signers != [] && CounterChanges(env, t, signers).Some?
    ensures signers == front + [last] && |front| < |signers|
    ensures CounterChanges(env, t, front).Some? && SignerCounter(env, t, last).Some?
    ensures CounterChanges(env, t, signers).value ==
      CounterChanges(env, t, front).value + [CounterChange(env, last, SignerCounter(env, t, last).value)]
  {
    front, last := signers[..|signers| - 1], signers[|signers| - 1];
  }

  // ------------------------------------------------------------- one instruction

  function NextVersion(env: Env, t: Tree, vv: map<InstanceID, uint64>, id: InstanceID): (v: uint64)
    requires Ready(env, t)
  {
    if id in vv then Next64(vv[id])
    else match GetKey(env.cfg, t, id)
      case None => 0
      case Some(body) => Next64(body.version)
  }

  /** The version loop of executeInstruction over the first `n` changes: the numbered
      changes and the map of the versions given so far. */
  function Number(env: Env, t: Tree, scs: seq<StateChange>, n: nat): (r: Option<(seq<StateChange>, map<InstanceID, uint64>)>)
    requires Ready(env, t) && n <= |scs|
    ensures r.Some? ==> |r.value.0| == n
  {
    if n == 0 then Some(([], map[]))
    else
      var sc := scs[n - 1];
      match Number(env, t, scs, n - 1)
      case None => None
      case Some((done, vv)) =>
        if sc.contractID !in env.registry && sc.contractID != "" then None
        else
          var v := NextVersion(env, t, vv, sc.id);
          Some((done + [sc.(version := v)], vv[sc.id := v]))
  }

  lemma NumberSplit(env: Env, t: Tree, scs: seq<StateChange>, n: nat)
      returns (m: nat, done: seq<StateChange>, vv: map<InstanceID, uint64>, sc: StateChange)
    requires Ready(env, t) && 0 < n <= |scs| && Number(env, t, scs, n).Some?
    ensures m + 1 == n && Number(env, t, scs, m) == Some((done, vv))
    ensures sc == scs[m].(version := NextVersion(env, t, vv, sc.id))
    ensures Number(env, t, scs, n).value == (done + [sc], vv[sc.id := sc.version])
  {
    m := n - 1;
    done, vv := Number(env, t, scs, m).value.0, Number(env, t, scs, m).value.1;
    sc := scs[m].(version := NextVersion(env, t, vv, scs[m].id));
  }

  function ExecuteInstruction(env: Env, info: BlockInfo, t: Tree, cin: seq<Coin>, instr: Instruction, h: TxHash)
      : (r: Option<(seq<StateChange>, seq<Coin>)>)
    requires Ready(env, t)
  {
    match env.contract(t, info, instr, cin, h)
    case None => None
    case Some((scs, cout)) =>
      match Number(env, t, scs, |scs|)
      case None => None
      case Some((numbered, _)) => Some((numbered, cout))
  }

  ghost predicate Permitted(env: Env, t: Tree, sc: StateChange)
    requires Ready(env, t)
  {
    match sc.action
    case Create => sc.id !in Contents(t)
    case Update => sc.id in Contents(t)
    case Remove => sc.id in Contents(t)
    case GenerateInstruction => true
    case InvalidAction => false
  }

  function Generated(env: Env, instr: Instruction, seedCounter: nat, sc: StateChange): (r: Option<Instruction>)
  {
    match env.decode(sc.value)
    case None => None
    case Some(i) =>
      var i' := i.(synthetic := true);
      if i'.payload.Spawn? then
        Some(i'.(payload := Spawn(i'.payload.contractID, i'.payload.args + [("seed", env.seed(instr, seedCounter))])))
      else Some(i')
  }

  datatype CheckState = CheckState(state: Tree, generated: Instructions, seedCounter: nat)

  /** One change in the checking loop of processOneTx. */
  ghost function CheckOne(env: Env, instr: Instruction, c: CheckState, sc: StateChange): (r: Option<CheckState>)
    requires Ready(env, c.state)
    ensures r.Some? ==> sc.action != InvalidAction && r.value.state == Store(env, c.state, sc)
  {
    if !Permitted(env, c.state, sc) then None
    else if sc.action == GenerateInstruction then
      match Generated(env, instr, c.seedCounter, sc)
      case None => None
      case Some(i) =>
        Some(CheckState(c.state, c.generated + [i],
                        if i.payload.Spawn? then (c.seedCounter + 1) % 256 else c.seedCounter))
    else Some(c.(state := Store(env, c.state, sc)))
  }

  /** That loop over the first `n` changes of an instruction: the staged state, the
      generated instructions and the seed counter. */
  ghost function Check(env: Env, t: Tree, instr: Instruction, scs: seq<StateChange>, n: nat): (r: Option<CheckState>)
    requires Ready(env, t) && n <= |scs|
    ensures r.Some? ==> Ready(env, r.value.state)
  {
    if n == 0 then Some(CheckState(t, [], 0))
    else match Check(env, t, instr, scs, n - 1)
      case None => None
      case Some(c) => CheckOne(env, instr, c, scs[n - 1])
  }

  datatype StepResult =
    | Failed
    | Stepped(changes: seq<StateChange>, state: Tree, coins: seq<Coin>, generated: Instructions)

  /** One turn of the instruction loop of processOneTx. */
  ghost function Step(env: Env, info: BlockInfo, h: TxHash, t: Tree, cin: seq<Coin>, instr: Instruction): (r: StepResult)
    requires Ready(env, t)
    ensures r.Stepped? ==> Ready(env, r.state)
  {
    match ExecuteInstruction(env, info, t, cin, instr, h)
    case None => Failed
    case Some((scs, cout)) =>
      match CounterChanges(env, t, instr.signers)
      case None => Failed
      case Some(ccs) =>
        match Check(env, t, instr, scs, |scs|)
        case None => Failed
        case Some(CheckState(s, generated, _)) => Stepped(scs + ccs, StoreAll(env, s, ccs), cout, generated)
  }

  // ------------------------------------------------------------- one transaction

  datatype Outcome = Accepted(changes: seq<StateChange>, state: Tree) | Rejected | Unfinished

  type Stepper = (Tree, seq<Coin>, Instruction) -> StepResult

  ghost function Steps(env: Env, info: BlockInfo, h: TxHash): (step: Stepper)
  {
    (t, cin, instr) => if Ready(env, t) then Step(env, info, h, t, cin, instr) else Failed
  }

  /** At most `n` instructions of the queue; a generated instruction runs right after
      the one that generated it. */
  ghost function Run(step: Stepper, t: Tree, queue: Instructions, cin: seq<Coin>, n: nat): (r: Outcome)
    decreases n
  {
    if queue == [] then Accepted([], t)
    else if n == 0 then Unfinished
    else
      var s := step(t, cin, queue[0]);
      if s.Failed? then Rejected
      else After(s.changes, Run(step, s.state, s.generated + queue[1..], s.coins, n - 1))
  }

  ghost function After(changes: seq<StateChange>, r: Outcome): (r': Outcome)
  {
    if r.Accepted? then Accepted(changes + r.changes, r.state) else r
  }

  ghost predicate Finishes(env: Env, info: BlockInfo, t: Tree, tx: Instructions) {
    exists n: nat :: !Run(Steps(env, info, HashInstructions(info.version, tx)), t, tx, [], n).Unfinished?
  }

  /** The effect of a transaction. `Unfinished` is one whose generated instructions
      never end, on which the Go loop would not return. */
  ghost function Process(env: Env, info: BlockInfo, t: Tree, tx: Instructions): (r: Outcome)
    requires Ready(env, t)
    ensures r.Accepted? ==> Storable(r.changes) && Ready(env, r.state) && r.state == StoreAll(env, t, r.changes)
    ensures r.Unfinished? <==> !Finishes(env, info, t, tx)
  {
    if Finishes(env, info, t, tx) then
      var step := Steps(env, info, HashInstructions(info.version, tx));
      var n: nat :| !Run(step, t, tx, [], n).Unfinished?;
      StepsStore(env, info, HashInstructions(info.version, tx));
      RunStores(env, step, t, tx, [], n);
      Run(step, t, tx, [], n)
    else Unfinished
  }

  lemma {:induction false} MoreSteps(step: Stepper, t: Tree, queue: Instructions, cin: seq<Coin>, n: nat, m: nat)
    requires n <= m && !Run(step, t, queue, cin, n).Unfinished?
    ensures Run(step, t, queue, cin, m) == Run(step, t, queue, cin, n)
    decreases n
  {
    if queue != [] {
      var s := step(t, cin, queue[0]);
      if s.Stepped? {
        MoreSteps(step, s.state, s.generated + queue[1..], s.coins, n - 1, m - 1);
      }
    }
  }

  /** Any number of steps that suffices gives the effect of the transaction. */
  lemma ProcessIsRun(env: Env, info: BlockInfo, t: Tree, tx: Instructions, n: nat)
    requires Ready(env, t) && !Run(Steps(env, info, HashInstructions(info.version, tx)), t, tx, [], n).Unfinished?
    ensures Process(env, info, t, tx) == Run(Steps(env, info, HashInstructions(info.version, tx)), t, tx, [], n)
  {
    var step := Steps(env, info, HashInstructions(info.version, tx));
    var m: nat :| !Run(step, t, tx, [], m).Unfinished? && Process(env, info, t, tx) == Run(step, t, tx, [], m);
    if n <= m {
      MoreSteps(step, t, tx, [], n, m);
    } else {
      MoreSteps(step, t, tx, [], m, n);
    }
  }

  // ------------------------------------------ the flat list equals nested staging

  lemma CheckSplit(env: Env, t: Tree, instr: Instruction, scs: seq<StateChange>, n: nat) returns (m: nat)
    requires Ready(env, t) && 0 < n <= |scs|
    ensures m + 1 == n
    ensures
      var before := Check(env, t, instr, scs, m);
      Check(env, t, instr, scs, n) == if before.None? then None else CheckOne(env, instr, before.value, scs[m])
  {
    m := n - 1;
  }

  lemma {:induction false} CheckStores(env: Env, t: Tree, instr: Instruction, scs: seq<StateChange>, n: nat)
    requires Ready(env, t) && n <= |scs| && Check(env, t, instr, scs, n).Some?
    ensures Check(env, t, instr, scs, n).value.state == StoreAll(env, t, scs[..n])
    ensures Storable(scs[..n])
    decreases n
  {
    if n > 0 {
      var m := CheckSplit(env, t, instr, scs, n);
      CheckStores(env, t, instr, scs, m);
      StoreSnoc(env, t, scs[..m], scs[m]);
      assert scs[..n] == scs[..m] + [scs[m]];
    }
  }

  lemma {:induction false} CountersStorable(env: Env, t: Tree, signers: seq<string>)
    requires Ready(env, t) && CounterChanges(env, t, signers).Some?
    ensures Storable(CounterChanges(env, t, signers).value)
    decreases |signers|
  {
    if signers != [] {
      CountersStorable(env, t, signers[..|signers| - 1]);
    }
  }

  lemma StepStores(env: Env, info: BlockInfo, h: TxHash, t: Tree, cin: seq<Coin>, instr: Instruction)
    requires Ready(env, t) && Step(env, info, h, t, cin, instr).Stepped?
    ensures Step(env, info, h, t, cin, instr).state == StoreAll(env, t, Step(env, info, h, t, cin, instr).changes)
    ensures Storable(Step(env, info, h, t, cin, instr).changes)
  {
    var (scs, cout) := ExecuteInstruction(env, info, t, cin, instr, h).value;
    var ccs := CounterChanges(env, t, instr.signers).value;
    CheckStores(env, t, instr, scs, |scs|);
    assert scs[..|scs|] == scs;
    CountersStorable(env, t, instr.signers);
    StoreAllConcat(env, t, scs, ccs);
  }

  /** Every step leaves the state that its change list leads to. */
  ghost predicate Storing(env: Env, step: Stepper) {
    forall t, cin, instr :: Ready(env, t) && step(t, cin, instr).Stepped? ==> StoresTo(env, t, step(t, cin, instr))
  }

  ghost predicate StoresTo(env: Env, t: Tree, s: StepResult)
    requires Ready(env, t) && s.Stepped?
  {
    Ready(env, s.state) && Storable(s.changes) && s.state == StoreAll(env, t, s.changes)
  }

  lemma StepsStore(env: Env, info: BlockInfo, h: TxHash)
    ensures Storing(env, Steps(env, info, h))
  {
    forall t, cin, instr | Ready(env, t) && Steps(env, info, h)(t, cin, instr).Stepped?
      ensures StoresTo(env, t, Steps(env, info, h)(t, cin, instr))
    {
      StepStores(env, info, h, t, cin, instr);
    }
  }

  /** Applying the change list of an accepted transaction to the state it started
      from gives the state its instructions built step by step: the same tree, so the
      same root. */
  lemma {:induction false} RunStores(env: Env, step: Stepper, t: Tree, queue: Instructions, cin: seq<Coin>, n: nat)
    requires Ready(env, t) && Storing(env, step)
    ensures
      var r := Run(step, t, queue, cin, n);
      r.Accepted? ==> Ready(env, r.state) && Storable(r.changes) && r.state == StoreAll(env, t, r.changes)
    decreases n
  {
    if queue != [] && n > 0 {
      var s := step(t, cin, queue[0]);
      if s.Stepped? {
        assert StoresTo(env, t, s);
        RunStores(env, step, s.state, s.generated + queue[1..], s.coins, n - 1);
        var more := Run(step, s.state, s.generated + queue[1..], s.coins, n - 1);
        if more.Accepted? {
          StoreAllConcat(env, t, s.changes, more.changes);
        }
      }
    }
  }

  // ------------------------------------------------------------------- one block

  /** What a transaction does to a state, however that is computed. */
  type Processor = (Tree, Instructions) -> Outcome

  ghost function Processes(env: Env, info: BlockInfo): (p: Processor)
  {
    (t, tx) => if Ready(env, t) then Process(env, info, t, tx) else Rejected
  }

  datatype BlockResult = BlockResult(txOut: seq<TxResult>, changes: seq<StateChange>, state: Tree)

  ghost function Next(p: Processor, before: BlockResult, tx: TxResult): (r: BlockResult)
  {
    var o := p(before.state, tx.instrs);
    if o.Accepted? then BlockResult(before.txOut + [tx.(accepted := true)], before.changes + o.changes, o.state)
    else before.(txOut := before.txOut + [tx.(accepted := false)])
  }

  /** The transactions in order, each on the state that the accepted ones before it
      have left. */
  ghost function RunBlock(p: Processor, t: Tree, txs: seq<TxResult>): (r: BlockResult)
    ensures |r.txOut| == |txs|
    decreases |txs|
  {
    if txs == [] then BlockResult([], [], t)
    else Next(p, RunBlock(p, t, txs[..|txs| - 1]), txs[|txs| - 1])
  }

  /** createStateChanges without a timeout and without the cache. */
  ghost function Block(env: Env, info: BlockInfo, t: Tree, txs: seq<TxResult>): (r: BlockResult)
    requires Ready(env, t)
    ensures Ready(env, r.state) && |r.txOut| == |txs|
  {
    BlockStores(env, info, t, txs);
    RunBlock(Processes(env, info), t, txs)
  }

  lemma RunBlockNext(p: Processor, t: Tree, txs: seq<TxResult>, i: nat)
    requires i < |txs|
    ensures RunBlock(p, t, txs[..i + 1]) == Next(p, RunBlock(p, t, txs[..i]), txs[i])
  {
    assert txs[..i + 1][..i] == txs[..i];
  }

  /** No transaction of the block runs for ever. */
  ghost predicate BlockFinishes(env: Env, info: BlockInfo, t: Tree, txs: seq<TxResult>) {
    forall i :: 0 <= i < |txs| ==>
      Finishes(env, info, RunBlock(Processes(env, info), t, txs[..i]).state, txs[i].instrs)
  }

  /** Applying the flat change list of a block to its base gives the nested result. */
  lemma {:induction false} BlockStores(env: Env, info: BlockInfo, t: Tree, txs: seq<TxResult>)
    requires Ready(env, t)
    ensures
      var b := RunBlock(Processes(env, info), t, txs);
      Ready(env, b.state) && Storable(b.changes) && b.state == StoreAll(env, t, b.changes)
    decreases |txs|
  {
    if txs != [] {
      var n := |txs| - 1;
      BlockStores(env, info, t, txs[..n]);
      var before := RunBlock(Processes(env, info), t, txs[..n]);
      var o := Process(env, info, before.state, txs[n].instrs);
      if o.Accepted? {
        StoreAllConcat(env, t, before.changes, o.changes);
      }
    }
  }

  ghost predicate SameTxs(a: seq<TxResult>, b: seq<TxResult>) {
    |a| == |b| && forall i :: 0 <= i < |a| ==> a[i].instrs == b[i].instrs
  }

  /** The flags on the input are ignored: the result depends on the transactions. */
  lemma {:induction false} FlagsIgnored(p: Processor, t: Tree, txs: seq<TxResult>, txs': seq<TxResult>)
    requires SameTxs(txs, txs')
    ensures RunBlock(p, t, txs) == RunBlock(p, t, txs')
    decreases |txs|
  {
    if txs != [] {
      var n := |txs| - 1;
      FlagsIgnored(p, t, txs[..n], txs'[..n]);
      assert txs[n].instrs == txs'[n].instrs;
    }
  }

  lemma {:induction false} OutKeepsTxs(p: Processor, t: Tree, txs: seq<TxResult>)
    ensures SameTxs(RunBlock(p, t, txs).txOut, txs)
    decreases |txs|
  {
    if txs != [] {
      OutKeepsTxs(p, t, txs[..|txs| - 1]);
    }
  }

  /** Running a block again on its own output gives the same flags, the same changes
      and the same state: a follower recomputes what the leader computed. */
  lemma {:induction false} Rerun(p: Processor, t: Tree, txs: seq<TxResult>)
    ensures RunBlock(p, t, RunBlock(p, t, txs).txOut) == RunBlock(p, t, txs)
  {
    OutKeepsTxs(p, t, txs);
    FlagsIgnored(p, t, RunBlock(p, t, txs).txOut, txs);
  }

  function AcceptedOnly(txs: seq<TxResult>): (r: seq<TxResult>)
    decreases |txs|
  {
    if txs == [] then []
    else
      var n := |txs| - 1;
      if txs[n].accepted then AcceptedOnly(txs[..n]) + [txs[n]] else AcceptedOnly(txs[..n])
  }

  /** Rejected transactions leave no trace: the block without them has the same
      changes and state and accepts everything. */
  lemma {:induction false} RejectedLeaveNoTrace(p: Processor, t: Tree, txs: seq<TxResult>)
    ensures
      var full := RunBlock(p, t, txs);
      var kept := AcceptedOnly(full.txOut);
      RunBlock(p, t, kept) == BlockResult(kept, full.changes, full.state)
    decreases |txs|
  {
    if txs != [] {
      var n := |txs| - 1;
      RejectedLeaveNoTrace(p, t, txs[..n]);
      var before, full := RunBlock(p, t, txs[..n]), RunBlock(p, t, txs);
      assert full.txOut[..n] == before.txOut;
      if full.txOut[n].accepted {
        var kept := AcceptedOnly(before.txOut) + [full.txOut[n]];
        assert kept[..|kept| - 1] == AcceptedOnly(before.txOut);
      }
    }
  }

  /** The flag that a block gives to its `i`-th transaction. */
  lemma {:induction false} OutFlag(p: Processor, t: Tree, txs: seq<TxResult>, i: nat)
    requires i < |txs|
    ensures RunBlock(p, t, txs).txOut[i].accepted <==> p(RunBlock(p, t, txs[..i]).state, txs[i].instrs).Accepted?
    decreases |txs|
  {
    var n := |txs| - 1;
    if i < n {
      assert txs[..n][..i] == txs[..i];
      OutFlag(p, t, txs[..n], i);
    }
  }

  /** One transaction of a replay: the right flag extends the result, the wrong one
      means that the block does not reproduce its flags. */
  lemma ReplayStep(p: Processor, t: Tree, txs: seq<TxResult>, i: nat)
    requires i < |txs| && RunBlock(p, t, txs[..i]).txOut == txs[..i]
    ensures
      var before := RunBlock(p, t, txs[..i]);
      if txs[i].accepted == p(before.state, txs[i].instrs).Accepted? then
        RunBlock(p, t, txs[..i + 1]) == Next(p, before, txs[i]) && Next(p, before, txs[i]).txOut == txs[..i + 1]
      else RunBlock(p, t, txs).txOut != txs
  {
    RunBlockNext(p, t, txs, i);
    OutFlag(p, t, txs, i);
    assert txs[..i + 1] == txs[..i] + [txs[i]];
  }
}
