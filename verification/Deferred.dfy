/** The deferred contract: a proposed transaction collects signatures and is executed once,
    before it expires. */
module Deferred {
  import opened Types
  import opened Merkle
  import opened Ledger

  const DEFAULT_NUM_EXECUTION: uint64 := 1
  const DEFAULT_EXPIRE_THRESHOLD := 50

  datatype Data = Data(
    instrs: Instructions, expire: uint64, hashes: seq<Bytes>, maxExecution: uint64, result: seq<Bytes>)

  /** `execute` looks up the contract of an instruction, verifies the instruction against its
      hash, and runs it; `valid` checks an identity's signature on a hash; `publicOf` gives an
      identity's public bytes. */
  datatype World = World(
    env: Env,
    execute: (Tree, Instruction, Bytes, seq<Coin>) -> Option<seq<StateChange>>,
    valid: (string, Bytes, Bytes) -> bool,
    publicOf: string -> Bytes,
    derive: Instruction -> InstanceID,
    hash: (Instruction, InstanceID) -> Bytes,
    encode: Data -> Bytes)

  /** The arguments of addProof are None if they are missing or do not decode. */
  datatype Command =
    | AddProof(identity: Option<string>, index: Option<nat>, signature: Option<Bytes>)
    | ExecProposedTx
    | Unknown

  /** An invocation: the state and block index it sees, the deferred instance and the
      coins. */
  datatype Call = Call(trie: Tree, blockIndex: uint64, id: InstanceID, coins: seq<Coin>, command: Command)

  function SpawnData(w: World, instrs: Instructions, expire: Option<uint64>, blockIndex: uint64, id: InstanceID): (d: Data)
    ensures d.maxExecution == 1 && d.instrs == instrs && |d.hashes| == |instrs|
    ensures forall i :: 0 <= i < |instrs| ==> d.hashes[i] == w.hash(instrs[i], id)
    ensures expire.Some? ==> d.expire == expire.value
    ensures expire.None? && blockIndex + 50 < TWO_TO_THE_64 ==> d.expire == blockIndex + 50
  {
    Data(instrs,
         if expire.Some? then expire.value else (blockIndex + DEFAULT_EXPIRE_THRESHOLD) % TWO_TO_THE_64,
         seq(|instrs|, i requires 0 <= i < |instrs| => w.hash(instrs[i], id)),
         DEFAULT_NUM_EXECUTION, [])
  }

  // -------------------------------------------------------------------- addProof

  /** The checks of checkInvoke and Invoke on addProof. An index out of range makes the Go
      code panic, which the service turns into an error. */
  predicate MayAdd(w: World, d: Data, c: Command) {
    && c.AddProof? && c.identity.Some? && c.index.Some? && c.signature.Some?
    && c.index.value < |d.instrs| && c.index.value < |d.hashes|
    && c.identity.value !in d.instrs[c.index.value].signers
    && w.valid(c.identity.value, d.hashes[c.index.value], c.signature.value)
  }

  function WithProof(w: World, d: Data, index: nat, identity: string, signature: Bytes): (r: Data)
    requires index < |d.instrs|
  {
    var i := d.instrs[index];
    d.(instrs := d.instrs[index := i.(
      signers := i.signers + [identity], publics := i.publics + [w.publicOf(identity)], signatures := i.signatures + [signature])])
  }

  // -------------------------------------------------------------- execProposedTx

  /** One instruction on a replica: its changes are stored to a new replica and added to the
      ones before. */
  function ExecuteOne(w: World, scs: seq<StateChange>, replica: Tree, i: Instruction, hash: Bytes, coins: seq<Coin>)
      : (r: Option<(seq<StateChange>, Tree)>)
    requires Ready(w.env, replica)
    ensures r.Some? ==> Ready(w.env, r.value.1)
  {
    match w.execute(replica, i, hash, coins)
    case None => None
    case Some(more) =>
      if exists sc :: sc in more && sc.action == InvalidAction then None
      else Some((scs + more, StoreAll(w.env, replica, more)))
  }

  /** The first `n` proposed instructions: the changes so far and the replica they were
      stored to, or an error. */
  function Execute(w: World, t: Tree, d: Data, coins: seq<Coin>, n: nat): (r: Option<(seq<StateChange>, Tree)>)
    requires Ready(w.env, t) && n <= |d.instrs| && |d.hashes| == |d.instrs|
    ensures r.Some? ==> Ready(w.env, r.value.1)
  {
    if n == 0 then Some(([], t))
    else
      match Execute(w, t, d, coins, n - 1)
      case None => None
      case Some((scs, replica)) => ExecuteOne(w, scs, replica, d.instrs[n - 1], d.hashes[n - 1], coins)
  }

  /** The changes of the first instructions, one part for each: what its execution yields on
      the state with the parts before it stored. */
  ghost predicate Parts(w: World, t: Tree, d: Data, coins: seq<Coin>, parts: seq<seq<StateChange>>)
    requires Ready(w.env, t) && |d.hashes| == |d.instrs|
  {
    |parts| <= |d.instrs| && forall k :: 0 <= k < |parts| ==> PartAt(w, t, d, coins, parts, k)
  }

  ghost predicate PartAt(w: World, t: Tree, d: Data, coins: seq<Coin>, parts: seq<seq<StateChange>>, k: nat)
    requires Ready(w.env, t) && |d.hashes| == |d.instrs| && k < |parts| <= |d.instrs|
  {
    && w.execute(StoreAll(w.env, t, Flatten(parts[..k])), d.instrs[k], d.hashes[k], coins) == Some(parts[k])
    && Storable(parts[k])
  }

  /** With these parts done, the next instruction fails or yields an unknown action. */
  ghost predicate FailsNext(w: World, t: Tree, d: Data, coins: seq<Coin>, parts: seq<seq<StateChange>>)
    requires Ready(w.env, t) && |d.hashes| == |d.instrs| && |parts| < |d.instrs|
  {
    var k := |parts|;
    var r := w.execute(StoreAll(w.env, t, Flatten(parts)), d.instrs[k], d.hashes[k], coins);
    r.None? || !Storable(r.value)
  }

  lemma FlattenSnoc(parts: seq<seq<StateChange>>, p: seq<StateChange>)
    ensures Flatten(parts + [p]) == Flatten(parts) + p
  {
    FlattenConcat(parts, [p]);
    assert [p][1..] == [] && Flatten([p]) == p + Flatten([]);
  }

  lemma PartsSnoc(w: World, t: Tree, d: Data, coins: seq<Coin>, parts: seq<seq<StateChange>>, p: seq<StateChange>)
    requires Ready(w.env, t) && |d.hashes| == |d.instrs| && Parts(w, t, d, coins, parts) && |parts| < |d.instrs|
    requires w.execute(StoreAll(w.env, t, Flatten(parts)), d.instrs[|parts|], d.hashes[|parts|], coins) == Some(p) && Storable(p)
    ensures Parts(w, t, d, coins, parts + [p])
  {
    var all := parts + [p];
    forall k | 0 <= k < |all| ensures PartAt(w, t, d, coins, all, k) {
      if k < |parts| {
        assert PartAt(w, t, d, coins, parts, k);
        assert all[..k] == parts[..k];
      } else {
        assert all[..k] == parts;
      }
    }
  }

  /** The loop runs through the parts, or to the first instruction that fails. */
  lemma {:induction false} ExecuteParts(w: World, t: Tree, d: Data, coins: seq<Coin>, n: nat) returns (parts: seq<seq<StateChange>>)
    requires Ready(w.env, t) && n <= |d.instrs| && |d.hashes| == |d.instrs|
    ensures Parts(w, t, d, coins, parts)
    ensures
      if |parts| == n then Execute(w, t, d, coins, n) == Some((Flatten(parts), StoreAll(w.env, t, Flatten(parts))))
      else |parts| < n && FailsNext(w, t, d, coins, parts) && Execute(w, t, d, coins, n).None?
    decreases n
  {
    parts := [];
    if n > 0 {
      parts := ExecuteParts(w, t, d, coins, n - 1);
      if |parts| == n - 1 && !FailsNext(w, t, d, coins, parts) {
        var p := w.execute(StoreAll(w.env, t, Flatten(parts)), d.instrs[n - 1], d.hashes[n - 1], coins).value;
        PartsSnoc(w, t, d, coins, parts, p);
        FlattenSnoc(parts, p);
        StoreAllConcat(w.env, t, Flatten(parts), p);
        parts := parts + [p];
      }
    }
  }

  /** There is only one way to go. */
  lemma {:induction false} PartsUnique(w: World, t: Tree, d: Data, coins: seq<Coin>, a: seq<seq<StateChange>>, b: seq<seq<StateChange>>, n: nat)
    requires Ready(w.env, t) && |d.hashes| == |d.instrs| && Parts(w, t, d, coins, a) && Parts(w, t, d, coins, b)
    requires n <= |a| && n <= |b|
    ensures a[..n] == b[..n]
    decreases n
  {
    if n > 0 {
      PartsUnique(w, t, d, coins, a, b, n - 1);
      assert PartAt(w, t, d, coins, a, n - 1) && PartAt(w, t, d, coins, b, n - 1);
      assert a[..n] == a[..n - 1] + [a[n - 1]] && b[..n] == b[..n - 1] + [b[n - 1]];
    }
  }

  lemma NoFurther(w: World, t: Tree, d: Data, coins: seq<Coin>, a: seq<seq<StateChange>>, b: seq<seq<StateChange>>)
    requires Ready(w.env, t) && |d.hashes| == |d.instrs| && Parts(w, t, d, coins, a) && Parts(w, t, d, coins, b)
    ensures |a| < |d.instrs| && FailsNext(w, t, d, coins, a) ==> |b| <= |a|
  {
    var n := if |a| < |b| then |a| else |b|;
    PartsUnique(w, t, d, coins, a, b, n);
    assert a[..|a|] == a;
    assert |a| < |b| ==> PartAt(w, t, d, coins, b, |a|);
  }

  function Executed(w: World, d: Data): (r: Data)
  {
    d.(result := seq(|d.instrs|, i requires 0 <= i < |d.instrs| => w.derive(d.instrs[i])),
       maxExecution := if d.maxExecution > 0 then d.maxExecution - 1 else 0)
  }

  function Saved(w: World, id: InstanceID, d: Data, darcID: Bytes): (sc: StateChange)
  {
    StateChange(Update, id, "deferred", w.encode(d), 0, darcID)
  }

  // ---------------------------------------------------------------------- a call

  predicate Open(d: Data, blockIndex: uint64) {
    d.maxExecution >= 1 && blockIndex <= d.expire
  }

  ghost predicate Callable(w: World, d: Data, c: Call) {
    Ready(w.env, c.trie) && |d.hashes| == |d.instrs|
  }

  /** What Invoke makes of a call: the new data and the changes, or an error. */
  function Answer(w: World, d: Data, c: Call): (r: Option<(Data, seq<StateChange>)>)
    requires Callable(w, d, c)
  {
    var instance := GetKey(w.env.cfg, c.trie, c.id);
    if !Open(d, c.blockIndex) || instance.None? then None
    else
      match c.command
      case Unknown => None
      case AddProof(identity, index, signature) =>
        if !MayAdd(w, d, c.command) then None
        else
          var next := WithProof(w, d, index.value, identity.value, signature.value);
          Some((next, [Saved(w, c.id, next, instance.value.darcID)]))
      case ExecProposedTx =>
        match Execute(w, c.trie, d, c.coins, |d.instrs|)
        case None => None
        case Some((scs, _)) =>
          Some((Executed(w, d), scs + [Saved(w, c.id, Executed(w, d), instance.value.darcID)]))
  }

  /** The loop of execProposedTx. */
  method RunProposed(w: World, t: Tree, d: Data, coins: seq<Coin>) returns (r: Option<seq<StateChange>>)
    requires Ready(w.env, t) && |d.hashes| == |d.instrs|
    ensures r == match Execute(w, t, d, coins, |d.instrs|) case None => None case Some((scs, _)) => Some(scs)
  {
    var scs, replica := [], t;
    for i := 0 to |d.instrs|
      invariant Ready(w.env, replica)
      invariant Execute(w, t, d, coins, i) == Some((scs, replica))
    {
      var next := ExecuteOne(w, scs, replica, d.instrs[i], d.hashes[i], coins);
      ExecuteNext(w, t, d, coins, i);
      if next.None? {
        Fails(w, t, d, coins, i + 1, |d.instrs|);
        return None;
      }
      scs, replica := next.value.0, next.value.1;
    }
    r := Some(scs);
  }

  lemma ExecuteNext(w: World, t: Tree, d: Data, coins: seq<Coin>, n: nat)
    requires Ready(w.env, t) && n < |d.instrs| && |d.hashes| == |d.instrs| && Execute(w, t, d, coins, n).Some?
    ensures
      var (scs, replica) := Execute(w, t, d, coins, n).value;
      Execute(w, t, d, coins, n + 1) == ExecuteOne(w, scs, replica, d.instrs[n], d.hashes[n], coins)
  {
  }

  class Contract {
    var data: Data

    constructor (data: Data)
      ensures this.data == data
    {
      this.data := data;
    }

    method CheckInvoke(w: World, c: Call) returns (ok: bool)
      requires Callable(w, data, c)
      ensures ok <==> Open(data, c.blockIndex) && (c.command.AddProof? ==> MayAdd(w, data, c.command))
    {
      if data.maxExecution < 1 || c.blockIndex > data.expire {
        return false;
      }
      if c.command.AddProof? {
        if c.command.identity.None? || c.command.index.None? {
          return false;
        }
        var index := c.command.index.value;
        if index >= |data.instrs| {
          return false;
        }
        var signers := data.instrs[index].signers;
        for i := 0 to |signers|
          invariant c.command.identity.value !in signers[..i]
        {
          if signers[i] == c.command.identity.value {
            return false;
          }
        }
        assert signers[..|signers|] == signers;
        if c.command.signature.None? {
          return false;
        }
        return w.valid(c.command.identity.value, data.hashes[index], c.command.signature.value);
      }
      ok := true;
    }

    /** A call that fails leaves the data as it was. */
    method Invoke(w: World, c: Call) returns (r: Option<seq<StateChange>>)
      requires Callable(w, data, c)
      modifies this
      ensures match Answer(w, old(data), c)
              case None => r == None && data == old(data)
              case Some((next, scs)) => r == Some(scs) && data == next
    {
      var ok := CheckInvoke(w, c);
      if !ok {
        return None;
      }
      var instance := GetKey(w.env.cfg, c.trie, c.id);
      if instance.None? {
        return None;
      }
      match c.command {
        case Unknown =>
          r := None;
        case AddProof(identity, index, signature) =>
          data := WithProof(w, data, index.value, identity.value, signature.value);
          r := Some([Saved(w, c.id, data, instance.value.darcID)]);
        case ExecProposedTx =>
          r := RunProposed(w, c.trie, data, c.coins);
          if r.Some? {
            data := Executed(w, data);
            r := Some(r.value + [Saved(w, c.id, data, instance.value.darcID)]);
          }
      }
    }
  }

  lemma {:induction false} Fails(w: World, t: Tree, d: Data, coins: seq<Coin>, n: nat, m: nat)
    requires Ready(w.env, t) && n <= m <= |d.instrs| && |d.hashes| == |d.instrs|
    requires Execute(w, t, d, coins, n).None?
    ensures Execute(w, t, d, coins, m).None?
    decreases m
  {
    if n < m {
      Fails(w, t, d, coins, n, m - 1);
    }
  }

  // ------------------------------------------------------- when a call succeeds

  /** An execution succeeds exactly if one is left, the block is not behind the expiry, the
      instance is stored, and all proposed instructions go through; it emits all their
      changes, each instruction's on top of those before, and the update of the instance. */
  lemma ExecutionExactly(w: World, d: Data, c: Call)
    requires Callable(w, d, c) && c.command.ExecProposedTx?
    ensures Answer(w, d, c).Some? <==>
      && d.maxExecution > 0 && c.blockIndex <= d.expire && c.id in Contents(c.trie)
      && exists parts :: Parts(w, c.trie, d, c.coins, parts) && |parts| == |d.instrs|
    ensures forall parts :: Parts(w, c.trie, d, c.coins, parts) && |parts| == |d.instrs| && Answer(w, d, c).Some? ==>
      var (next, scs) := Answer(w, d, c).value;
      && Flatten(parts) + [StateChange(Update, c.id, "deferred", w.encode(next), 0, Contents(c.trie)[c.id].darcID)] == scs
      && next.instrs == d.instrs && next.hashes == d.hashes && next.expire == d.expire
      && next.maxExecution == d.maxExecution - 1
      && |next.result| == |d.instrs| && forall k :: 0 <= k < |d.instrs| ==> next.result[k] == w.derive(d.instrs[k])
  {
    var parts := ExecuteParts(w, c.trie, d, c.coins, |d.instrs|);
    forall other | Parts(w, c.trie, d, c.coins, other) && |other| == |d.instrs| ensures other == parts {
      NoFurther(w, c.trie, d, c.coins, parts, other);
      PartsUnique(w, c.trie, d, c.coins, parts, other, |parts|);
      assert parts[..|parts|] == parts && other[..|other|] == other;
    }
  }

  /** What an execution emits, stored in its order, is the state on which all instructions have
      been executed, with the deferred instance updated. */
  lemma EmittedIsReplica(w: World, d: Data, c: Call, parts: seq<seq<StateChange>>)
    requires Callable(w, d, c) && c.command.ExecProposedTx? && Answer(w, d, c).Some?
    requires Parts(w, c.trie, d, c.coins, parts) && |parts| == |d.instrs|
    ensures
      var (next, scs) := Answer(w, d, c).value;
      StoreAll(w.env, c.trie, scs) ==
        Store(w.env, StoreAll(w.env, c.trie, Flatten(parts)),
              StateChange(Update, c.id, "deferred", w.encode(next), 0, Contents(c.trie)[c.id].darcID))
  {
    ExecutionExactly(w, d, c);
    var next := Answer(w, d, c).value.0;
    var last := StateChange(Update, c.id, "deferred", w.encode(next), 0, Contents(c.trie)[c.id].darcID);
    StoreSnoc(w.env, c.trie, Flatten(parts), last);
  }

  /** It fails exactly if one of these does not hold: some instruction fails, or yields a
      change of no known kind, on top of those before it. */
  lemma ExecutionFailsExactly(w: World, d: Data, c: Call)
    requires Callable(w, d, c) && c.command.ExecProposedTx?
    ensures Answer(w, d, c).None? <==>
      || d.maxExecution == 0 || c.blockIndex > d.expire || c.id !in Contents(c.trie)
      || exists parts :: Parts(w, c.trie, d, c.coins, parts) && |parts| < |d.instrs| && FailsNext(w, c.trie, d, c.coins, parts)
  {
    var parts := ExecuteParts(w, c.trie, d, c.coins, |d.instrs|);
    forall other | Parts(w, c.trie, d, c.coins, other) && |other| < |d.instrs| && |parts| == |d.instrs|
      ensures !FailsNext(w, c.trie, d, c.coins, other)
    {
      PartsUnique(w, c.trie, d, c.coins, parts, other, |other|);
      assert other[..|other|] == other;
      assert PartAt(w, c.trie, d, c.coins, parts, |other|);
    }
  }

  /** A proof is added exactly if the instance is open and stored, the arguments are there,
      the instruction exists, the identity has not signed it yet, and its signature on the
      stored hash is valid; the instruction then has the new signer, and nothing else is
      new. */
  lemma AddProofExactly(w: World, d: Data, c: Call)
    requires Callable(w, d, c) && c.command.AddProof?
    ensures
      var (identity, index, signature) := (c.command.identity, c.command.index, c.command.signature);
      Answer(w, d, c).Some? <==>
        && d.maxExecution > 0 && c.blockIndex <= d.expire && c.id in Contents(c.trie)
        && identity != None && index != None && signature != None && index.value < |d.instrs|
        && identity.value !in d.instrs[index.value].signers
        && w.valid(identity.value, d.hashes[index.value], signature.value)
    ensures Answer(w, d, c).Some? ==>
      var (next, scs) := Answer(w, d, c).value;
      var k := c.command.index.value;
      && scs == [StateChange(Update, c.id, "deferred", w.encode(next), 0, Contents(c.trie)[c.id].darcID)]
      && next == d.(instrs := next.instrs) && |next.instrs| == |d.instrs|
      && (forall j :: 0 <= j < |d.instrs| && j != k ==> next.instrs[j] == d.instrs[j])
      && next.instrs[k].signers == d.instrs[k].signers + [c.command.identity.value]
      && next.instrs[k].signatures == d.instrs[k].signatures + [c.command.signature.value]
  {
  }

  // ---------------------------------------------------------------------- a run

  type Stepper = (Data, Call) -> Option<Data>

  /** The data a call leaves, or None if it fails. */
  ghost function Stepping(w: World): (f: Stepper)
  {
    (d: Data, c: Call) =>
      if Callable(w, d, c) && Answer(w, d, c).Some? then Some(Answer(w, d, c).value.0) else None
  }

  /** The data after the first `n` calls, each of them on a state of its own. */
  ghost function After(f: Stepper, d: Data, calls: seq<Call>, n: nat): (r: Data)
    requires n <= |calls|
  {
    if n == 0 then d
    else
      var before := After(f, d, calls, n - 1);
      match f(before, calls[n - 1])
      case None => before
      case Some(next) => next
  }

  ghost predicate Succeeds(f: Stepper, d: Data, calls: seq<Call>, i: nat)
    requires i < |calls|
  {
    f(After(f, d, calls, i), calls[i]).Some?
  }

  ghost predicate Spends(f: Stepper) {
    forall d, c :: f(d, c).Some? ==>
      var next := f(d, c).value;
      && Open(d, c.blockIndex)
      && next.expire == d.expire
      && next.maxExecution <= d.maxExecution
      && (c.command.ExecProposedTx? ==> next.maxExecution < d.maxExecution)
  }

  lemma SteppingSpends(w: World)
    ensures Spends(Stepping(w))
  {
  }

  lemma {:induction false} Shrinks(f: Stepper, d: Data, calls: seq<Call>, i: nat, j: nat)
    requires Spends(f) && i <= j <= |calls|
    ensures After(f, d, calls, j).maxExecution <= After(f, d, calls, i).maxExecution
    ensures After(f, d, calls, j).expire == After(f, d, calls, i).expire
    decreases j
  {
    if i < j {
      Shrinks(f, d, calls, i, j - 1);
    }
  }

  /** Once the proposed transaction was executed, no call succeeds any more; so it is
      executed at most once. */
  lemma ExecutedOnce(w: World, d: Data, calls: seq<Call>, i: nat, j: nat)
    requires i < j < |calls| && d.maxExecution == DEFAULT_NUM_EXECUTION
    requires calls[i].command.ExecProposedTx? && Succeeds(Stepping(w), d, calls, i)
    ensures !Succeeds(Stepping(w), d, calls, j)
  {
    SteppingSpends(w);
    SpentOnce(Stepping(w), d, calls, i, j);
  }

  lemma SpentOnce(f: Stepper, d: Data, calls: seq<Call>, i: nat, j: nat)
    requires Spends(f) && i < j < |calls| && d.maxExecution == DEFAULT_NUM_EXECUTION
    requires calls[i].command.ExecProposedTx? && Succeeds(f, d, calls, i)
    ensures !Succeeds(f, d, calls, j)
  {
    Shrinks(f, d, calls, 0, i);
    assert After(f, d, calls, i + 1).maxExecution < After(f, d, calls, i).maxExecution;
    Shrinks(f, d, calls, i + 1, j);
  }

  /** No call succeeds in a block behind the expiry. */
  lemma NothingAfterExpiry(w: World, d: Data, calls: seq<Call>, i: nat)
    requires i < |calls| && calls[i].blockIndex > d.expire
    ensures !Succeeds(Stepping(w), d, calls, i)
  {
    SteppingSpends(w);
    Shrinks(Stepping(w), d, calls, 0, i);
  }

  /** The signers an instruction got after the ones it was proposed with. */
  ghost predicate Signs(w: World, hash: Bytes, before: Instruction, now: Instruction) {
    var n, m, p := |before.signers|, |before.signatures|, |before.publics|;
    && now == before.(signers := now.signers, publics := now.publics, signatures := now.signatures)
    && before.signers <= now.signers && before.signatures <= now.signatures && before.publics <= now.publics
    && |now.signers| - n == |now.signatures| - m == |now.publics| - p
    && (forall i :: n <= i < |now.signers| ==> now.publics[p + i - n] == w.publicOf(now.signers[i]))
    && (forall i, j :: 0 <= i < j < |now.signers| && n <= j ==> now.signers[i] != now.signers[j])
    && (forall i :: n <= i < |now.signers| ==> w.valid(now.signers[i], hash, now.signatures[m + i - n]))
  }

  /** A call adds one proof that verifies, or no signer at all. */
  ghost predicate Proves(w: World, f: Stepper) {
    forall d, c :: f(d, c).Some? ==>
      var next := f(d, c).value;
      && next.hashes == d.hashes
      && (next.instrs == d.instrs ||
          (MayAdd(w, d, c.command) &&
           next == WithProof(w, d, c.command.index.value, c.command.identity.value, c.command.signature.value)))
  }

  lemma SteppingProves(w: World)
    ensures Proves(w, Stepping(w))
  {
  }

  ghost predicate AllSign(w: World, d: Data, now: Data) {
    && now.hashes == d.hashes && |now.instrs| == |d.instrs|
    && forall k :: 0 <= k < |d.instrs| && k < |d.hashes| ==> Signs(w, d.hashes[k], d.instrs[k], now.instrs[k])
  }

  /** In every run, the signers that addProof adds to an instruction are distinct, also from
      the ones it had, and each comes with a signature that verifies on the stored hash. */
  lemma {:induction false} ProofsVerify(w: World, d: Data, calls: seq<Call>, n: nat)
    requires n <= |calls|
    ensures AllSign(w, d, After(Stepping(w), d, calls, n))
  {
    SteppingProves(w);
    RunSigns(w, Stepping(w), d, calls, n);
  }

  /** From spawning on, whatever is called: every collected signature verifies on the hash of
      the instruction as it was proposed, the expiry stays, and there is at most one
      execution to come. */
  lemma SpawnedRun(w: World, instrs: Instructions, expire: Option<uint64>, blockIndex: uint64, id: InstanceID,
                   calls: seq<Call>, n: nat)
    requires n <= |calls|
    ensures
      var d, now := SpawnData(w, instrs, expire, blockIndex, id), After(Stepping(w), SpawnData(w, instrs, expire, blockIndex, id), calls, n);
      && now.expire == d.expire && now.maxExecution <= DEFAULT_NUM_EXECUTION
      && |now.instrs| == |now.hashes| == |instrs|
      && forall k :: 0 <= k < |instrs| ==>
        now.hashes[k] == w.hash(instrs[k], id) && Signs(w, w.hash(instrs[k], id), instrs[k], now.instrs[k])
  {
    var d := SpawnData(w, instrs, expire, blockIndex, id);
    ProofsVerify(w, d, calls, n);
    SteppingSpends(w);
    Shrinks(Stepping(w), d, calls, 0, n);
  }

  lemma {:induction false} RunSigns(w: World, f: Stepper, d: Data, calls: seq<Call>, n: nat)
    requires Proves(w, f) && n <= |calls|
    ensures AllSign(w, d, After(f, d, calls, n))
    decreases n
  {
    if n > 0 {
      RunSigns(w, f, d, calls, n - 1);
      var now, c := After(f, d, calls, n - 1), calls[n - 1].command;
      if MayAdd(w, now, c) {
        var k := c.index.value;
      }
    }
  }
}
