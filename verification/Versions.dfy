/** The version numbers of a block: exactly when the (instance, version) keys of its change
    list are all different, so that the history storage, which refuses a key it already has,
    can take the whole list. */
module Versions {
  import opened Types
  import opened Encoding
  import opened Merkle
  import opened Ledger
  import opened Counters
  import opened Lives

  type Changes = seq<StateChange>

  ghost predicate UniqueKeys(l: Changes) {
    forall i, j :: 0 <= i < j < |l| ==> l[i].id != l[j].id || l[i].version != l[j].version
  }

  ghost predicate Distinct(ids: seq<string>) {
    forall i, j :: 0 <= i < j < |ids| ==> ids[i] != ids[j]
  }

  ghost predicate NoneGenerates(l: Changes) {
    forall sc :: sc in l ==> sc.action != GenerateInstruction
  }

  // ----------------------------------------------------- the changes of one instance

  function MarkOf(sc: StateChange): (m: Mark)
  {
    Mark(sc.version, sc.action == Remove)
  }

  function MarksOf(l: Changes, id: InstanceID): (g: Group)
    ensures |g| <= |l|
    decreases |l|
  {
    if l == [] then []
    else
      var n := |l| - 1;
      if l[n].id == id then MarksOf(l[..n], id) + [MarkOf(l[n])] else MarksOf(l[..n], id)
  }

  lemma MarksAppend(l: Changes, sc: StateChange, id: InstanceID)
    ensures MarksOf(l + [sc], id) == if sc.id == id then MarksOf(l, id) + [MarkOf(sc)] else MarksOf(l, id)
  {
    assert (l + [sc])[..|l|] == l;
  }

  lemma {:induction false} MarksConcat(a: Changes, b: Changes, id: InstanceID)
    ensures MarksOf(a + b, id) == MarksOf(a, id) + MarksOf(b, id)
    decreases |b|
  {
    if b == [] {
      assert a + b == a;
    } else {
      var front, sc := b[..|b| - 1], b[|b| - 1];
      assert a + b == (a + front) + [sc] && b == front + [sc];
      MarksConcat(a, front, id);
      MarksAppend(a + front, sc, id);
      MarksAppend(front, sc, id);
    }
  }

  lemma {:induction false} NoMarks(l: Changes, id: InstanceID)
    requires forall sc :: sc in l ==> sc.id != id
    ensures MarksOf(l, id) == []
    decreases |l|
  {
    if l != [] {
      NoMarks(l[..|l| - 1], id);
    }
  }

  ghost predicate HasKey(l: Changes, id: InstanceID, v: nat) {
    exists i :: 0 <= i < |l| && l[i].id == id && l[i].version == v
  }

  lemma HasKeyAppend(l: Changes, sc: StateChange, id: InstanceID, v: nat)
    ensures HasKey(l + [sc], id, v) <==> HasKey(l, id, v) || (sc.id == id && sc.version == v)
  {
    var all := l + [sc];
    assert all[|l|] == sc && forall i :: 0 <= i < |l| ==> all[i] == l[i];
  }

  lemma {:induction false} KeyHasMark(l: Changes, id: InstanceID, v: nat)
    ensures v in VersionsOf(MarksOf(l, id)) <==> HasKey(l, id, v)
    decreases |l|
  {
    if l != [] {
      var front, sc := l[..|l| - 1], l[|l| - 1];
      assert l == front + [sc];
      KeyHasMark(front, id, v);
      HasKeyAppend(front, sc, id, v);
      MarksAppend(front, sc, id);
      VersionsAppend(MarksOf(front, id), MarkOf(sc));
    }
  }

  lemma VersionsAppend(g: Group, m: Mark)
    ensures VersionsOf(g + [m]) == VersionsOf(g) + [m.version]
  {
  }

  lemma NoRepeatAppend(vs: seq<nat>, v: nat)
    ensures NoRepeat(vs + [v]) <==> NoRepeat(vs) && v !in vs
  {
    var all := vs + [v];
    assert all[|vs|] == v && forall i :: 0 <= i < |vs| ==> all[i] == vs[i];
    if v in vs {
      var i :| 0 <= i < |vs| && vs[i] == v;
      assert all[i] == all[|vs|];
    }
  }

  ghost predicate UniqueFor(l: Changes, id: InstanceID) {
    NoRepeat(VersionsOf(MarksOf(l, id)))
  }

  lemma UniqueForAppend(l: Changes, sc: StateChange, id: InstanceID)
    ensures UniqueFor(l + [sc], id) <==> UniqueFor(l, id) && (sc.id == id ==> !HasKey(l, id, sc.version))
  {
    MarksAppend(l, sc, id);
    if sc.id == id {
      KeyHasMark(l, id, sc.version);
      VersionsAppend(MarksOf(l, id), MarkOf(sc));
      NoRepeatAppend(VersionsOf(MarksOf(l, id)), sc.version);
    }
  }

  lemma UniqueAppend(l: Changes, sc: StateChange)
    ensures UniqueKeys(l + [sc]) <==> UniqueKeys(l) && !HasKey(l, sc.id, sc.version)
  {
    var all := l + [sc];
    assert all[|l|] == sc && forall i :: 0 <= i < |l| ==> all[i] == l[i];
    if HasKey(l, sc.id, sc.version) {
      var i :| 0 <= i < |l| && l[i].id == sc.id && l[i].version == sc.version;
      assert all[i].id == all[|l|].id;
    }
  }

  /** The keys are different exactly if each instance's own numbers are. */
  lemma {:induction false} KeysByInstance(l: Changes)
    ensures UniqueKeys(l) <==> forall id: InstanceID :: UniqueFor(l, id)
    decreases |l|
  {
    if l == [] {
      assert forall id: InstanceID :: UniqueFor(l, id);
    } else {
      var front, sc := l[..|l| - 1], l[|l| - 1];
      assert l == front + [sc];
      KeysByInstance(front);
      UniqueAppend(front, sc);
      forall id: InstanceID
        ensures UniqueFor(l, id) <==> UniqueFor(front, id) && (sc.id == id ==> !HasKey(front, id, sc.version))
      {
        UniqueForAppend(front, sc, id);
      }
      assert UniqueFor(l, sc.id) ==> !HasKey(front, sc.id, sc.version);
    }
  }

  // --------------------------------------------------------- what a state has stored

  function Version(env: Env, t: Tree, id: InstanceID): (v: Option<nat>)
    requires Ready(env, t)
  {
    match GetKey(env.cfg, t, id)
    case None => None
    case Some(body) => Some(body.version)
  }

  /** The number that the next change of the instance follows: the counter itself for a
      signer counter, the stored version for everything else. */
  ghost function Stored(env: Env, ids: set<string>, t: Tree, id: InstanceID): (v: Option<nat>)
    requires Ready(env, t)
  {
    if IsCounterKey(env, ids, id) then
      match GetKey(env.cfg, t, id)
      case None => Some(0)
      case Some(body) => if |body.value| < 8 then None else Some(Decode64(body.value))
    else Version(env, t, id)
  }

  /** No number of `n` further changes wraps around. */
  ghost predicate Room(env: Env, ids: set<string>, t: Tree, n: nat)
    requires Ready(env, t)
  {
    && n + 1 < TWO_TO_THE_64
    && forall id: InstanceID :: Stored(env, ids, t, id).Some? ==> Stored(env, ids, t, id).value + n + 1 < TWO_TO_THE_64
  }

  lemma {:induction false} VersionAfter(env: Env, t: Tree, l: Changes, id: InstanceID)
    requires Ready(env, t) && Storable(l) && NoneGenerates(l)
    ensures Version(env, StoreAll(env, t, l), id) ==
      if MarksOf(l, id) == [] then Version(env, t, id) else Leaves(MarksOf(l, id))
    decreases |l|
  {
    if l != [] {
      var front, sc := l[..|l| - 1], l[|l| - 1];
      assert l == front + [sc] && sc in l;
      VersionAfter(env, t, front, id);
      StoreSnoc(env, t, front, sc);
      VersionAfterOne(env, StoreAll(env, t, front), sc, id);
      MarksAppend(front, sc, id);
      if sc.id == id {
        LeavesAppend(MarksOf(front, id), MarkOf(sc));
      }
    }
  }

  lemma LeavesAppend(g: Group, m: Mark)
    ensures Leaves(g + [m]) == if m.removes then None else Some(m.version)
  {
  }

  lemma VersionAfterOne(env: Env, t: Tree, sc: StateChange, id: InstanceID)
    requires Ready(env, t) && sc.action != InvalidAction && sc.action != GenerateInstruction
    ensures Version(env, Store(env, t, sc), id) ==
      if sc.id != id then Version(env, t, id) else if sc.action == Remove then None else Some(sc.version)
  {
  }

  // ------------------------------------------------ the numbering of an instruction

  /** The version loop numbers the changes of an instance on from what is stored. */
  lemma {:induction false} NumberRunsOn(env: Env, t: Tree, raw: Changes, n: nat, id: InstanceID)
    requires Ready(env, t) && n <= |raw| && Number(env, t, raw, n).Some? && n < TWO_TO_THE_64
    requires Version(env, t, id).Some? ==> Version(env, t, id).value + n < TWO_TO_THE_64
    ensures
      var (done, vv) := Number(env, t, raw, n).value;
      var g := MarksOf(done, id);
      && RunsOn(g, NextOf(Version(env, t, id)))
      && if g == [] then id !in vv else id in vv && vv[id] == NextOf(Version(env, t, id)) + |g| - 1
    decreases n
  {
    if n > 0 {
      var m, done0, vv0, sc := NumberSplit(env, t, raw, n);
      NumberRunsOn(env, t, raw, m, id);
      MarksAppend(done0, sc, id);
      if sc.id == id {
        NumberFollows(env, t, vv0, id, |MarksOf(done0, id)|);
        RunsOnAppend(MarksOf(done0, id), NextOf(Version(env, t, id)), MarkOf(sc));
      }
    }
  }

  lemma NumberFollows(env: Env, t: Tree, vv: map<InstanceID, uint64>, id: InstanceID, k: nat)
    requires Ready(env, t) && if k == 0 then id !in vv else id in vv && vv[id] == NextOf(Version(env, t, id)) + k - 1
    requires NextOf(Version(env, t, id)) + k < TWO_TO_THE_64
    ensures NextVersion(env, t, vv, id) == NextOf(Version(env, t, id)) + k
  {
  }

  lemma RunsOnAppend(g: Group, v: nat, m: Mark)
    requires RunsOn(g, v) && m.version == v + |g|
    ensures RunsOn(g + [m], v)
  {
  }

  /** The counter changes of distinct signers mark each signer's counter once. */
  lemma {:induction false} CounterMarks(env: Env, ids: set<string>, t: Tree, signers: seq<string>, s: string)
    requires Ready(env, t) && CountersApart(env, ids) && Within(signers, ids) && s in ids
    requires CounterChanges(env, t, signers).Some? && Distinct(signers)
    ensures
      var g := MarksOf(CounterChanges(env, t, signers).value, env.counterKey(s));
      if s in signers then SignerCounter(env, t, s).Some? && g == [Mark(Next64(SignerCounter(env, t, s).value), false)]
      else g == []
    decreases |signers|
  {
    if signers != [] {
      var front, last := CounterChangesSplit(env, t, signers);
      DistinctSplit(front, last);
      assert last in signers && forall x :: x in front ==> x in signers;
      CounterMarks(env, ids, t, front, s);
      MarksAppend(CounterChanges(env, t, front).value, CounterChange(env, last, SignerCounter(env, t, last).value), env.counterKey(s));
    }
  }

  lemma DistinctSplit(front: seq<string>, last: string)
    requires Distinct(front + [last])
    ensures Distinct(front) && last !in front
  {
    var all := front + [last];
    assert all[|front|] == last && forall i :: 0 <= i < |front| ==> all[i] == front[i];
  }

  lemma CounterObeys(env: Env, ids: set<string>, info: BlockInfo, h: TxHash, t: Tree, cin: seq<Coin>, instr: Instruction, s: string)
    requires Ready(env, t) && CountersApart(env, ids) && Within(instr.signers, ids) && Distinct(instr.signers) && s in ids
    requires Step(env, info, h, t, cin, instr).Stepped? && Room(env, ids, t, |Step(env, info, h, t, cin, instr).changes|)
    ensures
      var r := Step(env, info, h, t, cin, instr);
      Obeys(AsStored(SignerCounter(env, t, s)), MarksOf(r.changes, env.counterKey(s)), AsStored(SignerCounter(env, r.state, s)))
  {
    var scs := ExecuteInstruction(env, info, t, cin, instr, h).value.0;
    var ccs := CounterChanges(env, t, instr.signers).value;
    AvoidsCounters(env, ids, info, h, t, cin, instr, s);
    NoMarks(scs, env.counterKey(s));
    MarksConcat(scs, ccs, env.counterKey(s));
    CounterMarks(env, ids, t, instr.signers, s);
    StepRaises(env, ids, info, h, t, cin, instr, s);
    StoredCounter(env, ids, t, s);
    CounterRule(SignerCounter(env, t, s), MarksOf(scs + ccs, env.counterKey(s)),
                SignerCounter(env, Step(env, info, h, t, cin, instr).state, s), s in instr.signers);
  }

  lemma CounterRule(c: Option<uint64>, g: Group, c': Option<uint64>, signs: bool)
    requires
      if signs then c.Some? && c.value + 1 < TWO_TO_THE_64 && g == [Mark(Next64(c.value), false)] && c' == Some(Next64(c.value))
      else g == [] && c' == c
    ensures Obeys(AsStored(c), g, AsStored(c'))
  {
  }

  function AsStored(c: Option<uint64>): (v: Option<nat>)
  {
    if c.Some? then Some(c.value) else None
  }

  lemma StoredCounter(env: Env, ids: set<string>, t: Tree, s: string)
    requires Ready(env, t) && s in ids
    ensures Stored(env, ids, t, env.counterKey(s)) == AsStored(SignerCounter(env, t, s))
  {
    assert IsCounterKey(env, ids, env.counterKey(s));
  }

  lemma InstanceObeys(env: Env, ids: set<string>, info: BlockInfo, h: TxHash, t: Tree, cin: seq<Coin>, instr: Instruction, id: InstanceID)
    requires Ready(env, t) && Within(instr.signers, ids) && !IsCounterKey(env, ids, id)
    requires Step(env, info, h, t, cin, instr).Stepped? && Room(env, ids, t, |Step(env, info, h, t, cin, instr).changes|)
    requires NoneGenerates(Step(env, info, h, t, cin, instr).changes)
    ensures
      var r := Step(env, info, h, t, cin, instr);
      Obeys(Version(env, t, id), MarksOf(r.changes, id), Version(env, r.state, id))
  {
    var raw := env.contract(t, info, instr, cin, h).value.0;
    var scs := ExecuteInstruction(env, info, t, cin, instr, h).value.0;
    var ccs := CounterChanges(env, t, instr.signers).value;
    assert Stored(env, ids, t, id) == Version(env, t, id);
    NumberRunsOn(env, t, raw, |raw|, id);
    CounterChangesKeys(env, t, instr.signers);
    NoMarks(ccs, id);
    MarksConcat(scs, ccs, id);
    StepStores(env, info, h, t, cin, instr);
    VersionAfter(env, t, scs + ccs, id);
  }

  /** An instruction follows the numbering rule for every instance. */
  lemma StepObeys(env: Env, ids: set<string>, info: BlockInfo, h: TxHash, t: Tree, cin: seq<Coin>, instr: Instruction, id: InstanceID)
    requires Ready(env, t) && CountersApart(env, ids) && Within(instr.signers, ids) && Distinct(instr.signers)
    requires Step(env, info, h, t, cin, instr).Stepped? && Room(env, ids, t, |Step(env, info, h, t, cin, instr).changes|)
    requires NoneGenerates(Step(env, info, h, t, cin, instr).changes)
    ensures
      var r := Step(env, info, h, t, cin, instr);
      Obeys(Stored(env, ids, t, id), MarksOf(r.changes, id), Stored(env, ids, r.state, id))
  {
    if IsCounterKey(env, ids, id) {
      var s :| s in ids && env.counterKey(s) == id;
      CounterObeys(env, ids, info, h, t, cin, instr, s);
      StoredCounter(env, ids, t, s);
      StoredCounter(env, ids, Step(env, info, h, t, cin, instr).state, s);
    } else {
      InstanceObeys(env, ids, info, h, t, cin, instr, id);
    }
  }

  /** Without a generating change there is no generated instruction. */
  lemma NoneGenerated(env: Env, info: BlockInfo, h: TxHash, t: Tree, cin: seq<Coin>, instr: Instruction)
    requires Ready(env, t) && Step(env, info, h, t, cin, instr).Stepped?
    requires NoneGenerates(Step(env, info, h, t, cin, instr).changes)
    ensures Step(env, info, h, t, cin, instr).generated == []
  {
    var scs := ExecuteInstruction(env, info, t, cin, instr, h).value.0;
    assert forall sc :: sc in scs ==> sc in Step(env, info, h, t, cin, instr).changes;
    CheckGeneratesNone(env, t, instr, scs, |scs|);
  }

  lemma {:induction false} CheckGeneratesNone(env: Env, t: Tree, instr: Instruction, scs: Changes, n: nat)
    requires Ready(env, t) && n <= |scs| && Check(env, t, instr, scs, n).Some? && NoneGenerates(scs)
    ensures Check(env, t, instr, scs, n).value.generated == []
    decreases n
  {
    if n > 0 {
      CheckGeneratesNone(env, t, instr, scs, n - 1);
      assert scs[n - 1] in scs;
    }
  }

  // -------------------------------------------------- the groups of a block's changes

  function GroupsOf(gs: seq<Changes>, id: InstanceID): (r: seq<Group>)
    ensures |r| == |gs|
  {
    seq(|gs|, i requires 0 <= i < |gs| => MarksOf(gs[i], id))
  }

  lemma {:induction false} FlatOfGroups(gs: seq<Changes>, id: InstanceID)
    ensures Flat(GroupsOf(gs, id)) == MarksOf(Flatten(gs), id)
    decreases |gs|
  {
    if gs != [] {
      FlatOfGroups(gs[1..], id);
      MarksConcat(gs[0], Flatten(gs[1..]), id);
      assert GroupsOf(gs, id)[1..] == GroupsOf(gs[1..], id);
    }
  }

  /** The changes of a run, one group for each instruction. */
  ghost function RunGroups(step: Stepper, t: Tree, queue: Instructions, cin: seq<Coin>, n: nat): (gs: seq<Changes>)
    decreases n
  {
    if queue == [] || n == 0 then []
    else
      var s := step(t, cin, queue[0]);
      if s.Failed? then []
      else [s.changes] + RunGroups(step, s.state, s.generated + queue[1..], s.coins, n - 1)
  }

  lemma {:induction false} RunFlattens(step: Stepper, t: Tree, queue: Instructions, cin: seq<Coin>, n: nat)
    requires Run(step, t, queue, cin, n).Accepted?
    ensures Flatten(RunGroups(step, t, queue, cin, n)) == Run(step, t, queue, cin, n).changes
    decreases n
  {
    if queue != [] {
      var s := step(t, cin, queue[0]);
      RunFlattens(step, s.state, s.generated + queue[1..], s.coins, n - 1);
      var gs := RunGroups(step, t, queue, cin, n);
      assert gs[1..] == RunGroups(step, s.state, s.generated + queue[1..], s.coins, n - 1);
    }
  }

  lemma {:induction false} MoreGroups(step: Stepper, t: Tree, queue: Instructions, cin: seq<Coin>, n: nat, m: nat)
    requires n <= m && !Run(step, t, queue, cin, n).Unfinished?
    ensures RunGroups(step, t, queue, cin, m) == RunGroups(step, t, queue, cin, n)
    decreases n
  {
    if queue != [] {
      var s := step(t, cin, queue[0]);
      if s.Stepped? {
        MoreGroups(step, s.state, s.generated + queue[1..], s.coins, n - 1, m - 1);
      }
    }
  }

  /** The groups of an accepted transaction: none if it is not accepted. */
  ghost function TxGroups(env: Env, info: BlockInfo, t: Tree, tx: Instructions): (gs: seq<Changes>)
    requires Ready(env, t)
  {
    if !Process(env, info, t, tx).Accepted? then []
    else
      var step := Steps(env, info, HashInstructions(info.version, tx));
      var n: nat :| !Run(step, t, tx, [], n).Unfinished?;
      RunGroups(step, t, tx, [], n)
  }

  lemma TxGroupsIsRun(env: Env, info: BlockInfo, t: Tree, tx: Instructions, n: nat)
    requires Ready(env, t) && Run(Steps(env, info, HashInstructions(info.version, tx)), t, tx, [], n).Accepted?
    ensures Process(env, info, t, tx).Accepted?
    ensures TxGroups(env, info, t, tx) == RunGroups(Steps(env, info, HashInstructions(info.version, tx)), t, tx, [], n)
  {
    var step := Steps(env, info, HashInstructions(info.version, tx));
    ProcessIsRun(env, info, t, tx, n);
    var m: nat :| !Run(step, t, tx, [], m).Unfinished? && TxGroups(env, info, t, tx) == RunGroups(step, t, tx, [], m);
    if n <= m {
      MoreGroups(step, t, tx, [], n, m);
    } else {
      MoreGroups(step, t, tx, [], m, n);
    }
  }

  ghost function BlockGroups(env: Env, info: BlockInfo, t: Tree, txs: seq<TxResult>): (gs: seq<Changes>)
    requires Ready(env, t)
    decreases |txs|
  {
    if txs == [] then []
    else
      var n := |txs| - 1;
      BlockGroups(env, info, t, txs[..n]) + TxGroups(env, info, Block(env, info, t, txs[..n]).state, txs[n].instrs)
  }

  // ------------------------------------------------------------------ whole blocks

  ghost predicate Signs(tx: Instructions, ids: set<string>) {
    forall instr :: instr in tx ==> Distinct(instr.signers) && Within(instr.signers, ids)
  }

  ghost predicate AllObey(env: Env, ids: set<string>, t: Tree, l: Changes, t': Tree)
    requires Ready(env, t) && Ready(env, t')
  {
    forall id: InstanceID :: Obeys(Stored(env, ids, t, id), MarksOf(l, id), Stored(env, ids, t', id))
  }

  ghost predicate StepFollows(env: Env, ids: set<string>, t: Tree, s: StepResult)
    requires Ready(env, t) && s.Stepped?
  {
    NoneGenerates(s.changes) && Room(env, ids, t, |s.changes|) ==>
      Ready(env, s.state) && s.generated == [] && AllObey(env, ids, t, s.changes, s.state)
  }

  ghost predicate Following(env: Env, ids: set<string>, step: Stepper) {
    forall t, cin, instr: Instruction :: Ready(env, t) && Distinct(instr.signers) && Within(instr.signers, ids) && step(t, cin, instr).Stepped?
      ==> StepFollows(env, ids, t, step(t, cin, instr))
  }

  lemma StepsFollow(env: Env, ids: set<string>, info: BlockInfo, h: TxHash)
    requires CountersApart(env, ids)
    ensures Following(env, ids, Steps(env, info, h))
  {
    forall t, cin, instr: Instruction | Ready(env, t) && Distinct(instr.signers) && Within(instr.signers, ids)
                           && Steps(env, info, h)(t, cin, instr).Stepped?
      ensures StepFollows(env, ids, t, Steps(env, info, h)(t, cin, instr))
    {
      var s := Step(env, info, h, t, cin, instr);
      if NoneGenerates(s.changes) && Room(env, ids, t, |s.changes|) {
        NoneGenerated(env, info, h, t, cin, instr);
        forall id: InstanceID ensures Obeys(Stored(env, ids, t, id), MarksOf(s.changes, id), Stored(env, ids, s.state, id)) {
          StepObeys(env, ids, info, h, t, cin, instr, id);
        }
      }
    }
  }

  lemma RoomLeft(env: Env, ids: set<string>, t: Tree, l: Changes, t': Tree, n: nat)
    requires Ready(env, t) && Ready(env, t') && AllObey(env, ids, t, l, t') && Room(env, ids, t, |l| + n)
    ensures Room(env, ids, t', n)
  {
    forall id: InstanceID | Stored(env, ids, t', id).Some?
      ensures Stored(env, ids, t', id).value + n + 1 < TWO_TO_THE_64
    {
      assert Obeys(Stored(env, ids, t, id), MarksOf(l, id), Stored(env, ids, t', id));
    }
  }

  lemma RoomSmaller(env: Env, ids: set<string>, t: Tree, n: nat, m: nat)
    requires Ready(env, t) && Room(env, ids, t, n) && m <= n
    ensures Room(env, ids, t, m)
  {
  }

  /** Every instruction of a run follows the rule, with room for `more` changes after it. */
  lemma {:induction false} RunRuled(env: Env, ids: set<string>, step: Stepper, t: Tree, queue: Instructions, cin: seq<Coin>, n: nat,
                                    more: nat, id: InstanceID)
    requires Ready(env, t) && Following(env, ids, step) && Signs(queue, ids) && Run(step, t, queue, cin, n).Accepted?
    requires NoneGenerates(Run(step, t, queue, cin, n).changes) && Room(env, ids, t, |Run(step, t, queue, cin, n).changes| + more)
    ensures
      var r := Run(step, t, queue, cin, n);
      && Ready(env, r.state) && Room(env, ids, r.state, more)
      && Ruled(Stored(env, ids, t, id), GroupsOf(RunGroups(step, t, queue, cin, n), id), Stored(env, ids, r.state, id))
    decreases n
  {
    if queue != [] {
      var s := step(t, cin, queue[0]);
      var r := Run(step, s.state, s.generated + queue[1..], s.coins, n - 1);
      RoomSmaller(env, ids, t, |s.changes| + |r.changes| + more, |s.changes|);
      NoneGeneratesSplit(s.changes, r.changes);
      assert StepFollows(env, ids, t, s);
      assert s.generated + queue[1..] == queue[1..];
      RoomLeft(env, ids, t, s.changes, s.state, |r.changes| + more);
      RunRuled(env, ids, step, s.state, queue[1..], s.coins, n - 1, more, id);
      assert Obeys(Stored(env, ids, t, id), MarksOf(s.changes, id), Stored(env, ids, s.state, id));
      RuledFirst(Stored(env, ids, t, id), s.changes, Stored(env, ids, s.state, id),
                 RunGroups(step, s.state, queue[1..], s.coins, n - 1), Stored(env, ids, r.state, id), id);
    }
  }

  lemma RuledFirst(a: Option<nat>, l: Changes, b: Option<nat>, gs: seq<Changes>, c: Option<nat>, id: InstanceID)
    requires Obeys(a, MarksOf(l, id), b) && Ruled(b, GroupsOf(gs, id), c)
    ensures Ruled(a, GroupsOf([l] + gs, id), c)
  {
    var all := GroupsOf([l] + gs, id);
    assert all[0] == MarksOf(l, id) && all[1..] == GroupsOf(gs, id);
  }

  lemma NoneGeneratesSplit(a: Changes, b: Changes)
    requires NoneGenerates(a + b)
    ensures NoneGenerates(a) && NoneGenerates(b)
  {
    assert forall sc :: sc in a || sc in b ==> sc in a + b;
  }

  lemma TxRuled(env: Env, ids: set<string>, info: BlockInfo, t: Tree, tx: Instructions, more: nat, id: InstanceID)
    requires Ready(env, t) && CountersApart(env, ids) && Signs(tx, ids) && Process(env, info, t, tx).Accepted?
    requires NoneGenerates(Process(env, info, t, tx).changes) && Room(env, ids, t, |Process(env, info, t, tx).changes| + more)
    ensures
      var r, gs := Process(env, info, t, tx), TxGroups(env, info, t, tx);
      && Room(env, ids, r.state, more) && Flatten(gs) == r.changes
      && Ruled(Stored(env, ids, t, id), GroupsOf(gs, id), Stored(env, ids, r.state, id))
  {
    var h := HashInstructions(info.version, tx);
    var step := Steps(env, info, h);
    var n: nat :| !Run(step, t, tx, [], n).Unfinished?;
    ProcessIsRun(env, info, t, tx, n);
    TxGroupsIsRun(env, info, t, tx, n);
    StepsFollow(env, ids, info, h);
    RunFlattens(step, t, tx, [], n);
    RunRuled(env, ids, step, t, tx, [], n, more, id);
  }

  lemma {:induction false} BlockRuled(env: Env, ids: set<string>, info: BlockInfo, t: Tree, txs: seq<TxResult>, more: nat, id: InstanceID)
    requires Ready(env, t) && CountersApart(env, ids) && forall tx :: tx in txs ==> Signs(tx.instrs, ids)
    requires NoneGenerates(Block(env, info, t, txs).changes) && Room(env, ids, t, |Block(env, info, t, txs).changes| + more)
    ensures
      var r, gs := Block(env, info, t, txs), BlockGroups(env, info, t, txs);
      && Room(env, ids, r.state, more) && Flatten(gs) == r.changes
      && Ruled(Stored(env, ids, t, id), GroupsOf(gs, id), Stored(env, ids, r.state, id))
    decreases |txs|
  {
    if txs != [] {
      var n := |txs| - 1;
      var before, tx := Block(env, info, t, txs[..n]), txs[n].instrs;
      var r, gs := Process(env, info, before.state, tx), BlockGroups(env, info, t, txs[..n]);
      if r.Accepted? {
        NoneGeneratesSplit(before.changes, r.changes);
        BlockRuled(env, ids, info, t, txs[..n], |r.changes| + more, id);
        assert txs[n] in txs;
        TxRuled(env, ids, info, before.state, tx, more, id);
        RuledOn(Stored(env, ids, t, id), gs, Stored(env, ids, before.state, id), TxGroups(env, info, before.state, tx),
                Stored(env, ids, r.state, id), id);
      } else {
        BlockRuled(env, ids, info, t, txs[..n], more, id);
        assert gs + [] == gs;
      }
    }
  }

  lemma RuledOn(a: Option<nat>, gs: seq<Changes>, b: Option<nat>, hs: seq<Changes>, c: Option<nat>, id: InstanceID)
    requires Ruled(a, GroupsOf(gs, id), b) && Ruled(b, GroupsOf(hs, id), c)
    ensures Ruled(a, GroupsOf(gs + hs, id), c) && Flatten(gs + hs) == Flatten(gs) + Flatten(hs)
  {
    RuledConcat(a, GroupsOf(gs, id), b, GroupsOf(hs, id), c);
    assert GroupsOf(gs + hs, id) == GroupsOf(gs, id) + GroupsOf(hs, id);
    FlattenConcat(gs, hs);
  }

  /** At most one life of the instance begins in the block after a removal, and that life
      has no more changes than the number of the instance's first change in the block. */
  ghost predicate Fits(env: Env, ids: set<string>, info: BlockInfo, t: Tree, txs: seq<TxResult>, id: InstanceID)
    requires Ready(env, t)
  {
    LivesFit(NextOf(Stored(env, ids, t, id)), LifeLengths(GroupsOf(BlockGroups(env, info, t, txs), id)))
  }

  ghost predicate EachFits(env: Env, ids: set<string>, info: BlockInfo, t: Tree, txs: seq<TxResult>)
    requires Ready(env, t)
  {
    forall id: InstanceID :: Fits(env, ids, info, t, txs, id)
  }

  /** With distinct signers on every instruction, no generated instruction and no
      wrap-around, the keys of a block are different exactly if each instance's lives fit. */
  lemma BlockKeysExactly(env: Env, ids: set<string>, info: BlockInfo, t: Tree, txs: seq<TxResult>)
    requires Ready(env, t) && CountersApart(env, ids) && forall tx :: tx in txs ==> Signs(tx.instrs, ids)
    requires NoneGenerates(Block(env, info, t, txs).changes) && Room(env, ids, t, |Block(env, info, t, txs).changes|)
    ensures UniqueKeys(Block(env, info, t, txs).changes) <==> EachFits(env, ids, info, t, txs)
  {
    forall id: InstanceID ensures UniqueFor(Block(env, info, t, txs).changes, id) <==> Fits(env, ids, info, t, txs, id) {
      UniqueForExactly(env, ids, info, t, txs, id);
    }
    KeysByInstance(Block(env, info, t, txs).changes);
  }

  lemma UniqueForExactly(env: Env, ids: set<string>, info: BlockInfo, t: Tree, txs: seq<TxResult>, id: InstanceID)
    requires Ready(env, t) && CountersApart(env, ids) && forall tx :: tx in txs ==> Signs(tx.instrs, ids)
    requires NoneGenerates(Block(env, info, t, txs).changes) && Room(env, ids, t, |Block(env, info, t, txs).changes|)
    ensures UniqueFor(Block(env, info, t, txs).changes, id) <==> Fits(env, ids, info, t, txs, id)
  {
    var r, gs := Block(env, info, t, txs), BlockGroups(env, info, t, txs);
    BlockRuled(env, ids, info, t, txs, 0, id);
    FlatOfGroups(gs, id);
    RuledUnique(Stored(env, ids, t, id), GroupsOf(gs, id), Stored(env, ids, r.state, id));
  }

  /** Nor does any version of the block come up to the largest. */
  lemma VersionsBelow(env: Env, ids: set<string>, info: BlockInfo, t: Tree, txs: seq<TxResult>, i: nat)
    requires Ready(env, t) && CountersApart(env, ids) && forall tx :: tx in txs ==> Signs(tx.instrs, ids)
    requires NoneGenerates(Block(env, info, t, txs).changes) && Room(env, ids, t, |Block(env, info, t, txs).changes|)
    requires i < |Block(env, info, t, txs).changes|
    ensures Block(env, info, t, txs).changes[i].version + 1 < TWO_TO_THE_64
  {
    var r, gs := Block(env, info, t, txs), BlockGroups(env, info, t, txs);
    var id, v := r.changes[i].id, r.changes[i].version;
    BlockRuled(env, ids, info, t, txs, 0, id);
    FlatOfGroups(gs, id);
    RuledBelow(Stored(env, ids, t, id), GroupsOf(gs, id), Stored(env, ids, r.state, id), TWO_TO_THE_64 - 1);
    assert HasKey(r.changes, id, v);
    KeyHasMark(r.changes, id, v);
  }

  // ------------------------------------------------------- removing and creating again

  /** One contract, which removes an instance on a delete and creates it on all else. */
  function ToggleEnv(cfg: Config, x: InstanceID): (env: Env)
  {
    Env(cfg, (t, info, instr: Instruction, cin, h) => Some(([Toggled(instr.payload.Delete?, x, 0)], [])), {}, b => None, (i, n) => [], s => x)
  }

  function Toggled(remove: bool, x: InstanceID, version: uint64): (sc: StateChange)
  {
    StateChange(if remove then Remove else Create, x, "", [], version, [])
  }

  function Toggle(remove: bool, x: InstanceID): (i: Instruction)
  {
    Instruction(x, if remove then Delete("", []) else Spawn("", []), [], [], [], [], false)
  }

  function NumberFor(env: Env, t: Tree, x: InstanceID): (v: uint64)
    requires Ready(env, t)
  {
    NextVersion(env, t, map[], x)
  }

  lemma ToggleStep(cfg: Config, x: InstanceID, info: BlockInfo, h: TxHash, t: Tree, remove: bool)
    requires Collisionless(cfg) && ValidTrie(cfg, t) && (x in Contents(t) <==> remove)
    ensures
      var env := ToggleEnv(cfg, x);
      var sc := Toggled(remove, x, NumberFor(env, t, x));
      Step(env, info, h, t, [], Toggle(remove, x)) == Stepped([sc], Store(env, t, sc), [], [])
  {
    var env, instr := ToggleEnv(cfg, x), Toggle(remove, x);
    var raw, sc := [Toggled(remove, x, 0)], Toggled(remove, x, NumberFor(env, t, x));
    assert Number(env, t, raw, 0) == Some(([], map[]));
    assert Number(env, t, raw, 1).Some? && Number(env, t, raw, 1).value.0 == [sc];
    assert ExecuteInstruction(env, info, t, [], instr, h) == Some(([sc], []));
    assert Check(env, t, instr, [sc], 0) == Some(CheckState(t, [], 0));
    assert Check(env, t, instr, [sc], 1) == Some(CheckState(Store(env, t, sc), [], 0));
    assert [sc] + [] == [sc];
  }

  lemma RunOne(step: Stepper, t: Tree, queue: Instructions, n: nat, rest: Instructions)
    requires queue != [] && queue[1..] == rest && step(t, [], queue[0]).Stepped?
    requires step(t, [], queue[0]).generated == [] && step(t, [], queue[0]).coins == []
    ensures
      var s := step(t, [], queue[0]);
      Run(step, t, queue, [], n + 1) == After(s.changes, Run(step, s.state, rest, [], n))
  {
    assert [] + rest == rest;
  }

  /** Removing a stored instance and creating it again in one transaction repeats a key
      exactly if the removal's number wraps around to the zero of the creation. */
  lemma RecreatedExactly(cfg: Config, x: InstanceID, info: BlockInfo, t: Tree)
    requires Collisionless(cfg) && ValidTrie(cfg, t) && x in Contents(t)
    ensures
      var r := Block(ToggleEnv(cfg, x), info, t, [TxResult([Toggle(true, x), Toggle(false, x)], false)]);
      && r.txOut[0].accepted && x in Contents(r.state)
      && (UniqueKeys(r.changes) <==> Contents(t)[x].version + 1 < TWO_TO_THE_64)
  {
    var env, a, b := ToggleEnv(cfg, x), Toggle(true, x), Toggle(false, x);
    var tx := [a, b];
    var h := HashInstructions(info.version, tx);
    var t1 := ToggleRun(cfg, x, info, h, t, true, tx, [b], 1);
    var t2 := ToggleRun(cfg, x, info, h, t1, false, [b], [], 0);
    OneTxBlock(env, info, t, tx, 2);
    TwoUnique(Toggled(true, x, Next64(Contents(t)[x].version)), Toggled(false, x, 0), t2);
  }

  lemma TwoUnique(a: StateChange, b: StateChange, t: Tree)
    requires a.id == b.id
    ensures
      var r := After([a], After([b], Accepted([], t)));
      r.Accepted? && r.state == t && (UniqueKeys(r.changes) <==> a.version != b.version)
  {
    assert [b] + [] == [b] && [a] + [b] == [a, b];
    var l := [a, b];
    assert l[0] == a && l[1] == b;
  }

  lemma ThreeNotUnique(a: StateChange, b: StateChange, t: Tree)
    ensures
      var r := After([a], After([b], After([a], Accepted([], t))));
      r.Accepted? && r.state == t && r.changes == [a, b, a] && !UniqueKeys(r.changes)
  {
    var l := [a] + ([b] + ([a] + []));
    assert l == [a, b, a] && l[0] == a && l[2] == a;
  }

  /** A run whose first instruction is a toggle that the state permits. */
  lemma ToggleRun(cfg: Config, x: InstanceID, info: BlockInfo, h: TxHash, t: Tree, remove: bool, queue: Instructions, rest: Instructions,
                  n: nat) returns (t': Tree)
    requires Collisionless(cfg) && ValidTrie(cfg, t) && (x in Contents(t) <==> remove)
    requires queue == [Toggle(remove, x)] + rest
    ensures ValidTrie(cfg, t') && (x in Contents(t') <==> !remove)
    ensures
      var env := ToggleEnv(cfg, x);
      var v := NumberFor(env, t, x);
      && (!remove ==> v == 0 && Contents(t')[x].version == 0)
      && (remove ==> v == Next64(Contents(t)[x].version))
      && Run(Steps(env, info, h), t, queue, [], n + 1) == After([Toggled(remove, x, v)], Run(Steps(env, info, h), t', rest, [], n))
  {
    var env := ToggleEnv(cfg, x);
    var sc := Toggled(remove, x, NumberFor(env, t, x));
    ToggleStep(cfg, x, info, h, t, remove);
    t' := Store(env, t, sc);
    RunOne(Steps(env, info, h), t, queue, n, rest);
  }

  lemma OneTxBlock(env: Env, info: BlockInfo, t: Tree, tx: Instructions, n: nat)
    requires Ready(env, t) && Run(Steps(env, info, HashInstructions(info.version, tx)), t, tx, [], n).Accepted?
    ensures
      var r, b := Run(Steps(env, info, HashInstructions(info.version, tx)), t, tx, [], n), Block(env, info, t, [TxResult(tx, false)]);
      b.txOut[0].accepted && b.changes == r.changes && b.state == r.state
  {
    ProcessIsRun(env, info, t, tx, n);
    var p, txs := Processes(env, info), [TxResult(tx, false)];
    assert RunBlock(p, t, txs[..0]) == BlockResult([], [], t);
    assert txs[..0] == [] && RunBlock(p, t, txs) == Next(p, BlockResult([], [], t), txs[0]);
  }

  /** Creating, removing and creating an instance that was not there repeats the number zero. */
  lemma CreatedTwice(cfg: Config, x: InstanceID, info: BlockInfo, t: Tree)
    requires Collisionless(cfg) && ValidTrie(cfg, t) && x !in Contents(t)
    ensures
      var r := Block(ToggleEnv(cfg, x), info, t, [TxResult([Toggle(false, x), Toggle(true, x), Toggle(false, x)], false)]);
      && r.txOut[0].accepted && x in Contents(r.state)
      && r.changes == [Toggled(false, x, 0), Toggled(true, x, 1), Toggled(false, x, 0)]
      && !UniqueKeys(r.changes)
  {
    var env, a, b := ToggleEnv(cfg, x), Toggle(false, x), Toggle(true, x);
    var tx := [a, b, a];
    var h := HashInstructions(info.version, tx);
    var t1 := ToggleRun(cfg, x, info, h, t, false, tx, [b, a], 2);
    var t2 := ToggleRun(cfg, x, info, h, t1, true, [b, a], [a], 1);
    var t3 := ToggleRun(cfg, x, info, h, t2, false, [a], [], 0);
    OneTxBlock(env, info, t, tx, 3);
    ThreeNotUnique(Toggled(false, x, 0), Toggled(true, x, 1), t3);
  }
}
