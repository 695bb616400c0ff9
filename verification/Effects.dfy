/** What an instruction and a transaction do, said without the loops: which answers of a
    contract are refused, what an accepted one leaves, and in which order and with which
    coins the instructions of a transaction run. */
module Effects {
  import opened Types
  import opened Encoding
  import opened Merkle
  import opened Ledger

  type Changes = seq<StateChange>

  // ------------------------------------------------------------- what is refused

  /** The change creates what is there, updates or removes what is not, generates something
      that is no instruction, or is of no known kind. */
  ghost predicate Impossible(env: Env, t: Tree, sc: StateChange) {
    || (sc.action == Create && sc.id in Contents(t))
    || (sc.action == Update && sc.id !in Contents(t))
    || (sc.action == Remove && sc.id !in Contents(t))
    || (sc.action == GenerateInstruction && env.decode(sc.value).None?)
    || sc.action == InvalidAction
  }

  /** The change is impossible in the state that the ones before it lead to. */
  ghost predicate ImpossibleAt(env: Env, t: Tree, scs: Changes, i: nat)
    requires Ready(env, t) && i < |scs|
  {
    Impossible(env, StoreAll(env, t, scs[..i]), scs[i])
  }

  /** So is one of the first `n` changes. */
  ghost predicate SomeImpossible(env: Env, t: Tree, scs: Changes, n: nat)
    requires Ready(env, t) && n <= |scs|
  {
    exists i :: 0 <= i < n && ImpossibleAt(env, t, scs, i)
  }

  lemma ImpossibleNext(env: Env, t: Tree, scs: Changes, m: nat, n: nat)
    requires Ready(env, t) && m + 1 == n <= |scs|
    ensures SomeImpossible(env, t, scs, n) <==> SomeImpossible(env, t, scs, m) || ImpossibleAt(env, t, scs, m)
  {
  }

  ghost predicate Unregistered(env: Env, sc: StateChange) {
    sc.contractID != "" && sc.contractID !in env.registry
  }

  /** What is stored as the signer's counter is too short to be one. */
  ghost predicate Unreadable(env: Env, t: Tree, signer: string) {
    env.counterKey(signer) in Contents(t) && |Contents(t)[env.counterKey(signer)].value| < 8
  }

  lemma {:induction false} NumberFailsExactly(env: Env, t: Tree, raw: Changes, n: nat)
    requires Ready(env, t) && n <= |raw|
    ensures Number(env, t, raw, n).None? <==> exists i :: 0 <= i < n && Unregistered(env, raw[i])
    decreases n
  {
    if n > 0 {
      NumberFailsExactly(env, t, raw, n - 1);
    }
  }

  lemma {:induction false} CountersFailExactly(env: Env, t: Tree, signers: seq<string>)
    requires Ready(env, t)
    ensures CounterChanges(env, t, signers).None? <==> SomeUnreadable(env, t, signers)
    decreases |signers|
  {
    if signers != [] {
      var front, last := signers[..|signers| - 1], signers[|signers| - 1];
      CountersFailExactly(env, t, front);
      CounterUnreadable(env, t, last);
      UnreadableAppend(env, t, front, last);
      assert signers == front + [last];
    }
  }

  ghost predicate SomeUnreadable(env: Env, t: Tree, signers: seq<string>) {
    exists i :: 0 <= i < |signers| && Unreadable(env, t, signers[i])
  }

  lemma CounterUnreadable(env: Env, t: Tree, signer: string)
    requires Ready(env, t)
    ensures SignerCounter(env, t, signer).None? <==> Unreadable(env, t, signer)
  {
  }

  lemma UnreadableAppend(env: Env, t: Tree, signers: seq<string>, last: string)
    ensures SomeUnreadable(env, t, signers + [last]) <==> SomeUnreadable(env, t, signers) || Unreadable(env, t, last)
  {
    var all := signers + [last];
    assert all[|signers|] == last && forall i :: 0 <= i < |signers| ==> all[i] == signers[i];
  }

  lemma {:induction false} CheckFailsExactly(env: Env, t: Tree, instr: Instruction, scs: Changes, n: nat)
    requires Ready(env, t) && n <= |scs|
    ensures Check(env, t, instr, scs, n).None? <==> SomeImpossible(env, t, scs, n)
    decreases n
  {
    if n > 0 {
      var m := CheckLast(env, t, instr, scs, n);
      CheckFailsExactly(env, t, instr, scs, m);
      ImpossibleNext(env, t, scs, m, n);
    }
  }

  lemma CheckLast(env: Env, t: Tree, instr: Instruction, scs: Changes, n: nat) returns (m: nat)
    requires Ready(env, t) && 0 < n <= |scs|
    ensures m + 1 == n
    ensures Check(env, t, instr, scs, n).None? <==> Check(env, t, instr, scs, m).None? || ImpossibleAt(env, t, scs, m)
  {
    m := CheckSplit(env, t, instr, scs, n);
    if Check(env, t, instr, scs, m).Some? {
      CheckStores(env, t, instr, scs, m);
      CheckOneFails(env, instr, Check(env, t, instr, scs, m).value, scs[m]);
    }
  }

  lemma CheckOneFails(env: Env, instr: Instruction, c: CheckState, sc: StateChange)
    requires Ready(env, c.state)
    ensures CheckOne(env, instr, c, sc).None? <==> Impossible(env, c.state, sc)
  {
  }

  // -------------------------------------------------------------------- numbering

  /** The same changes but for their version numbers. */
  ghost predicate Renumbered(raw: Changes, scs: Changes) {
    |raw| == |scs| && forall i :: 0 <= i < |raw| ==> scs[i] == raw[i].(version := scs[i].version)
  }

  lemma {:induction false} NumberRenumbers(env: Env, t: Tree, raw: Changes, n: nat)
    requires Ready(env, t) && n <= |raw| && Number(env, t, raw, n).Some?
    ensures Renumbered(raw[..n], Number(env, t, raw, n).value.0)
    decreases n
  {
    if n > 0 {
      var m, done, vv, sc := NumberSplit(env, t, raw, n);
      NumberRenumbers(env, t, raw, m);
      assert raw[..n] == raw[..m] + [raw[m]];
    }
  }

  ghost predicate SameKeys(t: Tree, u: Tree) {
    forall id: InstanceID :: id in Contents(t) <==> id in Contents(u)
  }

  /** Version numbers do not decide what is stored. */
  lemma {:induction false} RenumberedKeys(env: Env, t: Tree, u: Tree, raw: Changes, scs: Changes)
    requires Ready(env, t) && Ready(env, u) && SameKeys(t, u) && Renumbered(raw, scs)
    ensures SameKeys(StoreAll(env, t, raw), StoreAll(env, u, scs))
    decreases |raw|
  {
    if raw != [] {
      StoreKeys(env, t, raw[0]);
      StoreKeys(env, u, scs[0]);
      RenumberedKeys(env, Store(env, t, raw[0]), Store(env, u, scs[0]), raw[1..], scs[1..]);
    }
  }

  lemma StoreKeys(env: Env, t: Tree, sc: StateChange)
    requires Ready(env, t)
    ensures forall id: InstanceID :: id in Contents(Store(env, t, sc)) <==>
      if id == sc.id && sc.action in {Create, Update, Remove} then sc.action != Remove else id in Contents(t)
  {
  }

  lemma RenumberedImpossible(env: Env, t: Tree, raw: Changes, scs: Changes)
    requires Ready(env, t) && Renumbered(raw, scs)
    ensures SomeImpossible(env, t, raw, |raw|) <==> SomeImpossible(env, t, scs, |scs|)
  {
    forall i | 0 <= i < |raw|
      ensures ImpossibleAt(env, t, raw, i) <==> ImpossibleAt(env, t, scs, i)
    {
      RenumberedKeys(env, t, t, raw[..i], scs[..i]);
    }
  }

  /** An instruction fails exactly if its contract refuses it, a change names an unknown
      contract or is impossible where it stands, or a signer's counter cannot be read. */
  lemma StepFailsExactly(env: Env, info: BlockInfo, h: TxHash, t: Tree, cin: seq<Coin>, instr: Instruction)
    requires Ready(env, t)
    ensures Step(env, info, h, t, cin, instr).Failed? <==>
      match env.contract(t, info, instr, cin, h)
      case None => true
      case Some((raw, _)) =>
        || (exists i :: 0 <= i < |raw| && Unregistered(env, raw[i]))
        || SomeUnreadable(env, t, instr.signers)
        || SomeImpossible(env, t, raw, |raw|)
  {
    var out := env.contract(t, info, instr, cin, h);
    if out.Some? {
      var raw := out.value.0;
      NumberFailsExactly(env, t, raw, |raw|);
      CountersFailExactly(env, t, instr.signers);
      if Number(env, t, raw, |raw|).Some? {
        var scs := Number(env, t, raw, |raw|).value.0;
        NumberRenumbers(env, t, raw, |raw|);
        assert raw[..|raw|] == raw;
        CheckFailsExactly(env, t, instr, scs, |scs|);
        RenumberedImpossible(env, t, raw, scs);
      }
    }
  }

  // ------------------------------------------------------------ what is left behind

  /** The change that raises a signer's counter from what the state holds. */
  ghost predicate Raises(env: Env, t: Tree, signer: string, sc: StateChange)
    requires Ready(env, t)
  {
    && SignerCounter(env, t, signer).Some?
    && var c := SignerCounter(env, t, signer).value;
    && sc.id == env.counterKey(signer) && |sc.value| == 8 && Decode64(sc.value) == sc.version == Next64(c)
    && sc.action == (if c == 0 then Create else Update)
  }

  lemma {:induction false} CountersRaise(env: Env, t: Tree, signers: seq<string>)
    requires Ready(env, t) && CounterChanges(env, t, signers).Some?
    ensures
      var ccs := CounterChanges(env, t, signers).value;
      |ccs| == |signers| && forall j :: 0 <= j < |signers| ==> Raises(env, t, signers[j], ccs[j])
    decreases |signers|
  {
    if signers != [] {
      var front, last := CounterChangesSplit(env, t, signers);
      CountersRaise(env, t, front);
    }
  }

  /** An accepted instruction leaves the contract's changes, in their order, followed by one
      change for each signer's counter; it stores exactly these, and hands on the coins that
      the contract gave out. */
  lemma StepYields(env: Env, info: BlockInfo, h: TxHash, t: Tree, cin: seq<Coin>, instr: Instruction)
    requires Ready(env, t) && Step(env, info, h, t, cin, instr).Stepped?
    ensures env.contract(t, info, instr, cin, h).Some?
    ensures
      var (raw, cout) := env.contract(t, info, instr, cin, h).value;
      var r := Step(env, info, h, t, cin, instr);
      && r.coins == cout
      && |r.changes| == |raw| + |instr.signers|
      && Renumbered(raw, r.changes[..|raw|])
      && (forall j :: 0 <= j < |instr.signers| ==> Raises(env, t, instr.signers[j], r.changes[|raw| + j]))
      && r.state == StoreAll(env, t, r.changes)
  {
    var raw, scs, ccs := StepParts(env, info, h, t, cin, instr);
    NumberRenumbers(env, t, raw, |raw|);
    assert raw[..|raw|] == raw;
    CountersRaise(env, t, instr.signers);
    StepStores(env, info, h, t, cin, instr);
    PartsOfChanges(env, t, raw, scs, instr.signers, ccs);
  }

  lemma StepParts(env: Env, info: BlockInfo, h: TxHash, t: Tree, cin: seq<Coin>, instr: Instruction)
      returns (raw: Changes, scs: Changes, ccs: Changes)
    requires Ready(env, t) && Step(env, info, h, t, cin, instr).Stepped?
    ensures env.contract(t, info, instr, cin, h) == Some((raw, Step(env, info, h, t, cin, instr).coins))
    ensures Number(env, t, raw, |raw|).Some? && Number(env, t, raw, |raw|).value.0 == scs
    ensures CounterChanges(env, t, instr.signers) == Some(ccs)
    ensures Step(env, info, h, t, cin, instr).changes == scs + ccs
    ensures Check(env, t, instr, scs, |scs|).Some?
    ensures Step(env, info, h, t, cin, instr).generated == Check(env, t, instr, scs, |scs|).value.generated
  {
    raw := env.contract(t, info, instr, cin, h).value.0;
    scs, ccs := Number(env, t, raw, |raw|).value.0, CounterChanges(env, t, instr.signers).value;
  }

  lemma PartsOfChanges(env: Env, t: Tree, raw: Changes, scs: Changes, signers: seq<string>, ccs: Changes)
    requires Ready(env, t) && Renumbered(raw, scs)
    requires |ccs| == |signers| && forall j :: 0 <= j < |signers| ==> Raises(env, t, signers[j], ccs[j])
    ensures |scs + ccs| == |raw| + |signers| && Renumbered(raw, (scs + ccs)[..|raw|])
    ensures forall j :: 0 <= j < |signers| ==> Raises(env, t, signers[j], (scs + ccs)[|raw| + j])
  {
    assert (scs + ccs)[..|raw|] == scs;
    forall j | 0 <= j < |signers| ensures Raises(env, t, signers[j], (scs + ccs)[|raw| + j]) {
      assert (scs + ccs)[|raw| + j] == ccs[j];
    }
  }

  // ------------------------------------------------------- generated instructions

  /** What the changes ask to generate, in their order. */
  function Requests(scs: Changes): (r: seq<Bytes>)
    decreases |scs|
  {
    if scs == [] then []
    else
      var n := |scs| - 1;
      if scs[n].action == GenerateInstruction then Requests(scs[..n]) + [scs[n].value] else Requests(scs[..n])
  }

  function Spawns(instrs: Instructions): (n: nat)
    decreases |instrs|
  {
    if instrs == [] then 0
    else Spawns(instrs[..|instrs| - 1]) + if instrs[|instrs| - 1].payload.Spawn? then 1 else 0
  }

  /** The `k`-th generated instruction is the decoded request, marked as generated; a spawn
      has the seed for the number of spawns before it, modulo 256, as its last argument. */
  ghost predicate Delivers(env: Env, instr: Instruction, request: Bytes, earlier: Instructions, i: Instruction) {
    env.decode(request).Some? &&
    var d := env.decode(request).value;
    && i.synthetic
    && i.id == d.id && i.signers == d.signers && i.publics == d.publics && i.counters == d.counters && i.signatures == d.signatures
    && if d.payload.Spawn? then
         && i.payload.Spawn? && i.payload.contractID == d.payload.contractID
         && i.payload.args == d.payload.args + [("seed", env.seed(instr, Spawns(earlier) % 256))]
       else i.payload == d.payload
  }

  ghost predicate AllDelivered(env: Env, instr: Instruction, requests: seq<Bytes>, generated: Instructions) {
    |generated| == |requests| &&
    forall k :: 0 <= k < |requests| ==> Delivers(env, instr, requests[k], generated[..k], generated[k])
  }

  ghost predicate Delivered(env: Env, instr: Instruction, requests: seq<Bytes>, c: CheckState) {
    AllDelivered(env, instr, requests, c.generated) && c.seedCounter == Spawns(c.generated) % 256
  }

  lemma {:induction false} CheckDelivers(env: Env, t: Tree, instr: Instruction, scs: Changes, n: nat)
    requires Ready(env, t) && n <= |scs| && Check(env, t, instr, scs, n).Some?
    ensures Delivered(env, instr, Requests(scs[..n]), Check(env, t, instr, scs, n).value)
    decreases n
  {
    if n > 0 {
      var m := DeliversNext(env, t, instr, scs, n);
      CheckDelivers(env, t, instr, scs, m);
    }
  }

  lemma DeliversNext(env: Env, t: Tree, instr: Instruction, scs: Changes, n: nat) returns (m: nat)
    requires Ready(env, t) && 0 < n <= |scs| && Check(env, t, instr, scs, n).Some?
    ensures m + 1 == n && Check(env, t, instr, scs, m).Some?
    ensures Delivered(env, instr, Requests(scs[..m]), Check(env, t, instr, scs, m).value) ==>
      Delivered(env, instr, Requests(scs[..n]), Check(env, t, instr, scs, n).value)
  {
    m := CheckSplit(env, t, instr, scs, n);
    RequestsNext(scs, m, n);
    CheckOneDelivers(env, instr, Check(env, t, instr, scs, m).value, scs[m], Requests(scs[..m]));
  }

  lemma RequestsNext(scs: Changes, m: nat, n: nat)
    requires m + 1 == n <= |scs|
    ensures Requests(scs[..n]) ==
      if scs[m].action == GenerateInstruction then Requests(scs[..m]) + [scs[m].value] else Requests(scs[..m])
  {
    assert scs[..n][..m] == scs[..m];
  }

  lemma CheckOneDelivers(env: Env, instr: Instruction, c: CheckState, sc: StateChange, requests: seq<Bytes>)
    requires Ready(env, c.state) && CheckOne(env, instr, c, sc).Some?
    ensures Delivered(env, instr, requests, c) ==>
      Delivered(env, instr, if sc.action == GenerateInstruction then requests + [sc.value] else requests,
                CheckOne(env, instr, c, sc).value)
  {
    if sc.action == GenerateInstruction && Delivered(env, instr, requests, c) {
      var i := Generated(env, instr, c.seedCounter, sc).value;
      DeliverOneMore(env, instr, requests, c.generated, sc.value, i);
    }
  }

  lemma DeliverOneMore(env: Env, instr: Instruction, requests: seq<Bytes>, generated: Instructions, request: Bytes, i: Instruction)
    requires AllDelivered(env, instr, requests, generated) && Delivers(env, instr, request, generated, i)
    ensures AllDelivered(env, instr, requests + [request], generated + [i])
    ensures Spawns(generated + [i]) == Spawns(generated) + if i.payload.Spawn? then 1 else 0
  {
    var all := generated + [i];
    assert all[..|generated|] == generated;
    forall k | 0 <= k < |generated| ensures all[..k] == generated[..k] && all[k] == generated[k] {
    }
  }

  lemma {:induction false} RequestsRenumbered(raw: Changes, scs: Changes)
    requires Renumbered(raw, scs)
    ensures Requests(raw) == Requests(scs)
    decreases |raw|
  {
    if raw != [] {
      RequestsRenumbered(raw[..|raw| - 1], scs[..|raw| - 1]);
    }
  }

  /** An instruction generates exactly what the contract's changes ask for, in their order. */
  lemma StepGenerates(env: Env, info: BlockInfo, h: TxHash, t: Tree, cin: seq<Coin>, instr: Instruction)
    requires Ready(env, t) && Step(env, info, h, t, cin, instr).Stepped?
    ensures env.contract(t, info, instr, cin, h).Some?
    ensures AllDelivered(env, instr, Requests(env.contract(t, info, instr, cin, h).value.0), Step(env, info, h, t, cin, instr).generated)
  {
    var raw, scs, _ := StepParts(env, info, h, t, cin, instr);
    NumberRenumbers(env, t, raw, |raw|);
    assert raw[..|raw|] == raw && scs[..|scs|] == scs;
    RequestsRenumbered(raw, scs);
    CheckDelivers(env, t, instr, scs, |scs|);
  }

  // --------------------------------------------------------------- a transaction

  /** An instruction that was executed: the state and the coins it got, and what came out. */
  datatype Frame = Frame(t: Tree, cin: seq<Coin>, instr: Instruction, s: StepResult)

  /** Each instruction runs in the state, and with the coins, that the one before it left. */
  ghost predicate Chained(step: Stepper, t: Tree, cin: seq<Coin>, fs: seq<Frame>) {
    && (forall k :: 0 <= k < |fs| ==> fs[k].s.Stepped? && fs[k].s == step(fs[k].t, fs[k].cin, fs[k].instr))
    && (forall k :: 0 <= k < |fs| ==> fs[k].t == StateBefore(t, fs, k) && fs[k].cin == CoinsBefore(cin, fs, k))
  }

  ghost function StateBefore(t: Tree, fs: seq<Frame>, k: nat): (u: Tree)
    requires k <= |fs|
  {
    if k > 0 && fs[k - 1].s.Stepped? then fs[k - 1].s.state else t
  }

  ghost function CoinsBefore(cin: seq<Coin>, fs: seq<Frame>, k: nat): (c: seq<Coin>)
    requires k <= |fs|
  {
    if k > 0 && fs[k - 1].s.Stepped? then fs[k - 1].s.coins else cin
  }

  ghost function AllChanges(fs: seq<Frame>): (scs: Changes)
  {
    if fs == [] then [] else (if fs[0].s.Stepped? then fs[0].s.changes else []) + AllChanges(fs[1..])
  }

  lemma ChainedFirst(step: Stepper, t: Tree, cin: seq<Coin>, instr: Instruction, s: StepResult, fs: seq<Frame>)
    requires s == step(t, cin, instr) && s.Stepped? && Chained(step, s.state, s.coins, fs)
    ensures Chained(step, t, cin, [Frame(t, cin, instr, s)] + fs)
    ensures StateBefore(t, [Frame(t, cin, instr, s)] + fs, |fs| + 1) == StateBefore(s.state, fs, |fs|)
    ensures CoinsBefore(cin, [Frame(t, cin, instr, s)] + fs, |fs| + 1) == CoinsBefore(s.coins, fs, |fs|)
    ensures AllChanges([Frame(t, cin, instr, s)] + fs) == s.changes + AllChanges(fs)
  {
    var all := [Frame(t, cin, instr, s)] + fs;
    assert all[1..] == fs && forall k :: 1 <= k < |all| ==> all[k] == fs[k - 1];
    forall k | 0 <= k < |all| ensures all[k].t == StateBefore(t, all, k) && all[k].cin == CoinsBefore(cin, all, k) {
      if k > 0 {
        assert all[k] == fs[k - 1];
        assert k > 1 ==> all[k - 1] == fs[k - 2];
      }
    }
  }

  /** An instruction together with those it generated. */
  datatype Node = Node(instr: Instruction, kids: seq<Node>)

  function Roots(ns: seq<Node>): (instrs: Instructions)
    ensures |instrs| == |ns|
  {
    seq(|ns|, i requires 0 <= i < |ns| => ns[i].instr)
  }

  /** The executed instructions are those of the trees, each followed by all that came of it
      before the next one runs; the children of a node are what it generated. */
  ghost predicate Grown(ns: seq<Node>, fs: seq<Frame>)
    decreases |fs|
  {
    if ns == [] || fs == [] then ns == [] && fs == []
    else
      && fs[0].instr == ns[0].instr && fs[0].s.Stepped? && fs[0].s.generated == Roots(ns[0].kids)
      && exists kids, rest :: fs[1..] == kids + rest && Grown(ns[0].kids, kids) && Grown(ns[1..], rest)
  }

  lemma GrownNode(n: Node, ns: seq<Node>, f: Frame, kids: seq<Frame>, rest: seq<Frame>)
    requires f.instr == n.instr && f.s.Stepped? && f.s.generated == Roots(n.kids)
    requires Grown(n.kids, kids) && Grown(ns, rest)
    ensures Grown([n] + ns, [f] + (kids + rest))
  {
    assert ([n] + ns)[1..] == ns && ([f] + (kids + rest))[1..] == kids + rest;
  }

  lemma {:induction false} GrownSplit(a: seq<Node>, b: seq<Node>, fs: seq<Frame>) returns (x: seq<Frame>, y: seq<Frame>)
    requires Grown(a + b, fs)
    ensures fs == x + y && Grown(a, x) && Grown(b, y)
    decreases |a|
  {
    if a == [] {
      x, y := [], fs;
      assert a + b == b;
    } else {
      var f, kids, rest := GrownOpen(a[0], a[1..] + b, a + b, fs);
      x, y := GrownSplit(a[1..], b, rest);
      x := GrownCons(a, f, kids, x, y);
    }
  }

  lemma GrownCons(a: seq<Node>, f: Frame, kids: seq<Frame>, x: seq<Frame>, y: seq<Frame>) returns (x': seq<Frame>)
    requires a != [] && f.instr == a[0].instr && f.s.Stepped? && f.s.generated == Roots(a[0].kids)
    requires Grown(a[0].kids, kids) && Grown(a[1..], x)
    ensures Grown(a, x') && [f] + (kids + (x + y)) == x' + y
  {
    GrownNode(a[0], a[1..], f, kids, x);
    assert [a[0]] + a[1..] == a;
    Regroup(f, kids, x, y);
    x' := [f] + (kids + x);
  }

  lemma GrownOpen(n: Node, ns: seq<Node>, all: seq<Node>, fs: seq<Frame>) returns (f: Frame, kids: seq<Frame>, rest: seq<Frame>)
    requires all == [n] + ns && Grown(all, fs)
    ensures fs == [f] + (kids + rest) && f.instr == n.instr && f.s.Stepped? && f.s.generated == Roots(n.kids)
    ensures Grown(n.kids, kids) && Grown(ns, rest)
  {
    assert all[1..] == ns && all[0] == n;
    f := fs[0];
    kids, rest :| fs[1..] == kids + rest && Grown(all[0].kids, kids) && Grown(all[1..], rest);
  }

  lemma Regroup(f: Frame, a: seq<Frame>, b: seq<Frame>, c: seq<Frame>)
    ensures [f] + (a + (b + c)) == [f] + (a + b) + c
  {
  }

  lemma GrownFirst(instr: Instruction, f: Frame, ns: seq<Node>, fs: seq<Frame>, g: nat) returns (all: seq<Node>)
    requires f.instr == instr && f.s.Stepped? && Grown(ns, fs) && g <= |ns| && f.s.generated == Roots(ns)[..g]
    ensures Grown(all, [f] + fs) && Roots(all) == [instr] + Roots(ns)[g..]
  {
    var kids, rest := ns[..g], ns[g..];
    assert kids + rest == ns;
    var x, y := GrownSplit(kids, rest, fs);
    all := [Node(instr, kids)] + rest;
    RootsSplit(instr, ns, g);
    GrownNode(Node(instr, kids), rest, f, x, y);
  }

  lemma RootsSplit(instr: Instruction, ns: seq<Node>, g: nat)
    requires g <= |ns|
    ensures Roots(ns[..g]) == Roots(ns)[..g]
    ensures Roots([Node(instr, ns[..g])] + ns[g..]) == [instr] + Roots(ns)[g..]
  {
  }

  /** How an accepted run came about. */
  lemma {:induction false} RunTrace(step: Stepper, t: Tree, queue: Instructions, cin: seq<Coin>, n: nat)
      returns (fs: seq<Frame>, ns: seq<Node>)
    requires Run(step, t, queue, cin, n).Accepted?
    ensures Chained(step, t, cin, fs) && Roots(ns) == queue && Grown(ns, fs)
    ensures Run(step, t, queue, cin, n) == Accepted(AllChanges(fs), StateBefore(t, fs, |fs|))
    decreases n
  {
    fs, ns := [], [];
    if queue != [] {
      var s := step(t, cin, queue[0]);
      fs, ns := RunTrace(step, s.state, s.generated + queue[1..], s.coins, n - 1);
      ChainedFirst(step, t, cin, queue[0], s, fs);
      assert Roots(ns)[..|s.generated|] == s.generated && Roots(ns)[|s.generated|..] == queue[1..];
      ns := GrownFirst(queue[0], Frame(t, cin, queue[0], s), ns, fs, |s.generated|);
      fs := [Frame(t, cin, queue[0], s)] + fs;
    }
  }

  /** An accepted transaction: its instructions in their order, each followed by what it
      generated; the first one gets no coins, every other one those of the one before; the
      changes are all theirs, and the state is what the last one left. */
  lemma ProcessTrace(env: Env, info: BlockInfo, t: Tree, tx: Instructions) returns (fs: seq<Frame>, ns: seq<Node>)
    requires Ready(env, t) && Process(env, info, t, tx).Accepted?
    ensures Chained(Steps(env, info, HashInstructions(info.version, tx)), t, [], fs)
    ensures Roots(ns) == tx && Grown(ns, fs)
    ensures Process(env, info, t, tx) == Accepted(AllChanges(fs), StateBefore(t, fs, |fs|))
  {
    var step := Steps(env, info, HashInstructions(info.version, tx));
    var n: nat :| !Run(step, t, tx, [], n).Unfinished?;
    ProcessIsRun(env, info, t, tx, n);
    fs, ns := RunTrace(step, t, tx, [], n);
  }

  /** What waits after these instructions were executed, if they come in the right order. */
  ghost function Waiting(queue: Instructions, fs: seq<Frame>): (r: Option<Instructions>)
    decreases |fs|
  {
    if fs == [] then Some(queue)
    else if queue == [] || fs[0].instr != queue[0] || fs[0].s.Failed? then None
    else Waiting(fs[0].s.generated + queue[1..], fs[1..])
  }

  /** After these instructions the next one fails, in the state and with the coins that they
      left. */
  ghost predicate Stops(step: Stepper, t: Tree, queue: Instructions, cin: seq<Coin>, fs: seq<Frame>) {
    && Chained(step, t, cin, fs)
    && Waiting(queue, fs).Some? && Waiting(queue, fs).value != []
    && step(StateBefore(t, fs, |fs|), CoinsBefore(cin, fs, |fs|), Waiting(queue, fs).value[0]).Failed?
  }

  lemma {:induction false} RunStops(step: Stepper, t: Tree, queue: Instructions, cin: seq<Coin>, n: nat) returns (fs: seq<Frame>)
    requires Run(step, t, queue, cin, n).Rejected?
    ensures Stops(step, t, queue, cin, fs)
    decreases n
  {
    fs := [];
    var s := step(t, cin, queue[0]);
    if s.Stepped? {
      fs := RunStops(step, s.state, s.generated + queue[1..], s.coins, n - 1);
      ChainedFirst(step, t, cin, queue[0], s, fs);
      var all := [Frame(t, cin, queue[0], s)] + fs;
      assert all[1..] == fs;
      fs := all;
    }
  }

  lemma {:induction false} StopsRun(step: Stepper, t: Tree, queue: Instructions, cin: seq<Coin>, fs: seq<Frame>)
    requires Stops(step, t, queue, cin, fs)
    ensures Run(step, t, queue, cin, |fs| + 1).Rejected?
    decreases |fs|
  {
    if fs != [] {
      var s := fs[0].s;
      assert fs[0].t == StateBefore(t, fs, 0) && fs[0].cin == CoinsBefore(cin, fs, 0);
      ChainedRest(step, t, cin, fs);
      StopsRun(step, s.state, s.generated + queue[1..], s.coins, fs[1..]);
    }
  }

  lemma ChainedRest(step: Stepper, t: Tree, cin: seq<Coin>, fs: seq<Frame>)
    requires Chained(step, t, cin, fs) && fs != []
    ensures fs[0].s.Stepped? && Chained(step, fs[0].s.state, fs[0].s.coins, fs[1..])
    ensures StateBefore(fs[0].s.state, fs[1..], |fs| - 1) == StateBefore(t, fs, |fs|)
    ensures CoinsBefore(fs[0].s.coins, fs[1..], |fs| - 1) == CoinsBefore(cin, fs, |fs|)
  {
    var s, rest := fs[0].s, fs[1..];
    forall k | 0 <= k < |rest|
      ensures rest[k].t == StateBefore(s.state, rest, k) && rest[k].cin == CoinsBefore(s.coins, rest, k)
    {
      assert fs[k + 1].t == StateBefore(t, fs, k + 1) && fs[k + 1].cin == CoinsBefore(cin, fs, k + 1);
    }
  }

  /** A transaction is rejected exactly if its instructions, each followed by what it
      generated, come to one that fails. */
  lemma RejectedExactly(env: Env, info: BlockInfo, t: Tree, tx: Instructions)
    requires Ready(env, t)
    ensures Process(env, info, t, tx).Rejected? <==>
      exists fs :: Stops(Steps(env, info, HashInstructions(info.version, tx)), t, tx, [], fs)
  {
    var step := Steps(env, info, HashInstructions(info.version, tx));
    if Process(env, info, t, tx).Rejected? {
      var n: nat :| !Run(step, t, tx, [], n).Unfinished?;
      ProcessIsRun(env, info, t, tx, n);
      var fs := RunStops(step, t, tx, [], n);
    }
    if fs :| Stops(step, t, tx, [], fs) {
      StopsRun(step, t, tx, [], fs);
      ProcessIsRun(env, info, t, tx, |fs| + 1);
    }
  }
}
