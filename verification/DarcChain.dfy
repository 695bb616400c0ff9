/** Evolution of darcs: the offline verification of a whole chain of versions, and the
    restricted evolution that the darc contract performs on chain. */
module DarcChain {
  import opened Types
  import DarcEval

  type ID = Bytes
  type Action = string
  type Expr = Bytes

  datatype Rule = Rule(action: Action, expr: Expr)

  datatype Signature = Signature(signer: DarcEval.Identity, sig: Bytes)

  datatype Darc = Darc(
    version: uint64, description: Bytes, baseID: Option<ID>, prevID: ID, rules: seq<Rule>, signatures: seq<Signature>)

  const EVOLVE: Action := "_evolve"
  const SIGN: Action := "_sign"

  /** What a verification is given: the digest of a darc, the look-ups by ID and by base
      ID (with its parsed _sign rule), the expression parser and signature verification
      on the evolution request of a darc. */
  datatype World = World(
    idOf: Darc -> ID,
    byID: ID -> Option<Darc>,
    latest: map<string, DarcEval.Rule>,
    parse: Expr -> DarcEval.Rule,
    attrs: string -> bool,
    verify: (DarcEval.Identity, ID, ID, Bytes) -> bool)

  function GetBaseID(w: World, d: Darc): (id: ID)
  {
    if d.version == 0 then w.idOf(d) else if d.baseID.Some? then d.baseID.value else []
  }

  /** Rules.Get: the first rule with the action; nil is no rule. */
  function GetRule(rules: seq<Rule>, a: Action): (e: Option<Expr>)
    ensures e.Some? <==> exists r :: r in rules && r.action == a
    ensures e.Some? ==> Rule(a, e.value) in rules
  {
    if rules == [] then None
    else if rules[0].action == a then Some(rules[0].expr)
    else GetRule(rules[1..], a)
  }

  predicate SanityCheck(w: World, d: Darc, prev: Darc) {
    && d.baseID.Some?
    && GetBaseID(w, d) == GetBaseID(w, prev)
    && d.version == Next64(prev.version)
    && d.prevID == w.idOf(prev)
  }

  function Signers(sigs: seq<Signature>): (s: set<DarcEval.Identity>)
  {
    set s | s in sigs :: s.signer
  }

  /** The _evolve rule of the previous darc accepts the signers, and every signature
      verifies. */
  ghost predicate Authorised(w: World, d: Darc, prev: Darc) {
    && GetRule(prev.rules, EVOLVE).Some?
    && var rule := w.parse(GetRule(prev.rules, EVOLVE).value);
    && rule.Sign?
    && DarcEval.Accepts(DarcEval.Context(w.latest, Signers(d.signatures), w.attrs, false, false), {}, rule.expr)
    && forall s :: s in d.signatures ==> w.verify(s.signer, GetBaseID(w, d), w.idOf(d), s.sig)
  }

  method VerifyOneEvolution(w: World, d: Darc, prev: Darc) returns (ok: bool)
    ensures ok <==> SanityCheck(w, d, prev) && Authorised(w, d, prev)
  {
    if !SanityCheck(w, d, prev) {
      return false;
    }
    var expr := GetRule(prev.rules, EVOLVE);
    if expr == None || !w.parse(expr.value).Sign? {
      return false;
    }
    var c := DarcEval.Context(w.latest, Signers(d.signatures), w.attrs, false, false);
    var signed := DarcEval.EvalExprDarc(c, {}, w.parse(expr.value).expr);
    if !signed {
      return false;
    }
    var i := 0;
    while i < |d.signatures|
      invariant 0 <= i <= |d.signatures|
      invariant forall s :: s in d.signatures[..i] ==> w.verify(s.signer, GetBaseID(w, d), w.idOf(d), s.sig)
    {
      var s := d.signatures[i];
      if !w.verify(s.signer, GetBaseID(w, d), w.idOf(d), s.sig) {
        assert s in d.signatures;
        return false;
      }
      assert d.signatures[..i + 1] == d.signatures[..i] + [s];
      i := i + 1;
    }
    assert d.signatures[..i] == d.signatures;
    ok := true;
  }

  ghost predicate EvolutionStep(w: World, d: Darc, prev: Darc) {
    && |d.signatures| > 0
    && w.byID(d.prevID) == Some(prev)
    && SanityCheck(w, d, prev)
    && Authorised(w, d, prev)
  }

  ghost predicate Evolved(w: World, d: Darc)
    decreases d.version
  {
    d.version == 0 ||
    (w.byID(d.prevID).Some? && EvolutionStep(w, d, w.byID(d.prevID).value) && Evolved(w, w.byID(d.prevID).value))
  }

  /** VerifyWithCB with full verification, down to version 0; the version is the measure. */
  method VerifyFull(w: World, d: Darc) returns (ok: bool)
    ensures ok <==> Evolved(w, d)
    decreases d.version
  {
    if d.version == 0 {
      return true;
    }
    if |d.signatures| == 0 || w.byID(d.prevID) == None {
      return false;
    }
    var prev := w.byID(d.prevID).value;
    var one := VerifyOneEvolution(w, d, prev);
    if !one {
      return false;
    }
    ok := VerifyFull(w, prev);
  }

  /** The base ID: its own digest for a first version, else the one it names. */
  ghost predicate HasBase(w: World, d: Darc, base: ID) {
    if d.version == 0 then base == w.idOf(d) else d.baseID == Some(base) || (d.baseID == None && base == [])
  }

  /** The darc is the next version of `prev`: it names a base ID, has the same one, counts on
      and points back. */
  ghost predicate NextVersionOf(w: World, d: Darc, prev: Darc) {
    && d.baseID != None
    && (exists base :: HasBase(w, d, base) && HasBase(w, prev, base))
    && d.version == (prev.version + 1) % TWO_TO_THE_64
    && d.prevID == w.idOf(prev)
  }

  lemma SanityExactly(w: World, d: Darc, prev: Darc)
    ensures SanityCheck(w, d, prev) <==> NextVersionOf(w, d, prev)
  {
    assert HasBase(w, d, GetBaseID(w, d)) && HasBase(w, prev, GetBaseID(w, prev));
  }

  /** A signed next version that the _evolve rule of the stored previous one authorises. */
  ghost predicate EvolvesFrom(w: World, d: Darc, prev: Darc) {
    d.signatures != [] && w.byID(d.prevID) == Some(prev) && NextVersionOf(w, d, prev) && Authorised(w, d, prev)
  }

  lemma EvolvesExactly(w: World, d: Darc, prev: Darc)
    ensures EvolutionStep(w, d, prev) <==> EvolvesFrom(w, d, prev)
  {
    SanityExactly(w, d, prev);
  }

  /** A path of exactly `d.version` steps along PrevID, from a darc of version 0 whose own
      ID is the base ID of all, each step authorised by the rule of the darc before. */
  ghost predicate EvolutionPath(w: World, path: seq<Darc>, d: Darc) {
    && |path| == d.version + 1 && path[d.version] == d
    && (forall i :: 0 <= i < |path| ==> path[i].version == i && HasBase(w, path[i], w.idOf(path[0])))
    && (forall i :: 0 <= i < |path| - 1 ==> EvolvesFrom(w, path[i + 1], path[i]))
  }

  lemma PathOneMore(w: World, path: seq<Darc>, prev: Darc, d: Darc)
    requires EvolutionPath(w, path, prev) && d.version == prev.version + 1 && EvolvesFrom(w, d, prev)
    ensures EvolutionPath(w, path + [d], d)
  {
    var base :| HasBase(w, d, base) && HasBase(w, prev, base);
    var all := path + [d];
    assert path[prev.version] == prev && all[0] == path[0];
    forall i | 0 <= i < |all| ensures all[i].version == i && HasBase(w, all[i], w.idOf(all[0])) {
      assert i < |path| ==> all[i] == path[i];
    }
    forall i | 0 <= i < |all| - 1 ensures EvolvesFrom(w, all[i + 1], all[i]) {
      if i < |path| - 1 {
        assert all[i + 1] == path[i + 1] && all[i] == path[i];
      }
    }
  }

  /** A darc that full verification accepts has such a path ... */
  lemma {:induction false} EvolvedHasPath(w: World, d: Darc) returns (path: seq<Darc>)
    requires Evolved(w, d)
    ensures EvolutionPath(w, path, d)
    decreases d.version
  {
    if d.version == 0 {
      path := [d];
    } else {
      var prev := w.byID(d.prevID).value;
      path := EvolvedHasPath(w, prev);
      EvolvesExactly(w, d, prev);
      PathOneMore(w, path, prev, d);
      path := path + [d];
    }
  }

  /** ... and a darc with such a path is accepted. */
  lemma {:induction false} PathIsEvolved(w: World, path: seq<Darc>, d: Darc)
    requires EvolutionPath(w, path, d)
    ensures Evolved(w, d)
    decreases d.version
  {
    if d.version != 0 {
      var n := |path| - 1;
      assert EvolvesFrom(w, path[n - 1 + 1], path[n - 1]);
      EvolvesExactly(w, path[n], path[n - 1]);
      assert forall i :: 0 <= i < n ==> path[..n][i] == path[i];
      PathIsEvolved(w, path[..n], path[n - 1]);
    }
  }

  // ------------------------------------------------------------- looking darcs up

  /** DarcsToGetDarcs for the latest darc of a base ID: of the darcs with the highest
      version, the one listed first. */
  method LatestDarc(w: World, darcs: seq<Darc>, base: ID) returns (r: Option<Darc>)
    ensures r.Some? <==> exists d :: d in darcs && GetBaseID(w, d) == base
    ensures r.Some? ==> exists k: nat ::
      && k < |darcs| && darcs[k] == r.value && GetBaseID(w, darcs[k]) == base
      && (forall j :: 0 <= j < |darcs| && GetBaseID(w, darcs[j]) == base ==> darcs[j].version <= r.value.version)
      && (forall j :: 0 <= j < k && GetBaseID(w, darcs[j]) == base ==> darcs[j].version < r.value.version)
  {
    var m: map<ID, Darc> := map[];
    ghost var at: map<ID, nat> := map[];
    var i := 0;
    while i < |darcs|
      invariant 0 <= i <= |darcs| && Table(w, darcs, i, at)
      invariant m.Keys == at.Keys && forall id :: id in m ==> m[id] == darcs[at[id]]
    {
      var d := darcs[i];
      var id := GetBaseID(w, d);
      TableNext(w, darcs, i, at);
      if id !in m || m[id].version < d.version {
        m, at := m[id := d], at[id := i];
      }
      i := i + 1;
    }
    if base in m {
      assert darcs[at[base]] in darcs && IsLatest(w, darcs, |darcs|, base, at[base]);
      return Some(m[base]);
    }
    r := None;
  }

  /** Where the look-up table of the first `n` darcs points. */
  ghost predicate Table(w: World, darcs: seq<Darc>, n: nat, at: map<ID, nat>) {
    && n <= |darcs|
    && (forall id :: id in at ==> IsLatest(w, darcs, n, id, at[id]))
    && (forall k :: 0 <= k < n ==> GetBaseID(w, darcs[k]) in at)
  }

  lemma TableNext(w: World, darcs: seq<Darc>, n: nat, at: map<ID, nat>)
    requires n < |darcs| && Table(w, darcs, n, at)
    ensures
      var id := GetBaseID(w, darcs[n]);
      Table(w, darcs, n + 1, if id in at && darcs[n].version <= darcs[at[id]].version then at else at[id := n])
  {
    var id := GetBaseID(w, darcs[n]);
    var at' := if id in at && darcs[n].version <= darcs[at[id]].version then at else at[id := n];
    forall other | other in at' ensures IsLatest(w, darcs, n + 1, other, at'[other]) {
      if other in at && at'[other] == at[other] {
      } else {
        BecomesLatest(w, darcs, n, if id in at then Some(at[id]) else None);
      }
    }
  }

  lemma BecomesLatest(w: World, darcs: seq<Darc>, i: nat, before: Option<nat>)
    requires i < |darcs|
    requires match before
      case None => forall k :: 0 <= k < i ==> GetBaseID(w, darcs[k]) != GetBaseID(w, darcs[i])
      case Some(k) => IsLatest(w, darcs, i, GetBaseID(w, darcs[i]), k) && darcs[k].version < darcs[i].version
    ensures IsLatest(w, darcs, i + 1, GetBaseID(w, darcs[i]), i)
  {
  }

  /** Position `k` has the highest version of the base ID among the first `n` darcs and is
      the first with it. */
  ghost predicate IsLatest(w: World, darcs: seq<Darc>, n: nat, base: ID, k: nat) {
    && k < n <= |darcs| && GetBaseID(w, darcs[k]) == base
    && (forall j :: 0 <= j < n && GetBaseID(w, darcs[j]) == base ==> darcs[j].version <= darcs[k].version)
    && (forall j :: 0 <= j < k && GetBaseID(w, darcs[j]) == base ==> darcs[j].version < darcs[k].version)
  }

  // -------------------------------------------------------------- the darc contract

  const EVOLVE_UNRESTRICTED: Action := "invoke:darc.evolve_unrestricted"
  const SPAWN_INSECURE: Action := "spawn:insecure_darc"

  function Actions(rules: seq<Rule>): (s: set<Action>)
  {
    set r | r in rules :: r.action
  }

  /** The expression as bytes; a missing rule reads as an empty one. */
  function ExprOf(rules: seq<Rule>, a: Action): (e: Expr)
  {
    if GetRule(rules, a).Some? then GetRule(rules, a).value else []
  }

  datatype Command =
    | Spawn(darc: Darc)
    | Evolve(id: ID, darc: Darc)
    | EvolveUnrestricted(id: ID, darc: Darc)

  /** A darc instance: the stored darc and the ID of the darc that controls it. */
  datatype Instance = Instance(darc: Darc, darcID: ID)

  type Instances = map<ID, Instance>

  /** One accepted command of the contract; `None` is an error. The darc that is evolved
      is the one stored under the controlling ID of the addressed instance. */
  function Execute(w: World, s: Instances, genesis: ID, c: Command): (r: Option<Instances>)
  {
    match c
    case Spawn(d) =>
      var id := GetBaseID(w, d);
      if d.version != 0 || SPAWN_INSECURE in Actions(d.rules) || id in s then None
      else Some(s[id := Instance(d, id)])
    case Evolve(id, d) =>
      if id !in s || s[id].darcID !in s then None
      else
        var old' := s[s[id].darcID].darc;
        if ExprOf(old'.rules, EVOLVE_UNRESTRICTED) != ExprOf(d.rules, EVOLVE_UNRESTRICTED) then None
        else if !SanityCheck(w, d, old') then None
        else if GetBaseID(w, old') != genesis && !(Actions(d.rules) <= Actions(old'.rules)) then None
        else Some(s[id := Instance(d, s[id].darcID)])
    case EvolveUnrestricted(id, d) =>
      if id !in s || s[id].darcID !in s then None
      else if !SanityCheck(w, d, s[s[id].darcID].darc) then None
      else Some(s[id := Instance(d, s[id].darcID)])
  }

  /** Every darc instance lies under its own base ID and controls itself. */
  ghost predicate SelfControlled(w: World, s: Instances) {
    forall id :: id in s ==> s[id].darcID == id && GetBaseID(w, s[id].darc) == id
  }

  ghost predicate Runs(w: World, s: Instances, genesis: ID, cs: seq<Command>, s': Instances)
    decreases |cs|
  {
    if cs == [] then s == s'
    else
      && Execute(w, s, genesis, cs[0]).Some?
      && Runs(w, Execute(w, s, genesis, cs[0]).value, genesis, cs[1..], s')
  }

  lemma ExecuteKeeps(w: World, s: Instances, genesis: ID, c: Command)
    requires SelfControlled(w, s) && Execute(w, s, genesis, c).Some?
    ensures SelfControlled(w, Execute(w, s, genesis, c).value)
  {
  }

  // ---------------------------------------------------- when a command is accepted

  /** The first rule with the action has this expression. */
  ghost predicate FirstRule(rules: seq<Rule>, a: Action, e: Expr) {
    exists k :: 0 <= k < |rules| && rules[k] == Rule(a, e) && forall j :: 0 <= j < k ==> rules[j].action != a
  }

  lemma {:induction false} FirstRuleExactly(rules: seq<Rule>, a: Action, e: Expr)
    ensures FirstRule(rules, a, e) <==> GetRule(rules, a) == Some(e)
    decreases |rules|
  {
    if rules != [] {
      FirstRuleExactly(rules[1..], a, e);
      FirstRuleNext(rules, a, e);
    }
  }

  lemma FirstRuleNext(rules: seq<Rule>, a: Action, e: Expr)
    requires rules != []
    ensures FirstRule(rules, a, e) <==> if rules[0].action == a then e == rules[0].expr else FirstRule(rules[1..], a, e)
  {
    if rules[0].action != a {
      if k :| 0 <= k < |rules[1..]| && rules[1..][k] == Rule(a, e) && forall j :: 0 <= j < k ==> rules[1..][j].action != a {
        assert rules[k + 1] == Rule(a, e);
        assert forall j :: 1 <= j < k + 1 ==> rules[j] == rules[1..][j - 1];
      }
      if k :| 0 <= k < |rules| && rules[k] == Rule(a, e) && forall j :: 0 <= j < k ==> rules[j].action != a {
        assert rules[1..][k - 1] == Rule(a, e);
      }
    } else {
      assert e == rules[0].expr ==> rules[0] == Rule(a, e);
    }
  }

  /** The expression of the first such rule; without one it reads as empty. */
  ghost predicate Reads(rules: seq<Rule>, a: Action, e: Expr) {
    FirstRule(rules, a, e) || (e == [] && forall r :: r in rules ==> r.action != a)
  }

  lemma ReadsExactly(rules: seq<Rule>, a: Action, e: Expr)
    ensures Reads(rules, a, e) <==> e == ExprOf(rules, a)
  {
    FirstRuleExactly(rules, a, e);
  }

  /** An evolution is authorised exactly if the first _evolve rule of the previous darc holds
      for the signers, and each of them signed the new darc's ID under its base ID. */
  lemma AuthorisedExactly(w: World, d: Darc, prev: Darc)
    ensures Authorised(w, d, prev) <==>
      && (exists e, rule :: FirstRule(prev.rules, "_evolve", e) && w.parse(e) == DarcEval.Sign(rule)
            && DarcEval.Accepts(DarcEval.Context(w.latest, set s | s in d.signatures :: s.signer, w.attrs, false, false), {}, rule))
      && exists base :: HasBase(w, d, base)
           && forall i :: 0 <= i < |d.signatures| ==> w.verify(d.signatures[i].signer, base, w.idOf(d), d.signatures[i].sig)
  {
    assert HasBase(w, d, GetBaseID(w, d));
    if GetRule(prev.rules, EVOLVE).Some? {
      var e := GetRule(prev.rules, EVOLVE).value;
      FirstRuleExactly(prev.rules, EVOLVE, e);
    }
    if e :| FirstRule(prev.rules, EVOLVE, e) {
      FirstRuleExactly(prev.rules, EVOLVE, e);
      forall e' | FirstRule(prev.rules, EVOLVE, e') ensures e' == e {
        FirstRuleExactly(prev.rules, EVOLVE, e');
      }
    }
  }

  ghost predicate SameUnrestricted(d: Darc, prev: Darc) {
    exists e :: Reads(d.rules, "invoke:darc.evolve_unrestricted", e) && Reads(prev.rules, "invoke:darc.evolve_unrestricted", e)
  }

  lemma SameUnrestrictedExactly(d: Darc, prev: Darc)
    ensures SameUnrestricted(d, prev) <==> ExprOf(prev.rules, EVOLVE_UNRESTRICTED) == ExprOf(d.rules, EVOLVE_UNRESTRICTED)
  {
    var a, b := ExprOf(d.rules, EVOLVE_UNRESTRICTED), ExprOf(prev.rules, EVOLVE_UNRESTRICTED);
    ReadsExactly(d.rules, EVOLVE_UNRESTRICTED, a);
    ReadsExactly(prev.rules, EVOLVE_UNRESTRICTED, a);
    if e :| Reads(d.rules, EVOLVE_UNRESTRICTED, e) && Reads(prev.rules, EVOLVE_UNRESTRICTED, e) {
      ReadsExactly(d.rules, EVOLVE_UNRESTRICTED, e);
      ReadsExactly(prev.rules, EVOLVE_UNRESTRICTED, e);
    }
  }

  ghost predicate HasAction(d: Darc, a: Action) {
    exists i :: 0 <= i < |d.rules| && d.rules[i].action == a
  }

  lemma ActionExactly(d: Darc, a: Action)
    ensures HasAction(d, a) <==> a in Actions(d.rules)
  {
    if HasAction(d, a) {
      var i :| 0 <= i < |d.rules| && d.rules[i].action == a;
      assert d.rules[i] in d.rules;
    }
    if a in Actions(d.rules) {
      var r :| r in d.rules && r.action == a;
      var i :| 0 <= i < |d.rules| && d.rules[i] == r;
    }
  }

  ghost predicate NoNewAction(d: Darc, prev: Darc) {
    forall a :: HasAction(d, a) ==> HasAction(prev, a)
  }

  lemma NoNewActionExactly(d: Darc, prev: Darc)
    ensures NoNewAction(d, prev) <==> Actions(d.rules) <= Actions(prev.rules)
  {
    forall a ensures (HasAction(d, a) <==> a in Actions(d.rules)) && (HasAction(prev, a) <==> a in Actions(prev.rules)) {
      ActionExactly(d, a);
      ActionExactly(prev, a);
    }
    if NoNewAction(d, prev) {
      forall a | a in Actions(d.rules) ensures a in Actions(prev.rules) {
        assert HasAction(d, a);
      }
    }
  }

  /** A darc can be spawned exactly if it is a first version, has no rule to spawn insecure
      darcs, and is not there yet. */
  lemma SpawnExactly(w: World, s: Instances, genesis: ID, d: Darc)
    ensures Execute(w, s, genesis, Spawn(d)).Some? <==>
      d.version == 0 && w.idOf(d) !in s && !HasAction(d, "spawn:insecure_darc")
  {
    ActionExactly(d, SPAWN_INSECURE);
  }

  /** An evolution is accepted exactly if the darc is the next version of the one in control,
      leaves the evolve_unrestricted rule alone and, unless that one is the genesis darc,
      has no new action. */
  lemma EvolveExactly(w: World, s: Instances, genesis: ID, id: ID, d: Darc)
    ensures Execute(w, s, genesis, Evolve(id, d)).Some? <==>
      && id in s && s[id].darcID in s
      && var prev := s[s[id].darcID].darc;
      && NextVersionOf(w, d, prev) && SameUnrestricted(d, prev)
      && (HasBase(w, prev, genesis) || NoNewAction(d, prev))
  {
    if id in s && s[id].darcID in s {
      var prev := s[s[id].darcID].darc;
      SanityExactly(w, d, prev);
      SameUnrestrictedExactly(d, prev);
      NoNewActionExactly(d, prev);
    }
  }

  lemma EvolveUnrestrictedExactly(w: World, s: Instances, genesis: ID, id: ID, d: Darc)
    ensures Execute(w, s, genesis, EvolveUnrestricted(id, d)).Some? <==>
      id in s && s[id].darcID in s && NextVersionOf(w, d, s[s[id].darcID].darc)
  {
    if id in s && s[id].darcID in s {
      SanityExactly(w, d, s[s[id].darcID].darc);
    }
  }

  // --------------------------------------------------------- what a command leaves

  /** The instance that a command is about. */
  function Target(w: World, c: Command): (id: ID)
  {
    if c.Spawn? then w.idOf(c.darc) else c.id
  }

  /** An accepted command stores exactly its darc, and leaves every other instance and who
      controls this one as they were. */
  lemma ExecuteStores(w: World, s: Instances, genesis: ID, c: Command)
    requires Execute(w, s, genesis, c).Some?
    ensures
      var id, s' := Target(w, c), Execute(w, s, genesis, c).value;
      && id in s' && s'[id].darc == c.darc
      && (if c.Spawn? then id !in s && s'[id].darcID == id else id in s && s'[id].darcID == s[id].darcID)
      && (forall other :: other != id ==> (other in s' <==> other in s) && (other in s ==> s'[other] == s[other]))
  {
  }

  /** The darc of the last command about the instance. */
  function LastDarc(w: World, cs: seq<Command>, id: ID): (d: Option<Darc>)
  {
    if cs == [] then None
    else if LastDarc(w, cs[1..], id).Some? then LastDarc(w, cs[1..], id)
    else if Target(w, cs[0]) == id then Some(cs[0].darc)
    else None
  }

  /** So after any run of accepted commands an instance holds the darc of its last spawn or
      evolution, and what it held before if there was none. */
  lemma {:induction false} RunStores(w: World, s: Instances, genesis: ID, cs: seq<Command>, s': Instances, id: ID)
    requires Runs(w, s, genesis, cs, s')
    ensures
      var last := LastDarc(w, cs, id);
      if last.Some? then id in s' && s'[id].darc == last.value
      else (id in s' <==> id in s) && (id in s ==> s'[id] == s[id])
    decreases |cs|
  {
    if cs != [] {
      ExecuteStores(w, s, genesis, cs[0]);
      RunStores(w, Execute(w, s, genesis, cs[0]).value, genesis, cs[1..], s', id);
    }
  }

  /** The evolutions of one instance among the commands. */
  function Evolutions(cs: seq<Command>, id: ID): (n: nat)
  {
    if cs == [] then 0
    else (if !cs[0].Spawn? && cs[0].id == id then 1 else 0) + Evolutions(cs[1..], id)
  }

  ghost predicate OnlyRestricted(cs: seq<Command>, id: ID) {
    forall c :: c in cs && c.EvolveUnrestricted? ==> c.id != id
  }

  ghost predicate NoWrap(cs: seq<Command>) {
    forall c :: c in cs && !c.Spawn? ==> c.darc.version != 0
  }

  /** Over any run of accepted commands, a darc keeps its base ID and its control over
      itself, and its version counts its evolutions. If none of them was unrestricted,
      its evolve_unrestricted rule is what it was, and unless it is the genesis darc it
      has gained no action. */
  lemma {:induction false} RunKeeps(w: World, s: Instances, genesis: ID, cs: seq<Command>, s': Instances, id: ID)
    requires SelfControlled(w, s) && Runs(w, s, genesis, cs, s') && NoWrap(cs) && id in s
    ensures SelfControlled(w, s') && id in s'
    ensures s'[id].darc.version == s[id].darc.version + Evolutions(cs, id)
    ensures OnlyRestricted(cs, id) ==>
      && ExprOf(s'[id].darc.rules, EVOLVE_UNRESTRICTED) == ExprOf(s[id].darc.rules, EVOLVE_UNRESTRICTED)
      && (id != genesis ==> Actions(s'[id].darc.rules) <= Actions(s[id].darc.rules))
    decreases |cs|
  {
    if cs != [] {
      var u := Execute(w, s, genesis, cs[0]).value;
      assert cs[0] in cs && forall c :: c in cs[1..] ==> c in cs;
      ExecuteKeeps(w, s, genesis, cs[0]);
      RunKeeps(w, u, genesis, cs[1..], s', id);
    }
  }
}
