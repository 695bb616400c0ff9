/** Evaluation of darc expressions with delegation through other darcs.

    The evaluator cuts cycles with the set of darcs on the current path. For AND/OR
    expressions that computes exactly the least solution of the delegation equations
    "a darc holds when its _sign expression does", on every finite delegation graph. A
    threshold gives up altogether when one of its entries is on the path, instead of
    counting that entry as invalid, so there acceptance implies the least solution, and
    equals it when no threshold meets its own path. */
module DarcEval {
  /** Identity strings: those with the prefix "darc" and all others. */
  datatype Identity = DarcRef(id: string) | Signer(id: string)

  /** A parsed expression. Operators associate to the left without precedence. */
  datatype Expr =
    | Id(who: Identity)
    | Attr(name: string)
    | Threshold(num: nat, den: nat, entries: seq<Identity>)
    | And(left: Expr, right: Expr)
    | Or(left: Expr, right: Expr)

  /** The _sign rule of a darc: missing, not parseable, or an expression. */
  datatype Rule = NoRule | Unparseable | Sign(expr: Expr)

  /** What an evaluation is given: the darcs that getDarc finds, the identities, the
      attribute interpreters and acceptDarc. `lenient` is not in the code: it is what a
      threshold would do if it counted an entry on the path as invalid. */
  datatype Context = Context(
    darcs: map<string, Rule>, ids: set<Identity>, attrs: string -> bool, acceptDarc: bool, lenient: bool)

  predicate Direct(c: Context, i: Identity) {
    i in c.ids && (i.DarcRef? ==> c.acceptDarc)
  }

  predicate Meets(num: nat, den: nat, valid: nat, unique: nat) {
    den * valid >= num * (if unique == 0 then 1 else unique)
  }

  function Unique(entries: seq<Identity>): (s: set<Identity>)
  {
    set i | i in entries
  }

  function Known(c: Context, visited: set<string>): (s: set<string>)
  {
    c.darcs.Keys - visited
  }

  /** An identity holds directly or through the _sign rule of a darc not yet visited. */
  predicate Entry(c: Context, visited: set<string>, i: Identity)
    decreases Known(c, visited), 0
  {
    Direct(c, i) ||
    (&& i.DarcRef? && i.id !in visited && i.id in c.darcs && c.darcs[i.id].Sign?
     && (assert i.id in Known(c, visited) && i.id !in Known(c, visited + {i.id});
         Accepts(c, visited + {i.id}, c.darcs[i.id].expr)))
  }

  /** A threshold entry that must be evaluated and is on the current path. */
  predicate OnPath(c: Context, visited: set<string>, i: Identity) {
    i.DarcRef? && !Direct(c, i) && i.id in visited
  }

  predicate Cut(c: Context, visited: set<string>, entries: seq<Identity>) {
    !c.lenient && exists i :: i in entries && OnPath(c, visited, i)
  }

  predicate Accepts(c: Context, visited: set<string>, e: Expr)
    decreases Known(c, visited), 1, e
  {
    match e
    case Id(who) => Entry(c, visited, who)
    case Attr(name) => c.attrs(name)
    case Threshold(num, den, entries) =>
      && !Cut(c, visited, entries)
      && Meets(num, den, |set i | i in entries && Entry(c, visited, i)|, |Unique(entries)|)
    case And(left, right) => Accepts(c, visited, left) && Accepts(c, visited, right)
    case Or(left, right) => Accepts(c, visited, left) || Accepts(c, visited, right)
  }

  // -------------------------------------------------------------- the evaluator

  /** evalExprDarc. Both operands are always evaluated. */
  method EvalExprDarc(c: Context, visited: set<string>, e: Expr) returns (ok: bool)
    requires !c.lenient
    ensures ok == Accepts(c, visited, e)
    decreases Known(c, visited), 1, e
  {
    match e
    case Attr(name) =>
      ok := c.attrs(name);
    case Threshold(num, den, entries) =>
      ok := EvalThreshold(c, visited, num, den, entries);
    case And(left, right) =>
      var l := EvalExprDarc(c, visited, left);
      var r := EvalExprDarc(c, visited, right);
      ok := l && r;
    case Or(left, right) =>
      var l := EvalExprDarc(c, visited, left);
      var r := EvalExprDarc(c, visited, right);
      ok := l || r;
    case Id(who) =>
      var found := who in c.ids;
      if who.Signer? {
        return found;
      }
      if c.acceptDarc && found {
        return true;
      }
      if who.id in visited {
        return false;
      }
      ok := EvalDelegation(c, visited, who);
  }

  ghost function ValidEntries(c: Context, visited: set<string>, entries: seq<Identity>): (s: set<Identity>)
  {
    set i | i in entries && Entry(c, visited, i)
  }

  lemma OneMoreEntry(c: Context, visited: set<string>, entries: seq<Identity>, k: nat)
    requires k < |entries|
    ensures ValidEntries(c, visited, entries[..k + 1]) ==
            ValidEntries(c, visited, entries[..k]) + (if Entry(c, visited, entries[k]) then {entries[k]} else {})
    ensures Unique(entries[..k + 1]) == Unique(entries[..k]) + {entries[k]}
    ensures Cut(c, visited, entries[..k + 1]) <==>
            Cut(c, visited, entries[..k]) || (!c.lenient && OnPath(c, visited, entries[k]))
  {
    assert entries[..k + 1] == entries[..k] + [entries[k]];
  }

  /** evalThreshold: the loop over the entries with its two maps. */
  method EvalThreshold(c: Context, visited: set<string>, num: nat, den: nat, entries: seq<Identity>) returns (ok: bool)
    requires !c.lenient
    ensures ok == Accepts(c, visited, Threshold(num, den, entries))
    decreases Known(c, visited), 0
  {
    var uniqIds: set<Identity> := {};
    var validIds: set<Identity> := {};
    for k := 0 to |entries|
      invariant uniqIds == Unique(entries[..k])
      invariant validIds == ValidEntries(c, visited, entries[..k])
      invariant !Cut(c, visited, entries[..k])
    {
      var entry := entries[k];
      OneMoreEntry(c, visited, entries, k);
      uniqIds := uniqIds + {entry};
      if entry in c.ids {
        validIds := validIds + {entry};
      }
      if entry.DarcRef? {
        if entry in validIds && c.acceptDarc {
          continue;
        }
        validIds := validIds - {entry};
        if entry.id in visited {
          assert OnPath(c, visited, entry) && entry in entries;
          return false;
        }
        var signed := EvalDelegation(c, visited, entry);
        if !signed {
          continue;
        }
        validIds := validIds + {entry};
      }
    }
    assert entries[..|entries|] == entries;
    assert validIds == set i | i in entries && Entry(c, visited, i);
    var unique := if |uniqIds| == 0 then 1 else |uniqIds|;
    ok := !(den * |validIds| < num * unique);
  }

  /** The delegation step that both evaluators share: look the darc up and evaluate its
      _sign rule with the darc added to a copy of the path. */
  method EvalDelegation(c: Context, visited: set<string>, i: Identity) returns (ok: bool)
    requires !c.lenient && i.DarcRef? && i.id !in visited && !Direct(c, i)
    ensures ok == Entry(c, visited, i)
    decreases Known(c, visited), 0, 0
  {
    if i.id !in c.darcs || !c.darcs[i.id].Sign? {
      return false;
    }
    assert i.id in Known(c, visited) && i.id !in Known(c, visited + {i.id});
    ok := EvalExprDarc(c, visited + {i.id}, c.darcs[i.id].expr);
  }

  // ------------------------------------------------------ what identities and thresholds mean

  /** A signer holds exactly if it is among the identities; a darc if it is among them and
      darcs are accepted, or if its _sign rule holds with the darc added to the path. */
  lemma IdentityExactly(c: Context, visited: set<string>, i: Identity)
    ensures Accepts(c, visited, Id(i)) <==>
      if i.Signer? then i in c.ids
      else
        || (i in c.ids && c.acceptDarc)
        || (i.id in c.darcs && i.id !in visited && c.darcs[i.id].Sign? && Accepts(c, visited + {i.id}, c.darcs[i.id].expr))
  {
  }

  /** The distinct entries that hold. */
  ghost function Holding(c: Context, visited: set<string>, entries: seq<Identity>): (s: set<Identity>)
  {
    set i | i in entries && Accepts(c, visited, Id(i))
  }

  /** Some entry would have to be looked up and is on the path already. */
  ghost predicate MeetsPath(c: Context, visited: set<string>, entries: seq<Identity>) {
    exists i :: i in entries && i.DarcRef? && i.id in visited && !(i in c.ids && c.acceptDarc)
  }

  /** A threshold n/d is met exactly if d times the number of distinct entries that hold is at
      least n times the number of distinct entries, or n if there are none; and none of them
      may be on the path. */
  lemma ThresholdExactly(c: Context, visited: set<string>, num: nat, den: nat, entries: seq<Identity>)
    requires !c.lenient
    ensures Accepts(c, visited, Threshold(num, den, entries)) <==>
      && !MeetsPath(c, visited, entries)
      && den * |Holding(c, visited, entries)| >= (if entries == [] then num else num * |set i | i in entries|)
  {
    assert Holding(c, visited, entries) == set i | i in entries && Entry(c, visited, i);
    assert Unique(entries) == set i | i in entries;
    UniqueEmpty(entries);
  }

  lemma UniqueEmpty(entries: seq<Identity>)
    ensures |Unique(entries)| == 0 <==> entries == []
  {
    if entries != [] {
      assert entries[0] in Unique(entries);
    }
  }

  /** Between signers only the identities count. */
  lemma SignerThreshold(c: Context, visited: set<string>, num: nat, den: nat, entries: seq<Identity>)
    requires !c.lenient && forall i :: i in entries ==> i.Signer?
    ensures Accepts(c, visited, Threshold(num, den, entries)) <==>
      den * |set i | i in entries && i in c.ids| >= (if entries == [] then num else num * |set i | i in entries|)
  {
    forall i | i in entries ensures Accepts(c, visited, Id(i)) <==> i in c.ids {
      IdentityExactly(c, visited, i);
    }
    assert Holding(c, visited, entries) == set i | i in entries && i in c.ids;
    ThresholdExactly(c, visited, num, den, entries);
  }

  /** 0/d is always met, n/0 is not unless n is 0. */
  lemma TrivialThresholds(c: Context, visited: set<string>, num: nat, den: nat, entries: seq<Identity>)
    requires !c.lenient && !MeetsPath(c, visited, entries)
    ensures num == 0 ==> Accepts(c, visited, Threshold(num, den, entries))
    ensures num > 0 && den == 0 ==> !Accepts(c, visited, Threshold(num, den, entries))
  {
    ThresholdExactly(c, visited, num, den, entries);
    UniqueEmpty(entries);
    assert Unique(entries) == set i | i in entries;
    if num > 0 && entries != [] {
      assert num * |Unique(entries)| >= 1;
    }
  }

  /** n/n asks for every entry, of which there has to be one. */
  lemma AllNeeded(c: Context, visited: set<string>, n: nat, entries: seq<Identity>)
    requires !c.lenient && n > 0
    ensures Accepts(c, visited, Threshold(n, n, entries)) <==>
      entries != [] && forall i :: i in entries ==> Accepts(c, visited, Id(i))
  {
    var valid, all := Holding(c, visited, entries), set i | i in entries;
    ThresholdExactly(c, visited, n, n, entries);
    SubsetSize(valid, all);
    SmallerProduct(n, |valid|, |all|);
    if |valid| == |all| {
      SameSize(valid, all);
      assert forall i :: i in entries ==> i in all;
    }
    if entries != [] && forall i :: i in entries ==> Accepts(c, visited, Id(i)) {
      assert valid == all;
    }
  }

  lemma SmallerProduct(n: nat, a: nat, b: nat)
    requires n > 0 && a <= b
    ensures n * a >= n * b <==> a == b
  {
    assert n * b == n * a + n * (b - a);
    assert b > a ==> n * (b - a) >= 1;
  }

  lemma SameSize<T>(a: set<T>, b: set<T>)
    requires a <= b && |a| == |b|
    ensures a == b
  {
    assert b == a + (b - a);
  }

  /** 1/n with n different entries asks for one of them. */
  lemma OneNeeded(c: Context, visited: set<string>, entries: seq<Identity>)
    requires !c.lenient && entries != [] && !MeetsPath(c, visited, entries)
    ensures Accepts(c, visited, Threshold(1, |set i | i in entries|, entries)) <==>
      exists i :: i in entries && Accepts(c, visited, Id(i))
  {
    var valid, n := Holding(c, visited, entries), |set i | i in entries|;
    ThresholdExactly(c, visited, 1, n, entries);
    UniqueEmpty(entries);
    assert Unique(entries) == set i | i in entries;
    if valid == {} {
      assert forall i :: i in entries && Accepts(c, visited, Id(i)) ==> i in valid;
    } else {
      var i :| i in valid;
      assert |valid| >= 1;
      assert n * |valid| >= n * 1;
    }
  }

  // --------------------------------------------------- the delegation equations

  /** The value of an expression when exactly the darcs in `s` hold. */
  predicate EntryIn(c: Context, s: set<string>, i: Identity) {
    Direct(c, i) || (i.DarcRef? && i.id in s)
  }

  predicate Holds(c: Context, s: set<string>, e: Expr) {
    match e
    case Id(who) => EntryIn(c, s, who)
    case Attr(name) => c.attrs(name)
    case Threshold(num, den, entries) =>
      Meets(num, den, |set i | i in entries && EntryIn(c, s, i)|, |Unique(entries)|)
    case And(left, right) => Holds(c, s, left) && Holds(c, s, right)
    case Or(left, right) => Holds(c, s, left) || Holds(c, s, right)
  }

  /** The darcs whose _sign expression is true when those in `s` hold. */
  function Consequence(c: Context, s: set<string>): (r: set<string>)
  {
    set d | d in c.darcs.Keys && c.darcs[d].Sign? && Holds(c, s, c.darcs[d].expr)
  }

  function Stage(c: Context, n: nat): (s: set<string>)
  {
    if n == 0 then {} else Consequence(c, Stage(c, n - 1))
  }

  /** The least solution; `LeastSolution` justifies the name. */
  function Solution(c: Context): (s: set<string>)
  {
    Stage(c, |c.darcs.Keys|)
  }

  lemma MeetsMonotone(num: nat, den: nat, valid: nat, valid': nat, unique: nat)
    requires valid <= valid' && Meets(num, den, valid, unique)
    ensures Meets(num, den, valid', unique)
  {
    assert den * valid' == den * valid + den * (valid' - valid);
  }

  lemma SubsetSize<T>(a: set<T>, b: set<T>)
    requires a <= b
    ensures |a| <= |b|
  {
    assert b == a + (b - a);
  }

  lemma {:induction false} HoldsMonotone(c: Context, s: set<string>, s': set<string>, e: Expr)
    requires s <= s' && Holds(c, s, e)
    ensures Holds(c, s', e)
    decreases e
  {
    match e
    case Id(_) =>
    case Attr(_) =>
    case Threshold(num, den, entries) =>
      var valid, valid' := set i | i in entries && EntryIn(c, s, i), set i | i in entries && EntryIn(c, s', i);
      SubsetSize(valid, valid');
      MeetsMonotone(num, den, |valid|, |valid'|, |Unique(entries)|);
    case And(left, right) =>
      HoldsMonotone(c, s, s', left);
      HoldsMonotone(c, s, s', right);
    case Or(left, right) =>
      if Holds(c, s, left) {
        HoldsMonotone(c, s, s', left);
      } else {
        HoldsMonotone(c, s, s', right);
      }
  }

  lemma ConsequenceMonotone(c: Context, s: set<string>, s': set<string>)
    requires s <= s'
    ensures Consequence(c, s) <= Consequence(c, s')
  {
    forall d | d in Consequence(c, s) ensures d in Consequence(c, s') {
      HoldsMonotone(c, s, s', c.darcs[d].expr);
    }
  }

  lemma {:induction false} StageGrows(c: Context, n: nat)
    ensures Stage(c, n) <= Stage(c, n + 1)
    decreases n
  {
    if n > 0 {
      StageGrows(c, n - 1);
      ConsequenceMonotone(c, Stage(c, n - 1), Stage(c, n));
    }
  }

  /** A stage is either a solution already or has at least as many darcs as its number. */
  lemma {:induction false} StageSize(c: Context, n: nat)
    ensures Stage(c, n) == Stage(c, n + 1) || |Stage(c, n + 1)| >= n + 1
    decreases n
  {
    StageGrows(c, n);
    if n > 0 {
      StageSize(c, n - 1);
    }
    if Stage(c, n) != Stage(c, n + 1) {
      var extra := Stage(c, n + 1) - Stage(c, n);
      assert Stage(c, n + 1) == Stage(c, n) + extra;
      assert extra != {} && |extra| > 0;
    }
  }

  /** `Solution` solves the delegation equations and lies in every set of darcs that is
      closed under them. */
  lemma LeastSolution(c: Context)
    ensures Consequence(c, Solution(c)) == Solution(c)
    ensures forall s :: Consequence(c, s) <= s ==> Solution(c) <= s
  {
    var n := |c.darcs.Keys|;
    StageSize(c, n);
    SubsetSize(Stage(c, n + 1), c.darcs.Keys);
    forall s | Consequence(c, s) <= s ensures Solution(c) <= s {
      StageBelow(c, n, s);
    }
  }

  lemma {:induction false} StageBelow(c: Context, n: nat, s: set<string>)
    requires Consequence(c, s) <= s
    ensures Stage(c, n) <= s
    decreases n
  {
    if n > 0 {
      StageBelow(c, n - 1, s);
      ConsequenceMonotone(c, Stage(c, n - 1), s);
    }
  }

  // ------------------------------------------------------ the path evaluator is sound

  lemma {:induction false} EntrySound(c: Context, visited: set<string>, i: Identity)
    requires Entry(c, visited, i)
    ensures EntryIn(c, Solution(c), i)
    decreases Known(c, visited), 0
  {
    if !Direct(c, i) {
      assert i.id in Known(c, visited) && i.id !in Known(c, visited + {i.id});
      AcceptsSound(c, visited + {i.id}, c.darcs[i.id].expr);
      LeastSolution(c);
      assert i.id in Consequence(c, Solution(c));
    }
  }

  /** Whatever the path, with or without thresholds: what is accepted holds in the least
      solution. */
  lemma {:induction false} AcceptsSound(c: Context, visited: set<string>, e: Expr)
    requires Accepts(c, visited, e)
    ensures Holds(c, Solution(c), e)
    decreases Known(c, visited), 1, e
  {
    match e
    case Id(who) => EntrySound(c, visited, who);
    case Attr(_) =>
    case Threshold(num, den, entries) =>
      var s := Solution(c);
      var valid, valid' := set i | i in entries && Entry(c, visited, i), set i | i in entries && EntryIn(c, s, i);
      forall i | i in valid ensures i in valid' {
        EntrySound(c, visited, i);
      }
      SubsetSize(valid, valid');
      MeetsMonotone(num, den, |valid|, |valid'|, |Unique(entries)|);
    case And(left, right) =>
      AcceptsSound(c, visited, left);
      AcceptsSound(c, visited, right);
    case Or(left, right) =>
      if Accepts(c, visited, left) {
        AcceptsSound(c, visited, left);
      } else {
        AcceptsSound(c, visited, right);
      }
  }

  // -------------------------------------------- the lenient evaluator is complete

  /** A darc that enters the solution at some stage can be shown to hold along any path
      that avoids the stages before: its own evaluation only needs those. */
  lemma {:induction false} EntryComplete(c: Context, visited: set<string>, i: Identity, n: nat)
    requires c.lenient && EntryIn(c, Stage(c, n), i) && visited !! Stage(c, n)
    ensures Entry(c, visited, i)
    decreases n, 0
  {
    if !Direct(c, i) {
      assert n > 0;
      StageGrows(c, n - 1);
      if i.id in Stage(c, n - 1) {
        EntryComplete(c, visited, i, n - 1);
      } else {
        assert i.id in Consequence(c, Stage(c, n - 1));
        assert i.id in Known(c, visited) && i.id !in Known(c, visited + {i.id});
        AcceptsComplete(c, visited + {i.id}, c.darcs[i.id].expr, n - 1);
      }
    }
  }

  lemma {:induction false} AcceptsComplete(c: Context, visited: set<string>, e: Expr, n: nat)
    requires c.lenient && Holds(c, Stage(c, n), e) && visited !! Stage(c, n)
    ensures Accepts(c, visited, e)
    decreases n, 1, e
  {
    match e
    case Id(who) => EntryComplete(c, visited, who, n);
    case Attr(_) =>
    case Threshold(num, den, entries) =>
      var s := Stage(c, n);
      var valid, valid' := set i | i in entries && EntryIn(c, s, i), set i | i in entries && Entry(c, visited, i);
      forall i | i in valid ensures i in valid' {
        EntryComplete(c, visited, i, n);
      }
      SubsetSize(valid, valid');
      MeetsMonotone(num, den, |valid|, |valid'|, |Unique(entries)|);
    case And(left, right) =>
      AcceptsComplete(c, visited, left, n);
      AcceptsComplete(c, visited, right, n);
    case Or(left, right) =>
      if Holds(c, Stage(c, n), left) {
        AcceptsComplete(c, visited, left, n);
      } else {
        AcceptsComplete(c, visited, right, n);
      }
  }


  /** Counting an entry on the path as invalid would compute the least solution for all
      expressions, thresholds included. */
  lemma LenientIsSolution(c: Context, e: Expr)
    requires c.lenient
    ensures Accepts(c, {}, e) <==> Holds(c, Solution(c), e)
  {
    if Accepts(c, {}, e) {
      AcceptsSound(c, {}, e);
    }
    if Holds(c, Solution(c), e) {
      AcceptsComplete(c, {}, e, |c.darcs.Keys|);
    }
  }

  // ------------------------------------------------- when a threshold meets its path

  predicate EntryCuts(c: Context, visited: set<string>, i: Identity)
    decreases Known(c, visited), 0
  {
    && !Direct(c, i) && i.DarcRef? && i.id !in visited && i.id in c.darcs && c.darcs[i.id].Sign?
    && (assert i.id in Known(c, visited) && i.id !in Known(c, visited + {i.id});
        Cuts(c, visited + {i.id}, c.darcs[i.id].expr))
  }

  /** Somewhere in the evaluation a threshold has an entry that is on its path. */
  predicate Cuts(c: Context, visited: set<string>, e: Expr)
    decreases Known(c, visited), 1, e
  {
    match e
    case Id(who) => EntryCuts(c, visited, who)
    case Attr(_) => false
    case Threshold(_, _, entries) =>
      || (exists i :: i in entries && OnPath(c, visited, i))
      || (exists i :: i in entries && EntryCuts(c, visited, i))
    case And(left, right) => Cuts(c, visited, left) || Cuts(c, visited, right)
    case Or(left, right) => Cuts(c, visited, left) || Cuts(c, visited, right)
  }

  lemma {:induction false} UncutEntry(c: Context, visited: set<string>, i: Identity)
    requires !EntryCuts(c, visited, i)
    ensures Entry(c, visited, i) == Entry(c.(lenient := true), visited, i)
    decreases Known(c, visited), 0
  {
    var c' := c.(lenient := true);
    assert Direct(c, i) == Direct(c', i);
    if !Direct(c, i) && i.DarcRef? && i.id !in visited && i.id in c.darcs && c.darcs[i.id].Sign? {
      assert i.id in Known(c, visited) && i.id !in Known(c, visited + {i.id});
      Uncut(c, visited + {i.id}, c.darcs[i.id].expr);
    }
  }

  lemma {:induction false} Uncut(c: Context, visited: set<string>, e: Expr)
    requires !Cuts(c, visited, e)
    ensures Accepts(c, visited, e) == Accepts(c.(lenient := true), visited, e)
    decreases Known(c, visited), 1, e
  {
    var c' := c.(lenient := true);
    match e
    case Id(who) => UncutEntry(c, visited, who);
    case Attr(_) =>
    case Threshold(num, den, entries) =>
      forall i | i in entries ensures Entry(c, visited, i) == Entry(c', visited, i) {
        UncutEntry(c, visited, i);
      }
      assert (set i | i in entries && Entry(c, visited, i)) == set i | i in entries && Entry(c', visited, i);
    case And(left, right) =>
      Uncut(c, visited, left);
      Uncut(c, visited, right);
    case Or(left, right) =>
      Uncut(c, visited, left);
      Uncut(c, visited, right);
  }

  lemma {:induction false} LenientSameSolution(c: Context, s: set<string>, e: Expr)
    ensures Holds(c, s, e) == Holds(c.(lenient := true), s, e)
    decreases e
  {
    var c' := c.(lenient := true);
    assert forall i :: EntryIn(c, s, i) == EntryIn(c', s, i);
    match e
    case Id(_) =>
    case Attr(_) =>
    case Threshold(_, _, entries) =>
      assert (set i | i in entries && EntryIn(c, s, i)) == set i | i in entries && EntryIn(c', s, i);
    case And(left, right) =>
      LenientSameSolution(c, s, left);
      LenientSameSolution(c, s, right);
    case Or(left, right) =>
      LenientSameSolution(c, s, left);
      LenientSameSolution(c, s, right);
  }

  lemma {:induction false} LenientSameStage(c: Context, n: nat)
    ensures Stage(c, n) == Stage(c.(lenient := true), n)
    decreases n
  {
    if n > 0 {
      LenientSameStage(c, n - 1);
      forall d | d in c.darcs && c.darcs[d].Sign?
        ensures Holds(c, Stage(c, n - 1), c.darcs[d].expr)
             == Holds(c.(lenient := true), Stage(c, n - 1), c.darcs[d].expr)
      {
        LenientSameSolution(c, Stage(c, n - 1), c.darcs[d].expr);
      }
    }
  }

  /** Unless a threshold meets its own path, the evaluator decides the least solution. */
  lemma UncutIsSolution(c: Context, e: Expr)
    requires !Cuts(c, {}, e)
    ensures Accepts(c, {}, e) <==> Holds(c, Solution(c), e)
  {
    var c' := c.(lenient := true);
    Uncut(c, {}, e);
    LenientIsSolution(c', e);
    LenientSameStage(c, |c.darcs.Keys|);
    LenientSameSolution(c, Solution(c), e);
  }

  predicate Plain(e: Expr) {
    match e
    case Id(_) => true
    case Attr(_) => true
    case Threshold(_, _, _) => false
    case And(left, right) => Plain(left) && Plain(right)
    case Or(left, right) => Plain(left) && Plain(right)
  }

  predicate PlainDarcs(c: Context) {
    forall d :: d in c.darcs && c.darcs[d].Sign? ==> Plain(c.darcs[d].expr)
  }

  lemma {:induction false} PlainNeverCuts(c: Context, visited: set<string>, e: Expr)
    requires Plain(e) && PlainDarcs(c)
    ensures !Cuts(c, visited, e)
    decreases Known(c, visited), e
  {
    match e
    case Id(who) =>
      if EntryCuts(c, visited, who) {
        assert who.id in Known(c, visited) && who.id !in Known(c, visited + {who.id});
        PlainNeverCuts(c, visited + {who.id}, c.darcs[who.id].expr);
      }
    case Attr(_) =>
    case And(left, right) =>
      PlainNeverCuts(c, visited, left);
      PlainNeverCuts(c, visited, right);
    case Or(left, right) =>
      PlainNeverCuts(c, visited, left);
      PlainNeverCuts(c, visited, right);
  }

  /** For AND/OR expressions over any delegation graph, cyclic or not, the evaluator
      accepts exactly what holds in the least solution. */
  lemma PlainIsSolution(c: Context, e: Expr)
    requires Plain(e) && PlainDarcs(c)
    ensures Accepts(c, {}, e) <==> Holds(c, Solution(c), e)
  {
    PlainNeverCuts(c, {}, e);
    UncutIsSolution(c, e);
  }

  // ---------------------------------------------------- a condition on the graph

  /** Identities in `e`, those in thresholds strictly below `bound`, the others at most
      `bound`. */
  predicate Ranked(rank: string -> nat, bound: nat, e: Expr) {
    match e
    case Id(who) => who.DarcRef? ==> rank(who.id) <= bound
    case Attr(_) => true
    case Threshold(_, _, entries) => forall i :: i in entries && i.DarcRef? ==> rank(i.id) < bound
    case And(left, right) => Ranked(rank, bound, left) && Ranked(rank, bound, right)
    case Or(left, right) => Ranked(rank, bound, left) && Ranked(rank, bound, right)
  }

  /** Delegation never goes up in rank, and goes down through a threshold: no cycle of the
      graph passes through a threshold. */
  predicate Stratified(c: Context, rank: string -> nat) {
    forall d :: d in c.darcs && c.darcs[d].Sign? ==> Ranked(rank, rank(d), c.darcs[d].expr)
  }

  lemma {:induction false} RankedMonotone(rank: string -> nat, bound: nat, bound': nat, e: Expr)
    requires bound <= bound' && Ranked(rank, bound, e)
    ensures Ranked(rank, bound', e)
    decreases e
  {
    if e.And? || e.Or? {
      RankedMonotone(rank, bound, bound', e.left);
      RankedMonotone(rank, bound, bound', e.right);
    }
  }

  lemma {:induction false} StratifiedEntry(c: Context, rank: string -> nat, visited: set<string>, i: Identity, bound: nat)
    requires Stratified(c, rank) && (forall d :: d in visited ==> rank(d) >= bound)
    requires i.DarcRef? ==> rank(i.id) <= bound
    ensures !EntryCuts(c, visited, i)
    decreases Known(c, visited), 0
  {
    if EntryCuts(c, visited, i) {
      assert i.id in Known(c, visited) && i.id !in Known(c, visited + {i.id});
      StratifiedNeverCuts(c, rank, visited + {i.id}, c.darcs[i.id].expr, rank(i.id));
    }
  }

  lemma {:induction false} StratifiedNeverCuts(c: Context, rank: string -> nat, visited: set<string>, e: Expr, bound: nat)
    requires Stratified(c, rank) && Ranked(rank, bound, e) && forall d :: d in visited ==> rank(d) >= bound
    ensures !Cuts(c, visited, e)
    decreases Known(c, visited), 1, e
  {
    match e
    case Id(who) => StratifiedEntry(c, rank, visited, who, bound);
    case Attr(_) =>
    case Threshold(_, _, entries) =>
      forall i | i in entries ensures !OnPath(c, visited, i) && !EntryCuts(c, visited, i) {
        StratifiedEntry(c, rank, visited, i, bound);
      }
    case And(left, right) =>
      StratifiedNeverCuts(c, rank, visited, left, bound);
      StratifiedNeverCuts(c, rank, visited, right, bound);
    case Or(left, right) =>
      StratifiedNeverCuts(c, rank, visited, left, bound);
      StratifiedNeverCuts(c, rank, visited, right, bound);
  }

  /** When no delegation cycle passes through a threshold, thresholds are exact too. */
  lemma StratifiedIsSolution(c: Context, rank: string -> nat, e: Expr, bound: nat)
    requires Stratified(c, rank) && Ranked(rank, bound, e)
    ensures Accepts(c, {}, e) <==> Holds(c, Solution(c), e)
  {
    StratifiedNeverCuts(c, rank, {}, e, bound);
    UncutIsSolution(c, e);
  }

  /** The darc "x" signs with one of two: the signer "a" or itself. With the signature of
      "a" it holds in the least solution, and the evaluator rejects it. */
  lemma ThresholdCycleRejected(attrs: string -> bool)
    ensures
      var a, x := Signer("a"), DarcRef("x");
      var c := Context(map["x" := Sign(Threshold(1, 2, [a, x]))], {a}, attrs, false, false);
      Holds(c, Solution(c), Id(x)) && !Accepts(c, {}, Id(x))
  {
    var a, x := Signer("a"), DarcRef("x");
    var e := Threshold(1, 2, [a, x]);
    var c := Context(map["x" := Sign(e)], {a}, attrs, false, false);
    assert x in [a, x] && OnPath(c, {} + {"x"}, x);
    assert Cut(c, {} + {"x"}, [a, x]) && !Accepts(c, {} + {"x"}, e);
    assert !Entry(c, {}, x);
    LeastSolution(c);
    var s := Solution(c);
    var valid := set i | i in [a, x] && EntryIn(c, s, i);
    assert a in [a, x] && a in valid && {a} <= valid;
    SubsetSize({a}, valid);
    assert Unique([a, x]) == {a, x};
    assert Holds(c, s, e);
    assert "x" in Consequence(c, s);
  }

  // --------------------------------------------------------- more signers, not fewer

  ghost predicate MoreIds(c: Context, c': Context) {
    c.ids <= c'.ids && c' == c.(ids := c'.ids)
  }

  lemma {:induction false} EntryMonotone(c: Context, c': Context, visited: set<string>, i: Identity)
    requires MoreIds(c, c') && Entry(c, visited, i)
    ensures Entry(c', visited, i)
    decreases Known(c, visited), 0
  {
    if !Direct(c, i) {
      assert i.id in Known(c, visited) && i.id !in Known(c, visited + {i.id});
      AcceptsMonotone(c, c', visited + {i.id}, c.darcs[i.id].expr);
    }
  }

  /** Acceptance is monotone in the identities, thresholds and cycles included. */
  lemma {:induction false} AcceptsMonotone(c: Context, c': Context, visited: set<string>, e: Expr)
    requires MoreIds(c, c') && Accepts(c, visited, e)
    ensures Accepts(c', visited, e)
    decreases Known(c, visited), 1, e
  {
    match e
    case Id(who) => EntryMonotone(c, c', visited, who);
    case Attr(_) =>
    case Threshold(num, den, entries) =>
      var valid, valid' := set i | i in entries && Entry(c, visited, i), set i | i in entries && Entry(c', visited, i);
      forall i | i in valid ensures i in valid' {
        EntryMonotone(c, c', visited, i);
      }
      SubsetSize(valid, valid');
      MeetsMonotone(num, den, |valid|, |valid'|, |Unique(entries)|);
    case And(left, right) =>
      AcceptsMonotone(c, c', visited, left);
      AcceptsMonotone(c, c', visited, right);
    case Or(left, right) =>
      if Accepts(c, visited, left) {
        AcceptsMonotone(c, c', visited, left);
      } else {
        AcceptsMonotone(c, c', visited, right);
      }
  }
}
