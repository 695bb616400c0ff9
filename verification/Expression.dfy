/** The operators of darc expressions. The parser folds them from left to right; the grammar
    in the documentation binds "|" tighter than "&". */
module Expression {
  import opened DarcEval

  datatype Op = AndOp | OrOp

  /** What follows the first operand: operators, each with the value of its operand. */
  type Tail = seq<(Op, bool)>

  function Combine(val: bool, x: (Op, bool)): (r: bool)
  {
    if x.0 == AndOp then val && x.1 else val || x.1
  }

  function FoldLeft(val: bool, tail: Tail): (r: bool)
    decreases |tail|
  {
    if tail == [] then val else FoldLeft(Combine(val, tail[0]), tail[1..])
  }

  /** sumNode. */
  method SumNode(first: bool, tail: Tail) returns (val: bool)
    ensures val == FoldLeft(first, tail)
  {
    val := first;
    var todo := tail;
    while todo != []
      invariant FoldLeft(val, todo) == FoldLeft(first, tail)
      decreases |todo|
    {
      var (op, n) := todo[0];
      match op {
        case AndOp => val := val && n;
        case OrOp => val := val || n;
      }
      todo := todo[1..];
    }
  }

  /** The tree that the evaluator sees for a flat expression. */
  function TreeOf(first: Expr, tail: seq<(Op, Expr)>): (e: Expr)
    decreases |tail|
  {
    if tail == [] then first
    else TreeOf(if tail[0].0 == AndOp then And(first, tail[0].1) else Or(first, tail[0].1), tail[1..])
  }

  ghost function Values(c: Context, visited: set<string>, tail: seq<(Op, Expr)>): (r: Tail)
    ensures |r| == |tail|
  {
    seq(|tail|, i requires 0 <= i < |tail| => (tail[i].0, Accepts(c, visited, tail[i].1)))
  }

  /** Evaluating the tree is folding the values of the operands. */
  lemma {:induction false} TreeIsFold(c: Context, visited: set<string>, first: Expr, tail: seq<(Op, Expr)>)
    ensures Accepts(c, visited, TreeOf(first, tail)) == FoldLeft(Accepts(c, visited, first), Values(c, visited, tail))
    decreases |tail|
  {
    if tail != [] {
      var next := if tail[0].0 == AndOp then And(first, tail[0].1) else Or(first, tail[0].1);
      TreeIsFold(c, visited, next, tail[1..]);
      assert Values(c, visited, tail)[1..] == Values(c, visited, tail[1..]);
    }
  }

  // -------------------------------------------------------- the documented grammar

  /** A conjunction of disjunctions: `done` are the terms before, `term` is the one being
      read. */
  function Terms(done: bool, term: bool, tail: Tail): (r: bool)
    decreases |tail|
  {
    if tail == [] then done && term
    else if tail[0].0 == AndOp then Terms(done && term, tail[0].1, tail[1..])
    else Terms(done, term || tail[0].1, tail[1..])
  }

  function Zip(ops: seq<Op>, vals: seq<bool>): (tail: Tail)
    requires |ops| == |vals|
  {
    seq(|ops|, i requires 0 <= i < |ops| => (ops[i], vals[i]))
  }

  ghost predicate AndBeforeOr(ops: seq<Op>) {
    exists i, j :: 0 <= i < j < |ops| && ops[i] == AndOp && ops[j] == OrOp
  }

  ghost predicate Agree(ops: seq<Op>, first: bool, vals: seq<bool>) {
    |vals| == |ops| ==> FoldLeft(first, Zip(ops, vals)) == Terms(true, first, Zip(ops, vals))
  }

  /** Code and documentation agree on an expression, whatever its operands are, exactly if
      no "&" stands before a "|" in it without parentheses. */
  lemma AgreeExactly(ops: seq<Op>)
    ensures (forall first, vals :: Agree(ops, first, vals)) <==> !AndBeforeOr(ops)
  {
    if AndBeforeOr(ops) {
      var i, j :| 0 <= i < j < |ops| && ops[i] == AndOp && ops[j] == OrOp;
      Disagree(ops, i, j);
    } else {
      forall first, vals ensures Agree(ops, first, vals) {
        if |vals| == |ops| {
          OrsThenAnds(first, Zip(ops, vals));
        }
      }
    }
  }

  ghost predicate NoAndBeforeOr(tail: Tail) {
    forall i, j :: 0 <= i < j < |tail| && tail[i].0 == AndOp ==> tail[j].0 == AndOp
  }

  lemma {:induction false} OrsThenAnds(val: bool, tail: Tail)
    requires NoAndBeforeOr(tail)
    ensures FoldLeft(val, tail) == Terms(true, val, tail)
    decreases |tail|
  {
    if tail != [] {
      if tail[0].0 == AndOp {
        assert forall i :: 0 <= i < |tail| ==> tail[i].0 == AndOp;
        AndsOnly(true, val, tail);
      } else {
        OrsThenAnds(Combine(val, tail[0]), tail[1..]);
      }
    }
  }

  lemma {:induction false} AndsOnly(done: bool, term: bool, tail: Tail)
    requires forall i :: 0 <= i < |tail| ==> tail[i].0 == AndOp
    ensures FoldLeft(done && term, tail) == Terms(done, term, tail)
    decreases |tail|
  {
    if tail != [] {
      AndsOnly(done && term, tail[0].1, tail[1..]);
    }
  }

  /** An "&" at `i` and a "|" at `j`: with operands that are false up to the "|" and true from
      there on, the fold is true and the grammar reads false. */
  lemma Disagree(ops: seq<Op>, i: nat, j: nat)
    requires i < j < |ops| && ops[i] == AndOp && ops[j] == OrOp
    ensures !Agree(ops, false, seq(|ops|, k => k >= j))
  {
    var vals := seq(|ops|, k => k >= j);
    TurnsTrue(false, Zip(ops, vals), j);
    StaysFalse(true, Zip(ops, vals), i);
  }

  lemma {:induction false} TurnsTrue(val: bool, tail: Tail, j: nat)
    requires j < |tail| && tail[j].0 == OrOp && tail[j].1
    requires forall k :: j < k < |tail| ==> tail[k].1
    ensures FoldLeft(val, tail)
    decreases |tail|
  {
    if j == 0 {
      AllTrue(tail[1..]);
    } else {
      TurnsTrue(Combine(val, tail[0]), tail[1..], j - 1);
    }
  }

  lemma {:induction false} AllTrue(tail: Tail)
    requires forall k :: 0 <= k < |tail| ==> tail[k].1
    ensures FoldLeft(true, tail)
    decreases |tail|
  {
    if tail != [] {
      AllTrue(tail[1..]);
    }
  }

  lemma {:induction false} StaysFalse(done: bool, tail: Tail, i: nat)
    requires i < |tail| && tail[i].0 == AndOp && forall k :: 0 <= k < i ==> !tail[k].1
    ensures !Terms(done, false, tail)
    decreases |tail|
  {
    if tail[0].0 == AndOp {
      Dead(tail[0].1, tail[1..]);
    } else {
      StaysFalse(done, tail[1..], i - 1);
    }
  }

  lemma {:induction false} Dead(term: bool, tail: Tail)
    ensures !Terms(false, term, tail)
    decreases |tail|
  {
    if tail != [] {
      Dead(if tail[0].0 == AndOp then tail[0].1 else term || tail[0].1, tail[1..]);
    }
  }
}
