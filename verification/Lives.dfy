/** Numbers that run on within a life and start over with the next one: when are they all
    different?

    The changes of an instance in a block come in groups, one for each instruction. Within an
    instruction the version numbers run on. The number of its first change follows the
    version that is stored, and is zero if nothing is stored, which is so after a group that
    ends with a removal. */
module Lives {
  import opened Types

  datatype Mark = Mark(version: nat, removes: bool)

  type Group = seq<Mark>

  function NextOf(stored: Option<nat>): (v: nat)
  {
    if stored.Some? then stored.value + 1 else 0
  }

  function Leaves(g: Group): (stored: Option<nat>)
    requires g != []
  {
    if g[|g| - 1].removes then None else Some(g[|g| - 1].version)
  }

  ghost predicate RunsOn(g: Group, v: nat) {
    forall i :: 0 <= i < |g| ==> g[i].version == v + i
  }

  /** The numbering rule for one instruction. */
  ghost predicate Obeys(stored: Option<nat>, g: Group, stored': Option<nat>) {
    if g == [] then stored' == stored else RunsOn(g, NextOf(stored)) && stored' == Leaves(g)
  }

  /** The rule for a run of instructions. */
  ghost predicate Ruled(stored: Option<nat>, gs: seq<Group>, stored': Option<nat>)
    decreases |gs|
  {
    if gs == [] then stored' == stored
    else exists s :: Obeys(stored, gs[0], s) && Ruled(s, gs[1..], stored')
  }

  lemma {:induction false} RuledConcat(a: Option<nat>, gs: seq<Group>, b: Option<nat>, hs: seq<Group>, c: Option<nat>)
    requires Ruled(a, gs, b) && Ruled(b, hs, c)
    ensures Ruled(a, gs + hs, c)
    decreases |gs|
  {
    if gs == [] {
      assert gs + hs == hs;
    } else {
      var s :| Obeys(a, gs[0], s) && Ruled(s, gs[1..], b);
      RuledConcat(s, gs[1..], b, hs, c);
      assert (gs + hs)[1..] == gs[1..] + hs;
    }
  }

  // ------------------------------------------------------------------- the lives

  /** How many changes the lives have, read off the removals: a life ends with an
      instruction that leaves the instance removed. */
  function LifeLengths(gs: seq<Group>): (ls: seq<nat>)
    ensures forall n :: n in ls ==> n > 0
    decreases |gs|
  {
    if gs == [] then []
    else
      var rest := LifeLengths(gs[1..]);
      if gs[0] == [] then rest
      else Before(|gs[0]|, Leaves(gs[0]).None?, rest)
  }

  /** `n` changes before the lives `ls`: a life of their own if it ends with them. */
  function Before(n: nat, ends: bool, ls: seq<nat>): (r: seq<nat>)
    requires n > 0 && forall m :: m in ls ==> m > 0
    ensures forall m :: m in r ==> m > 0
  {
    if ends || ls == [] then [n] + ls
    else
      assert forall m :: m in ls[1..] ==> m in ls;
      [n + ls[0]] + ls[1..]
  }

  function Range(v: nat, n: nat): (r: seq<nat>)
    ensures |r| == n
  {
    seq(n, i requires 0 <= i < n => v + i)
  }

  /** The first life starts at `v`, every later one at zero. */
  function Ranges(v: nat, ls: seq<nat>): (r: seq<nat>)
    decreases |ls|
  {
    if ls == [] then [] else Range(v, ls[0]) + Ranges(0, ls[1..])
  }

  function VersionsOf(g: Group): (r: seq<nat>)
    ensures |r| == |g|
  {
    seq(|g|, i requires 0 <= i < |g| => g[i].version)
  }

  function Flat(gs: seq<Group>): (g: Group)
    decreases |gs|
  {
    if gs == [] then [] else gs[0] + Flat(gs[1..])
  }

  lemma FirstGroup(stored: Option<nat>, g: Group, s: Option<nat>, rest: Group, ls: seq<nat>)
    requires Obeys(stored, g, s) && g != [] && VersionsOf(rest) == Ranges(NextOf(s), ls)
    requires forall m :: m in ls ==> m > 0
    ensures VersionsOf(g + rest) == Ranges(NextOf(stored), Before(|g|, s.None?, ls))
  {
    if s.None? || ls == [] {
      GroupEnds(g, NextOf(stored), rest, ls);
    } else {
      GroupGoesOn(g, NextOf(stored), rest, ls);
    }
  }

  lemma GroupEnds(g: Group, v: nat, rest: Group, ls: seq<nat>)
    requires RunsOn(g, v) && VersionsOf(rest) == Ranges(0, ls)
    ensures VersionsOf(g + rest) == Ranges(v, [|g|] + ls)
  {
    VersionsOfGroup(g, v, rest);
    RangesHead(v, |g|, ls);
  }

  lemma GroupGoesOn(g: Group, v: nat, rest: Group, ls: seq<nat>)
    requires RunsOn(g, v) && ls != [] && VersionsOf(rest) == Ranges(v + |g|, ls)
    ensures VersionsOf(g + rest) == Ranges(v, [|g| + ls[0]] + ls[1..])
  {
    VersionsOfGroup(g, v, rest);
    LifeGoesOn(v, |g|, ls);
  }

  /** The rule fixes all numbers. */
  lemma {:induction false} RuledRanges(stored: Option<nat>, gs: seq<Group>, stored': Option<nat>)
    requires Ruled(stored, gs, stored')
    ensures VersionsOf(Flat(gs)) == Ranges(NextOf(stored), LifeLengths(gs))
    decreases |gs|
  {
    if gs != [] {
      var g, rest := gs[0], gs[1..];
      var s :| Obeys(stored, g, s) && Ruled(s, rest, stored');
      RuledRanges(s, rest, stored');
      if g == [] {
        assert g + Flat(rest) == Flat(rest);
      } else {
        FirstGroup(stored, g, s, Flat(rest), LifeLengths(rest));
      }
    }
  }

  lemma VersionsOfGroup(g: Group, v: nat, rest: Group)
    requires RunsOn(g, v)
    ensures VersionsOf(g + rest) == Range(v, |g|) + VersionsOf(rest)
  {
  }

  lemma RangeConcat(v: nat, n: nat, m: nat, rest: seq<nat>)
    ensures Range(v, n) + (Range(v + n, m) + rest) == Range(v, n + m) + rest
  {
  }

  lemma RangesHead(v: nat, n: nat, ls: seq<nat>)
    ensures Ranges(v, [n] + ls) == Range(v, n) + Ranges(0, ls)
  {
    assert ([n] + ls)[1..] == ls;
  }

  lemma LifeGoesOn(v: nat, n: nat, ls: seq<nat>)
    requires ls != []
    ensures Range(v, n) + Ranges(v + n, ls) == Ranges(v, [n + ls[0]] + ls[1..])
  {
    RangesHead(v, n + ls[0], ls[1..]);
    RangeConcat(v, n, ls[0], Ranges(0, ls[1..]));
  }

  /** No number runs past what the first one and the changes add up to. */
  lemma {:induction false} RuledBelow(stored: Option<nat>, gs: seq<Group>, stored': Option<nat>, b: nat)
    requires Ruled(stored, gs, stored') && NextOf(stored) + |Flat(gs)| <= b
    ensures forall v :: v in VersionsOf(Flat(gs)) ==> v < b
    decreases |gs|
  {
    if gs != [] {
      var g, rest := gs[0], gs[1..];
      var s :| Obeys(stored, g, s) && Ruled(s, rest, stored');
      assert NextOf(s) + |Flat(rest)| <= b;
      RuledBelow(s, rest, stored', b);
      VersionsConcat(g, Flat(rest));
    }
  }

  lemma VersionsConcat(g: Group, rest: Group)
    ensures VersionsOf(g + rest) == VersionsOf(g) + VersionsOf(rest)
  {
  }

  // ------------------------------------------------------------------ uniqueness

  ghost predicate NoRepeat(vs: seq<nat>) {
    forall i, j :: 0 <= i < j < |vs| ==> vs[i] != vs[j]
  }

  /** At most one life begins after a removal, and it is no longer than the first number. */
  predicate LivesFit(v: nat, ls: seq<nat>) {
    |ls| <= 1 || (|ls| == 2 && ls[1] <= v)
  }

  lemma RangesUnique(v: nat, ls: seq<nat>)
    requires forall n :: n in ls ==> n > 0
    ensures NoRepeat(Ranges(v, ls)) <==> LivesFit(v, ls)
  {
    if ls != [] {
      var a := Range(v, ls[0]);
      assert ls[0] in ls;
      if |ls| == 1 {
        assert ls[1..] == [] && a + [] == a;
      } else {
        var b, rest := Range(0, ls[1]), Ranges(0, ls[2..]);
        assert ls[1] in ls && ls[1..][1..] == ls[2..];
        assert Ranges(v, ls) == a + (b + rest);
        if |ls| == 2 {
          assert ls[2..] == [] && b + [] == b;
          TwoRanges(v, ls[0], ls[1]);
        } else {
          assert ls[2] in ls;
          var vs := Ranges(v, ls);
          assert rest[0] == 0;
          assert vs[ls[0]] == 0 && vs[ls[0] + ls[1]] == 0;
        }
      }
    }
  }

  lemma TwoRanges(v: nat, m: nat, n: nat)
    requires m > 0 && n > 0
    ensures NoRepeat(Range(v, m) + Range(0, n)) <==> n <= v
  {
    var vs := Range(v, m) + Range(0, n);
    if n > v {
      assert vs[0] == v && vs[m + v] == v;
    }
  }

  /** Under the rule, the numbers of an instance are all different exactly if its lives fit. */
  lemma RuledUnique(stored: Option<nat>, gs: seq<Group>, stored': Option<nat>)
    requires Ruled(stored, gs, stored')
    ensures NoRepeat(VersionsOf(Flat(gs))) <==> LivesFit(NextOf(stored), LifeLengths(gs))
  {
    RuledRanges(stored, gs, stored');
    RangesUnique(NextOf(stored), LifeLengths(gs));
  }
}
