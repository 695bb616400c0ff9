/** Rosters: which one may follow which, and why the signers of two consecutive blocks
    always have an honest node in common. */
module Roster {
  import opened Types
  import Encoding

  /** A roster lists the IDs of its nodes; the first one leads. */
  type Roster = seq<Bytes>

  /** How many nodes joined or left. */
  ghost function Changed(before: Roster, after: Roster): (n: nat)
  {
    |multiset(before) - multiset(after)| + |multiset(after) - multiset(before)|
  }

  ghost predicate Accepted(before: Roster, after: Roster)
    requires after != []
  {
    after[0] in before && Changed(before, after) <= 1
  }

  method Search(roster: Roster, node: Bytes) returns (i: int)
    ensures i == -1 <==> node !in roster
    ensures i != -1 ==> 0 <= i < |roster| && roster[i] == node
  {
    for k := 0 to |roster|
      invariant node !in roster[..k]
    {
      if roster[k] == node {
        return k;
      }
    }
    i := -1;
  }

  /** checkNewRoster: it crosses out the nodes that stay and counts the ones that join. */
  method CheckNewRoster(before: Roster, after: Roster) returns (ok: bool)
    requires after != []
    ensures ok <==> Accepted(before, after)
  {
    var index := Search(before, after[0]);
    if index < 0 {
      return false;
    }
    var added, left := 0, before;
    for k := 0 to |after|
      invariant multiset(left) == multiset(before) - multiset(after[..k])
      invariant added == |multiset(after[..k]) - multiset(before)|
    {
      var i := Search(left, after[k]);
      CrossOutNext(before, after, k);
      assert after[k] in left <==> after[k] in multiset(left);
      if i >= 0 {
        DropAt(left, i);
        left := left[..i] + left[i + 1..];
      } else {
        added := added + 1;
      }
    }
    assert after[..|after|] == after;
    assert |left| == |multiset(left)|;
    ok := |left| + added <= 1;
  }

  lemma CrossOutNext(before: Roster, after: Roster, k: nat)
    requires k < |after|
    ensures
      var m, seen, next, x := multiset(before), multiset(after[..k]), multiset(after[..k + 1]), after[k];
      && (x in m - seen ==> m - next == m - seen - multiset{x} && |next - m| == |seen - m|)
      && (x !in m - seen ==> m - next == m - seen && |next - m| == |seen - m| + 1)
  {
    assert after[..k + 1] == after[..k] + [after[k]];
    assert multiset(after[..k + 1]) == multiset(after[..k]) + multiset{after[k]};
  }

  lemma DropAt(s: Roster, i: nat)
    requires i < |s|
    ensures multiset(s[..i] + s[i + 1..]) == multiset(s) - multiset{s[i]}
  {
    assert s == s[..i] + [s[i]] + s[i + 1..];
  }

  /** The leader was there before and, counted with multiplicity, nothing changed, one node
      joined or one left. */
  lemma AcceptedExactly(before: Roster, after: Roster)
    requires after != []
    ensures Accepted(before, after) <==>
      after[0] in before &&
      (|| multiset(after) == multiset(before)
       || (exists x :: multiset(after) == multiset(before) + multiset{x})
       || (exists x :: multiset(before) == multiset(after) + multiset{x}))
  {
    var b, a := multiset(before), multiset(after);
    if Changed(before, after) <= 1 {
      if |b - a| == 1 {
        OneMore(b, a);
      } else if |a - b| == 1 {
        OneMore(a, b);
      } else {
        SubMultiset(a, b);
        SubMultiset(b, a);
      }
    }
    if x :| a == b + multiset{x} {
      assert a - b == multiset{x} && b - a == multiset{};
    }
    if x :| b == a + multiset{x} {
      assert b - a == multiset{x} && a - b == multiset{};
    }
  }

  lemma OneMore(a: multiset<Bytes>, b: multiset<Bytes>)
    requires |a - b| == 1 && |b - a| == 0
    ensures exists x :: a == b + multiset{x}
  {
    SubMultiset(b, a);
    var x :| x in a - b;
    var d := a - b;
    assert d == (d - multiset{x}) + multiset{x};
    assert |d - multiset{x}| == 0 && d - multiset{x} == multiset{};
    assert a == b + multiset{x};
  }

  // ------------------------------------------------------------------- rotation

  /** rotateRoster, which takes the leader index modulo the size. */
  function Rotate(roster: Roster, i: nat): (r: Roster)
    requires roster != []
  {
    var k := i % |roster|;
    roster[k..] + roster[..k]
  }

  lemma Around(i: nat, j: nat, n: nat)
    requires j < n
    ensures (i + j) % n == if i % n + j < n then i % n + j else i % n + j - n
  {
    var q, r := i / n, i % n + j;
    assert i + j == n * q + r;
    if r < n {
      Encoding.DivUnique(i + j, n, q, r);
    } else {
      assert n * q + n == n * (q + 1);
      Encoding.DivUnique(i + j, n, q + 1, r - n);
    }
  }

  /** A view change only rotates the roster, and is always accepted. */
  lemma RotationAccepted(roster: Roster, i: nat)
    requires roster != []
    ensures Rotate(roster, i) != [] && Accepted(roster, Rotate(roster, i))
    ensures |Rotate(roster, i)| == |roster|
    ensures forall j :: 0 <= j < |roster| ==> Rotate(roster, i)[j] == roster[(i + j) % |roster|]
  {
    var k := i % |roster|;
    forall j | 0 <= j < |roster| ensures Rotate(roster, i)[j] == roster[(i + j) % |roster|] {
      Around(i, j, |roster|);
    }
    assert roster == roster[..k] + roster[k..];
    assert multiset(Rotate(roster, i)) == multiset(roster);
  }

  // -------------------------------------------------------------------- quorums

  function FaultThreshold(n: nat): (f: nat)
    requires n > 0
    ensures 3 * f < n <= 3 * f + 3
  {
    (n - 1) / 3
  }

  function Threshold(n: nat): (q: nat)
    requires n > 0
    ensures 2 * n < 3 * q <= 2 * n + 3
  {
    n - FaultThreshold(n)
  }

  ghost predicate Distinct(roster: Roster) {
    forall i, j :: 0 <= i < j < |roster| ==> roster[i] != roster[j]
  }

  ghost function Nodes(roster: Roster): (s: set<Bytes>)
  {
    set x | x in roster
  }

  lemma {:induction false} NodesCount(roster: Roster)
    requires Distinct(roster)
    ensures |Nodes(roster)| == |roster|
    decreases |roster|
  {
    if roster != [] {
      NodesCount(roster[1..]);
      FirstNode(roster);
    }
  }

  lemma FirstNode(roster: Roster)
    requires Distinct(roster) && roster != []
    ensures Nodes(roster) == Nodes(roster[1..]) + {roster[0]} && roster[0] !in Nodes(roster[1..])
  {
    forall i | 0 <= i < |roster[1..]| ensures roster[1..][i] != roster[0] {
      assert roster[1..][i] == roster[i + 1];
    }
    assert roster == [roster[0]] + roster[1..];
  }

  lemma Subset(a: set<Bytes>, b: set<Bytes>)
    requires a <= b
    ensures |a| <= |b|
  {
    assert b == a + (b - a);
  }

  /** A roster that follows another contains it or is contained in it. */
  lemma OneContainsTheOther(before: Roster, after: Roster)
    requires after != [] && Accepted(before, after)
    ensures Nodes(before) <= Nodes(after) || Nodes(after) <= Nodes(before)
    ensures |before| <= |after| + 1 && |after| <= |before| + 1
  {
    var b, a := multiset(before), multiset(after);
    if |b - a| == 0 {
      SubMultiset(b, a);
      forall x | x in before ensures x in after {
        assert x in b && x in a;
      }
    } else {
      SubMultiset(a, b);
      forall x | x in after ensures x in before {
        assert x in a && x in b;
      }
    }
  }

  lemma SubMultiset(b: multiset<Bytes>, a: multiset<Bytes>)
    requires |b - a| == 0
    ensures b <= a
  {
    assert b - a == multiset{};
    forall x ensures b[x] <= a[x] {
      assert (b - a)[x] == 0;
    }
  }

  /** Whoever signs a block and whoever signs the next one, after any accepted change of
      the roster, have more nodes in common than may be faulty in either roster. */
  lemma QuorumsOverlap(before: Roster, after: Roster, q: set<Bytes>, r: set<Bytes>)
    requires before != [] && after != [] && Distinct(before) && Distinct(after) && Accepted(before, after)
    requires q <= Nodes(before) && |q| >= Threshold(|before|)
    requires r <= Nodes(after) && |r| >= Threshold(|after|)
    ensures |q * r| > FaultThreshold(|before|) && |q * r| > FaultThreshold(|after|)
  {
    OneContainsTheOther(before, after);
    NodesCount(before);
    NodesCount(after);
    if Nodes(before) <= Nodes(after) {
      Subset(Nodes(before), Nodes(after));
      Subset(q + r, Nodes(after));
    } else {
      Subset(Nodes(after), Nodes(before));
      Subset(q + r, Nodes(before));
    }
    assert |q * r| + |q + r| == |q| + |r|;
  }
}
