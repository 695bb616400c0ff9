/** The trie as it lies in its database bucket: every node is stored under its
    digest, and set and del rewrite the nodes of one path in place.

    The bucket always holds exactly the nodes of the tree, so nothing dangles and no
    node is lost. That deleting the old version of a node never hits another node is
    what the position inside the edge digests is for. */
module TrieStore {
  import opened Types
  import opened Merkle

  datatype Node =
    | EmptyNode(prefix: Bits)
    | LeafNode(prefix: Bits, key: InstanceID, value: Body)
    | InteriorNode(left: Digest, right: Digest)

  type Bucket = map<Digest, Node>

  ghost function NodeOf(nonce: Bytes, t: Tree): (n: Node)
  {
    match t
    case Empty(prefix) => EmptyNode(prefix)
    case Leaf(prefix, key, value) => LeafNode(prefix, key, value)
    case Interior(left, right) => InteriorNode(Hash(nonce, left), Hash(nonce, right))
  }

  /** All nodes of a tree except its root node. */
  ghost function Below(nonce: Bytes, t: Tree): (b: Bucket)
    decreases t, 0
  {
    if t.Interior? then Nodes(nonce, t.left) + Nodes(nonce, t.right) else map[]
  }

  ghost function Nodes(nonce: Bytes, t: Tree): (b: Bucket)
    decreases t, 1
  {
    Below(nonce, t)[Hash(nonce, t) := NodeOf(nonce, t)]
  }

  /** The position a digest commits to. */
  ghost function Position(d: Digest): (p: Bits)
  {
    match d
    case EmptyHash(_, prefix) => prefix
    case LeafHash(_, prefix, _, _) => prefix
    case InteriorHash(left, _) =>
      var q := Position(left);
      if q == [] then [] else q[..|q| - 1]
  }

  lemma {:induction false} PositionOf(cfg: Config, t: Tree, p: Bits)
    requires Valid(cfg, t, p)
    ensures Position(Hash(cfg.nonce, t)) == p
    decreases t
  {
    if t.Interior? {
      PositionOf(cfg, t.left, p + [true]);
      assert (p + [true])[..|p|] == p;
    }
  }

  lemma {:induction false} PositionsUnder(cfg: Config, t: Tree, p: Bits)
    requires Valid(cfg, t, p)
    ensures forall d :: d in Nodes(cfg.nonce, t) ==> p <= Position(d)
    ensures forall d :: d in Below(cfg.nonce, t) ==> p < Position(d)
    decreases t
  {
    PositionOf(cfg, t, p);
    if t.Interior? {
      PositionsUnder(cfg, t.left, p + [true]);
      PositionsUnder(cfg, t.right, p + [false]);
    }
  }

  /** `rest` has nothing at or under position `p`. */
  ghost predicate Outside(rest: Bucket, p: Bits) {
    forall d :: d in rest ==> !(p <= Position(d))
  }

  /** Seen from one child of an interior node, the other child and the node itself
      are outside. */
  lemma OutsideChild(cfg: Config, rest: Bucket, t: Tree, p: Bits, side: bool)
    requires t.Interior? && Valid(cfg, t, p) && Outside(rest, p)
    ensures
      var other := if side then t.right else t.left;
      var child := if side then t.left else t.right;
      var outside := (rest + Nodes(cfg.nonce, other))[Hash(cfg.nonce, t) := NodeOf(cfg.nonce, t)];
      && Outside(outside, p + [side])
      && rest + Nodes(cfg.nonce, t) == outside + Nodes(cfg.nonce, child)
  {
    var other := if side then t.right else t.left;
    var child := if side then t.left else t.right;
    PositionsUnder(cfg, other, p + [!side]);
    PositionsUnder(cfg, child, p + [side]);
    PositionsUnder(cfg, t, p);
    PositionOf(cfg, t, p);
    assert (p + [side])[|p|] == side && (p + [!side])[|p|] != side;
    assert p <= p + [side];
    NodesApart(cfg, other, child, p + [!side], p + [side]);
    Regroup(rest, Nodes(cfg.nonce, other), Nodes(cfg.nonce, child), Hash(cfg.nonce, t), NodeOf(cfg.nonce, t));
    Regroup(rest, Nodes(cfg.nonce, child), Nodes(cfg.nonce, other), Hash(cfg.nonce, t), NodeOf(cfg.nonce, t));
  }

  /** Trees at incomparable positions share no node. */
  lemma NodesApart(cfg: Config, t1: Tree, t2: Tree, p1: Bits, p2: Bits)
    requires Valid(cfg, t1, p1) && Valid(cfg, t2, p2) && |p1| == |p2| && p1 != p2
    ensures Nodes(cfg.nonce, t1).Keys !! Nodes(cfg.nonce, t2).Keys
  {
    PositionsUnder(cfg, t1, p1);
    PositionsUnder(cfg, t2, p2);
  }

  lemma Regroup<K, V>(rest: map<K, V>, a: map<K, V>, b: map<K, V>, k: K, v: V)
    requires a.Keys !! b.Keys && k !in b
    ensures rest + (a + b)[k := v] == (rest + a)[k := v] + b
    ensures a + b == b + a
  {
  }

  lemma Disjoin<K, V>(rest: map<K, V>, a: map<K, V>, b: map<K, V>, gone: K, goneV: V, k: K, v: V)
    requires a.Keys !! b.Keys && gone !in rest && gone !in a && gone !in b
    ensures ((rest + a)[gone := goneV] + b) - {gone} == rest + (a + b)
    ensures (rest + (a + b))[k := v] == rest + (a + b)[k := v]
    ensures a + b == b + a
  {
  }

  /** After the child has been rewritten, replacing the interior node gives the nodes
      of the whole rewritten tree. */
  lemma ReplaceInterior(cfg: Config, rest: Bucket, t: Tree, t': Tree, p: Bits, side: bool)
    requires t.Interior? && t'.Interior? && Valid(cfg, t, p) && Valid(cfg, t', p) && Outside(rest, p)
    requires if side then t'.right == t.right else t'.left == t.left
    ensures
      var other := if side then t.right else t.left;
      var child' := if side then t'.left else t'.right;
      var outside := (rest + Nodes(cfg.nonce, other))[Hash(cfg.nonce, t) := NodeOf(cfg.nonce, t)];
      ((outside + Nodes(cfg.nonce, child')) - {Hash(cfg.nonce, t)})[Hash(cfg.nonce, t') := NodeOf(cfg.nonce, t')]
      == rest + Nodes(cfg.nonce, t')
  {
    var other := if side then t.right else t.left;
    var child' := if side then t'.left else t'.right;
    var h := Hash(cfg.nonce, t);
    PositionOf(cfg, t, p);
    PositionsUnder(cfg, other, p + [!side]);
    PositionsUnder(cfg, child', p + [side]);
    assert (p + [side])[|p|] != (p + [!side])[|p|];
    NodesApart(cfg, other, child', p + [!side], p + [side]);
    assert h !in rest && h !in Nodes(cfg.nonce, other) && h !in Nodes(cfg.nonce, child');
    Disjoin(rest, Nodes(cfg.nonce, other), Nodes(cfg.nonce, child'), h, NodeOf(cfg.nonce, t),
            Hash(cfg.nonce, t'), NodeOf(cfg.nonce, t'));
  }

  /** Replacing an edge node by the root of a tree at the same position. */
  lemma ReplaceEdge(cfg: Config, rest: Bucket, t: Tree, t': Tree, p: Bits)
    requires !t.Interior? && Valid(cfg, t, p) && Valid(cfg, t', p) && Outside(rest, p)
    ensures rest + Nodes(cfg.nonce, t) == rest[Hash(cfg.nonce, t) := NodeOf(cfg.nonce, t)]
    ensures (rest[Hash(cfg.nonce, t) := NodeOf(cfg.nonce, t)] - {Hash(cfg.nonce, t)}) == rest
    ensures !t'.Interior? ==> rest[Hash(cfg.nonce, t') := NodeOf(cfg.nonce, t')] == rest + Nodes(cfg.nonce, t')
    ensures t'.Interior? ==>
      (rest[Hash(cfg.nonce, t) := NodeOf(cfg.nonce, t)] + Below(cfg.nonce, t'))
        [Hash(cfg.nonce, t') := NodeOf(cfg.nonce, t')] - {Hash(cfg.nonce, t)}
      == rest + Nodes(cfg.nonce, t')
  {
    var h := Hash(cfg.nonce, t);
    PositionOf(cfg, t, p);
    PositionsUnder(cfg, t', p);
    assert h !in rest;
    if t'.Interior? {
      var below := Below(cfg.nonce, t');
      assert h !in below && h != Hash(cfg.nonce, t');
      AddThenDrop(rest, below, h, NodeOf(cfg.nonce, t), Hash(cfg.nonce, t'), NodeOf(cfg.nonce, t'));
    }
  }

  lemma AddThenDrop<K, V>(rest: map<K, V>, below: map<K, V>, gone: K, goneV: V, k: K, v: V)
    requires gone !in rest && gone !in below && gone != k
    ensures (rest[gone := goneV] + below)[k := v] - {gone} == rest + below[k := v]
  {
  }

  /** What extendLeaf stores where the keys part ... */
  lemma ExtendBase(cfg: Config, base: Bucket, prefix: Bits, k1: InstanceID, v1: Body, k2: InstanceID, v2: Body)
    requires Collisionless(cfg) && k1 != k2 && |prefix| < KEY_BITS
    requires prefix <= cfg.bits(k1) && prefix <= cfg.bits(k2)
    requires cfg.bits(k1)[|prefix|] != cfg.bits(k2)[|prefix|]
    ensures
      var b1 := cfg.bits(k1)[|prefix|];
      var leaf1, leaf2 := Leaf(prefix + [b1], k1, v1), Leaf(prefix + [!b1], k2, v2);
      base[Hash(cfg.nonce, leaf1) := NodeOf(cfg.nonce, leaf1)][Hash(cfg.nonce, leaf2) := NodeOf(cfg.nonce, leaf2)]
      == base + Below(cfg.nonce, Extend(cfg, prefix, k1, v1, k2, v2))
  {
    var b1 := cfg.bits(k1)[|prefix|];
    var leaf1, leaf2 := Leaf(prefix + [b1], k1, v1), Leaf(prefix + [!b1], k2, v2);
    assert Nodes(cfg.nonce, leaf1) == map[Hash(cfg.nonce, leaf1) := NodeOf(cfg.nonce, leaf1)];
    assert Nodes(cfg.nonce, leaf2) == map[Hash(cfg.nonce, leaf2) := NodeOf(cfg.nonce, leaf2)];
    AddTwo(base, Hash(cfg.nonce, leaf1), NodeOf(cfg.nonce, leaf1), Hash(cfg.nonce, leaf2), NodeOf(cfg.nonce, leaf2));
  }

  /** ... and one bit above that. */
  lemma ExtendStep(cfg: Config, base: Bucket, prefix: Bits, k1: InstanceID, v1: Body, k2: InstanceID, v2: Body)
    requires Collisionless(cfg) && k1 != k2 && |prefix| < KEY_BITS
    requires prefix <= cfg.bits(k1) && prefix <= cfg.bits(k2)
    requires cfg.bits(k1)[|prefix|] == cfg.bits(k2)[|prefix|]
    requires var b1 := cfg.bits(k1)[|prefix|];
      prefix + [b1] <= cfg.bits(k1) && prefix + [b1] <= cfg.bits(k2)
    ensures
      var b1 := cfg.bits(k1)[|prefix|];
      var sub, e := Extend(cfg, prefix + [b1], k1, v1, k2, v2), Empty(prefix + [!b1]);
      (base + Below(cfg.nonce, sub))[Hash(cfg.nonce, sub) := NodeOf(cfg.nonce, sub)]
          [Hash(cfg.nonce, e) := NodeOf(cfg.nonce, e)]
      == base + Below(cfg.nonce, Extend(cfg, prefix, k1, v1, k2, v2))
  {
    var b1 := cfg.bits(k1)[|prefix|];
    var sub, e := Extend(cfg, prefix + [b1], k1, v1, k2, v2), Empty(prefix + [!b1]);
    ExtendCorrect(cfg, prefix + [b1], k1, v1, k2, v2);
    assert (prefix + [b1])[|prefix|] != (prefix + [!b1])[|prefix|];
    NodesApart(cfg, sub, e, prefix + [b1], prefix + [!b1]);
    assert Nodes(cfg.nonce, e) == map[Hash(cfg.nonce, e) := NodeOf(cfg.nonce, e)];
    assert Hash(cfg.nonce, e) in Nodes(cfg.nonce, e).Keys;
    assert Hash(cfg.nonce, e) !in Nodes(cfg.nonce, sub);
    AddBelow(base, Below(cfg.nonce, sub), Hash(cfg.nonce, sub), NodeOf(cfg.nonce, sub),
             Hash(cfg.nonce, e), NodeOf(cfg.nonce, e));
  }

  lemma AddTwo<K, V>(base: map<K, V>, k1: K, v1: V, k2: K, v2: V)
    requires k1 != k2
    ensures base[k1 := v1][k2 := v2] == base + (map[k1 := v1] + map[k2 := v2])
    ensures map[k1 := v1] + map[k2 := v2] == map[k2 := v2] + map[k1 := v1]
  {
  }

  lemma AddBelow<K, V>(base: map<K, V>, below: map<K, V>, k: K, v: V, e: K, ev: V)
    requires e !in below && e != k
    ensures (base + below)[k := v][e := ev] == base + (below[k := v] + map[e := ev])
    ensures below[k := v] + map[e := ev] == map[e := ev] + below[k := v]
  {
  }

  class Trie {
    const cfg: Config
    var bucket: Bucket
    var root: Digest
    ghost var tree: Tree

    ghost predicate Ok()
      reads this
    {
      && Collisionless(cfg) && ValidTrie(cfg, tree)
      && root == Hash(cfg.nonce, tree)
      && bucket == Nodes(cfg.nonce, tree)
    }

    constructor (cfg: Config)
      requires Collisionless(cfg)
      ensures Ok() && this.cfg == cfg && tree == NewTrie()
    {
      var left, right := EmptyHash(cfg.nonce, [true]), EmptyHash(cfg.nonce, [false]);
      this.cfg := cfg;
      bucket := map[left := EmptyNode([true]), right := EmptyNode([false]),
                    InteriorHash(left, right) := InteriorNode(left, right)];
      root := InteriorHash(left, right);
      tree := NewTrie();
      new;
      var t := NewTrie();
      assert Nodes(cfg.nonce, t.left) == map[left := EmptyNode([true])];
      assert Nodes(cfg.nonce, t.right) == map[right := EmptyNode([false])];
    }

    /** The copy that a dry run works on. */
    constructor Copy(from: Trie)
      requires from.Ok()
      ensures Ok() && cfg == from.cfg && tree == from.tree
    {
      cfg := from.cfg;
      bucket, root, tree := from.bucket, from.root, from.tree;
    }

    method Set(key: InstanceID, value: Body)
      requires Ok()
      modifies this
      ensures Ok() && tree == SetKey(cfg, old(tree), key, value)
    {
      var bits := cfg.bits(key);
      assert bits[..0] == [];
      assert bucket == map[] + Nodes(cfg.nonce, tree);
      root := SetNode(root, key, value, 0, tree, map[]);
      tree := SetKey(cfg, tree, key, value);
      assert map[] + Nodes(cfg.nonce, tree) == Nodes(cfg.nonce, tree);
    }

    /** Deleting an absent key leaves the bucket and the root as they are. */
    method Delete(key: InstanceID)
      requires Ok()
      modifies this
      ensures Ok() && tree == DelKey(cfg, old(tree), key)
    {
      var bits := cfg.bits(key);
      assert bits[..0] == [];
      assert bucket == map[] + Nodes(cfg.nonce, tree);
      var newRoot := DelNode(root, key, 0, tree, map[]);
      if newRoot.Some? {
        root := newRoot.value;
      }
      tree := DelKey(cfg, tree, key);
      assert map[] + Nodes(cfg.nonce, tree) == Nodes(cfg.nonce, tree);
    }

    method Get(key: InstanceID) returns (v: Option<Body>)
      requires Ok()
      ensures v == GetKey(cfg, tree, key)
    {
      var bits := cfg.bits(key);
      assert bits[..0] == [];
      v := GetNode(root, key, 0, tree, map[]);
    }

    /** The instruction loop that Commit, GetRoot and BatchWithBucket share. */
    method Replay(ws: seq<Write>)
      requires Ok()
      modifies this
      ensures Ok() && tree == WriteAll(cfg, old(tree), ws)
    {
      var i := 0;
      while i < |ws|
        invariant 0 <= i <= |ws| && Ok()
        invariant tree == WriteAll(cfg, old(tree), ws[..i])
      {
        assert ws[..i + 1][..i] == ws[..i];
        match ws[i] {
          case Put(key, value) => Set(key, value);
          case Drop(key) => Delete(key);
        }
        i := i + 1;
      }
      assert ws[..i] == ws;
    }

    /** set, at the node stored under `nodeKey`, which is the root of `t`. */
    method SetNode(nodeKey: Digest, key: InstanceID, value: Body, depth: nat, ghost t: Tree, ghost rest: Bucket)
        returns (newKey: Digest)
      requires Collisionless(cfg) && depth <= KEY_BITS && Valid(cfg, t, cfg.bits(key)[..depth])
      requires Outside(rest, cfg.bits(key)[..depth])
      requires nodeKey == Hash(cfg.nonce, t) && bucket == rest + Nodes(cfg.nonce, t)
      modifies this`bucket
      ensures newKey == Hash(cfg.nonce, Merkle.Set(cfg, t, key, value, depth))
      ensures bucket == rest + Nodes(cfg.nonce, Merkle.Set(cfg, t, key, value, depth))
      decreases t
    {
      ghost var p := cfg.bits(key)[..depth];
      ghost var t' := Merkle.Set(cfg, t, key, value, depth);
      SetCorrect(cfg, t, key, value, depth);
      match bucket[nodeKey]
      case EmptyNode(prefix) =>
        ReplaceEdge(cfg, rest, t, t', p);
        newKey := LeafHash(cfg.nonce, prefix, key, value);
        bucket := bucket - {nodeKey};
        bucket := bucket[newKey := LeafNode(prefix, key, value)];
      case LeafNode(prefix, k, v) =>
        ReplaceEdge(cfg, rest, t, t', p);
        if k == key {
          newKey := LeafHash(cfg.nonce, prefix, key, value);
          bucket := bucket - {nodeKey};
          bucket := bucket[newKey := LeafNode(prefix, key, value)];
        } else {
          ExtendCorrect(cfg, prefix, k, v, key, value);
          var left, right := ExtendLeaf(prefix, k, v, key, value);
          newKey := InteriorHash(left, right);
          bucket := bucket[newKey := InteriorNode(left, right)];
          bucket := bucket - {nodeKey};
        }
      case InteriorNode(left, right) =>
        var side := cfg.bits(key)[depth];
        BitStep(cfg.bits(key), depth);
        OutsideChild(cfg, rest, t, p, side);
        ReplaceInterior(cfg, rest, t, t', p, side);
        if side {
          ghost var outside := (rest + Nodes(cfg.nonce, t.right))[nodeKey := NodeOf(cfg.nonce, t)];
          var child := SetNode(left, key, value, depth + 1, t.left, outside);
          bucket := bucket - {nodeKey};
          newKey := InteriorHash(child, right);
          bucket := bucket[newKey := InteriorNode(child, right)];
        } else {
          ghost var outside := (rest + Nodes(cfg.nonce, t.left))[nodeKey := NodeOf(cfg.nonce, t)];
          var child := SetNode(right, key, value, depth + 1, t.right, outside);
          bucket := bucket - {nodeKey};
          newKey := InteriorHash(left, child);
          bucket := bucket[newKey := InteriorNode(left, child)];
        }
    }

    /** extendLeaf: stores everything below the new interior node and returns the
        digests of its two children. */
    method ExtendLeaf(prefix: Bits, k1: InstanceID, v1: Body, k2: InstanceID, v2: Body)
        returns (left: Digest, right: Digest)
      requires Collisionless(cfg) && k1 != k2
      requires prefix <= cfg.bits(k1) && prefix <= cfg.bits(k2)
      modifies this`bucket
      ensures
        var t := Extend(cfg, prefix, k1, v1, k2, v2);
        && t.Interior?
        && left == Hash(cfg.nonce, t.left) && right == Hash(cfg.nonce, t.right)
        && bucket == old(bucket) + Below(cfg.nonce, t)
      decreases KEY_BITS - |prefix|
    {
      PrefixesDiverge(cfg, prefix, k1, k2);
      var b1, b2 := cfg.bits(k1)[|prefix|], cfg.bits(k2)[|prefix|];
      if b1 != b2 {
        ExtendBase(cfg, bucket, prefix, k1, v1, k2, v2);
        var leaf1, leaf2 := LeafHash(cfg.nonce, prefix + [b1], k1, v1), LeafHash(cfg.nonce, prefix + [b2], k2, v2);
        bucket := bucket[leaf1 := LeafNode(prefix + [b1], k1, v1)];
        bucket := bucket[leaf2 := LeafNode(prefix + [b2], k2, v2)];
        left, right := if b1 then leaf1 else leaf2, if b1 then leaf2 else leaf1;
      } else {
        ExtendStep(cfg, bucket, prefix, k1, v1, k2, v2);
        var l, r := ExtendLeaf(prefix + [b1], k1, v1, k2, v2);
        var interior, empty := InteriorHash(l, r), EmptyHash(cfg.nonce, prefix + [!b1]);
        bucket := bucket[interior := InteriorNode(l, r)];
        bucket := bucket[empty := EmptyNode(prefix + [!b1])];
        left, right := if b1 then interior else empty, if b1 then empty else interior;
      }
    }

    method DelNode(nodeKey: Digest, key: InstanceID, depth: nat, ghost t: Tree, ghost rest: Bucket)
        returns (newKey: Option<Digest>)
      requires Collisionless(cfg) && depth <= KEY_BITS && Valid(cfg, t, cfg.bits(key)[..depth])
      requires Outside(rest, cfg.bits(key)[..depth])
      requires nodeKey == Hash(cfg.nonce, t) && bucket == rest + Nodes(cfg.nonce, t)
      modifies this`bucket
      ensures
        match Del(cfg, t, key, depth)
        case None => newKey == None && bucket == old(bucket)
        case Some(t') => newKey == Some(Hash(cfg.nonce, t')) && bucket == rest + Nodes(cfg.nonce, t')
      decreases t
    {
      ghost var p := cfg.bits(key)[..depth];
      ghost var t' := Del(cfg, t, key, depth);
      DelCorrect(cfg, t, key, depth);
      match bucket[nodeKey]
      case EmptyNode(_) =>
        newKey := None;
      case LeafNode(prefix, k, _) =>
        if k != key {
          newKey := None;
        } else {
          ReplaceEdge(cfg, rest, t, t'.value, p);
          bucket := bucket - {nodeKey};
          var empty := EmptyHash(cfg.nonce, prefix);
          bucket := bucket[empty := EmptyNode(prefix)];
          newKey := Some(empty);
        }
      case InteriorNode(left, right) =>
        var side := cfg.bits(key)[depth];
        BitStep(cfg.bits(key), depth);
        OutsideChild(cfg, rest, t, p, side);
        var child;
        if side {
          ghost var outside := (rest + Nodes(cfg.nonce, t.right))[nodeKey := NodeOf(cfg.nonce, t)];
          child := DelNode(left, key, depth + 1, t.left, outside);
        } else {
          ghost var outside := (rest + Nodes(cfg.nonce, t.left))[nodeKey := NodeOf(cfg.nonce, t)];
          child := DelNode(right, key, depth + 1, t.right, outside);
        }
        if child == None {
          newKey := None;
        } else {
          ReplaceInterior(cfg, rest, t, t'.value, p, side);
          bucket := bucket - {nodeKey};
          var l, r := if side then child.value else left, if side then right else child.value;
          bucket := bucket[InteriorHash(l, r) := InteriorNode(l, r)];
          newKey := Some(InteriorHash(l, r));
        }
    }

    method GetNode(nodeKey: Digest, key: InstanceID, depth: nat, ghost t: Tree, ghost rest: Bucket)
        returns (v: Option<Body>)
      requires Collisionless(cfg) && depth <= KEY_BITS && Valid(cfg, t, cfg.bits(key)[..depth])
      requires Outside(rest, cfg.bits(key)[..depth])
      requires nodeKey == Hash(cfg.nonce, t) && bucket == rest + Nodes(cfg.nonce, t)
      ensures v == Merkle.Get(cfg, t, key, depth)
      decreases t
    {
      match bucket[nodeKey]
      case EmptyNode(_) =>
        v := None;
      case LeafNode(_, k, value) =>
        v := if k == key then Some(value) else None;
      case InteriorNode(left, right) =>
        ghost var p := cfg.bits(key)[..depth];
        var side := cfg.bits(key)[depth];
        BitStep(cfg.bits(key), depth);
        OutsideChild(cfg, rest, t, p, side);
        if side {
          v := GetNode(left, key, depth + 1, t.left,
                       (rest + Nodes(cfg.nonce, t.right))[nodeKey := NodeOf(cfg.nonce, t)]);
        } else {
          v := GetNode(right, key, depth + 1, t.right,
                       (rest + Nodes(cfg.nonce, t.left))[nodeKey := NodeOf(cfg.nonce, t)]);
        }
    }
  }
}
