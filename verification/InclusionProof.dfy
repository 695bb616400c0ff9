/** Inclusion and absence proofs of the trie: whoever holds only a root can rely on
    what `Exists` answers, for any proof whatsoever. */
module InclusionProof {
  import opened Types
  import opened Merkle

  /** Proof: the interior nodes on the path and the edge node it ends in. The Go
      value has both edge fields and leaves one zero; here that one is `None`. */
  datatype Proof = Proof(
    nonce: Bytes,
    interiors: seq<(Digest, Digest)>,
    leaf: Option<(Bits, InstanceID, Body)>,
    empty: Option<Bits>)

  datatype Answer = Present | Absent | Malformed

  function GetRoot(p: Proof): (d: Option<Digest>)
  {
    if p.interiors == [] then None else Some(InteriorHash(p.interiors[0].0, p.interiors[0].1))
  }

  /** getProof below `t`, whose position is the first `depth` bits of the key. */
  function GetProof(cfg: Config, t: Tree, key: InstanceID, depth: nat): (p: Proof)
    requires Collisionless(cfg) && depth <= KEY_BITS && Valid(cfg, t, cfg.bits(key)[..depth])
    decreases t
  {
    match t
    case Empty(prefix) => Proof(cfg.nonce, [], None, Some(prefix))
    case Leaf(prefix, k, v) => Proof(cfg.nonce, [], Some((prefix, k, v)), None)
    case Interior(left, right) =>
      BitStep(cfg.bits(key), depth);
      var below := if cfg.bits(key)[depth] then GetProof(cfg, left, key, depth + 1)
                   else GetProof(cfg, right, key, depth + 1);
      below.(interiors := [(Hash(cfg.nonce, left), Hash(cfg.nonce, right))] + below.interiors)
  }

  /** The digest reached from `expected` by the interior nodes from `i` on, if each
      of them has the digest that the one before points to. */
  function Follow(bits: Bits, interiors: seq<(Digest, Digest)>, i: nat, expected: Digest): (d: Option<Digest>)
    requires i <= |interiors| <= |bits|
    decreases |interiors| - i
  {
    if i == |interiors| then Some(expected)
    else if expected != InteriorHash(interiors[i].0, interiors[i].1) then None
    else Follow(bits, interiors, i + 1, if bits[i] then interiors[i].0 else interiors[i].1)
  }

  function Edge(bits: Bits, p: Proof, key: InstanceID, expected: Digest): (a: Answer)
    requires |p.interiors| <= |bits|
  {
    var position := bits[..|p.interiors|];
    if p.leaf.Some? && expected == LeafHash(p.nonce, p.leaf.value.0, p.leaf.value.1, p.leaf.value.2) then
      if position != p.leaf.value.0 then Malformed
      else if p.leaf.value.1 == key then Present else Absent
    else if p.empty.Some? && expected == EmptyHash(p.nonce, p.empty.value) then
      if position != p.empty.value then Malformed else Absent
    else Malformed
  }

  function Verdict(bits: Bits, p: Proof, key: InstanceID): (a: Answer)
  {
    if p.interiors == [] || |p.interiors| > |bits| then Malformed
    else match Follow(bits, p.interiors, 0, InteriorHash(p.interiors[0].0, p.interiors[0].1))
      case None => Malformed
      case Some(d) => Edge(bits, p, key, d)
  }

  /** Exists. A proof with more interior nodes than the key has bits makes the Go
      code index out of range; it counts as malformed. */
  method Exists(cfg: Config, p: Proof, key: InstanceID) returns (a: Answer)
    ensures a == Verdict(cfg.bits(key), p, key)
  {
    var bits := cfg.bits(key);
    if p.interiors == [] || |p.interiors| > |bits| {
      return Malformed;
    }
    var first := InteriorHash(p.interiors[0].0, p.interiors[0].1);
    var expected := first;
    for i := 0 to |p.interiors|
      invariant Follow(bits, p.interiors, 0, first) == Follow(bits, p.interiors, i, expected)
    {
      if expected != InteriorHash(p.interiors[i].0, p.interiors[i].1) {
        return Malformed;
      }
      expected := if bits[i] then p.interiors[i].0 else p.interiors[i].1;
    }
    a := Edge(bits, p, key, expected);
  }

  /** A chain that starts at the digest of `t` ends at the digest of the subtree that
      decides whether `t` holds the key. */
  lemma {:induction false} FollowsTree(cfg: Config, t: Tree, key: InstanceID, interiors: seq<(Digest, Digest)>, i: nat)
      returns (s: Tree)
    requires Collisionless(cfg) && i <= |interiors| <= KEY_BITS && Valid(cfg, t, cfg.bits(key)[..i])
    requires Follow(cfg.bits(key), interiors, i, Hash(cfg.nonce, t)).Some?
    ensures Follow(cfg.bits(key), interiors, i, Hash(cfg.nonce, t)).value == Hash(cfg.nonce, s)
    ensures Valid(cfg, s, cfg.bits(key)[..|interiors|])
    ensures key in Contents(t) <==> key in Contents(s)
    ensures key in Contents(s) ==> Contents(t)[key] == Contents(s)[key]
    decreases |interiors| - i
  {
    if i == |interiors| {
      s := t;
    } else {
      var bits := cfg.bits(key);
      BitStep(bits, i);
      assert t.Interior?;
      if bits[i] {
        OtherSide(cfg, t.right, bits[..i], false, key);
        s := FollowsTree(cfg, t.left, key, interiors, i + 1);
      } else {
        OtherSide(cfg, t.left, bits[..i], true, key);
        s := FollowsTree(cfg, t.right, key, interiors, i + 1);
      }
    }
  }

  /** Soundness: under the root of a trie no proof shows a pair the trie does not
      hold, and none hides a key it does hold. */
  lemma Sound(cfg: Config, t: Tree, p: Proof, key: InstanceID)
    requires Collisionless(cfg) && ValidTrie(cfg, t) && GetRoot(p) == Some(Hash(cfg.nonce, t))
    ensures Verdict(cfg.bits(key), p, key) == Present ==>
      key in Contents(t) && p.leaf.Some? && Contents(t)[key] == p.leaf.value.2
    ensures Verdict(cfg.bits(key), p, key) == Absent ==> key !in Contents(t)
  {
    var bits := cfg.bits(key);
    assert bits[..0] == [];
    if |p.interiors| <= |bits| && Follow(bits, p.interiors, 0, Hash(cfg.nonce, t)).Some? {
      var s := FollowsTree(cfg, t, key, p.interiors, 0);
    }
  }

  /** From position `depth` and digest `d` on, the interior nodes lead to an edge node that
      gives this answer. */
  ghost predicate Shows(bits: Bits, p: Proof, key: InstanceID, depth: nat, d: Digest, a: Answer) {
    && depth <= |p.interiors| <= |bits|
    && Follow(bits, p.interiors, depth, d).Some?
    && Edge(bits, p, key, Follow(bits, p.interiors, depth, d).value) == a
  }

  /** The proof for a key, put under the interior nodes above it, answers for its subtree. */
  lemma {:induction false} ProofFollows(cfg: Config, t: Tree, key: InstanceID, depth: nat, above: seq<(Digest, Digest)>)
    requires Collisionless(cfg) && depth == |above| <= KEY_BITS && Valid(cfg, t, cfg.bits(key)[..depth])
    ensures
      var p := GetProof(cfg, t, key, depth);
      Shows(cfg.bits(key), p.(interiors := above + p.interiors), key, depth, Hash(cfg.nonce, t),
            if key in Contents(t) then Present else Absent)
    decreases t
  {
    var bits := cfg.bits(key);
    if t.Interior? {
      BitStep(bits, depth);
      var node := (Hash(cfg.nonce, t.left), Hash(cfg.nonce, t.right));
      var child := if bits[depth] then t.left else t.right;
      ProofFollows(cfg, child, key, depth + 1, above + [node]);
      OtherSide(cfg, if bits[depth] then t.right else t.left, bits[..depth], !bits[depth], key);
      var p, below := GetProof(cfg, t, key, depth), GetProof(cfg, child, key, depth + 1);
      assert (above + [node]) + below.interiors == above + p.interiors;
    } else {
      assert above + [] == above;
    }
  }

  /** Completeness: the proof a trie makes has the trie's root and the right answer. */
  lemma Complete(cfg: Config, t: Tree, key: InstanceID)
    requires Collisionless(cfg) && ValidTrie(cfg, t)
    requires Valid(cfg, t, cfg.bits(key)[..0])
    ensures GetRoot(GetProof(cfg, t, key, 0)) == Some(Hash(cfg.nonce, t))
    ensures Verdict(cfg.bits(key), GetProof(cfg, t, key, 0), key) == if key in Contents(t) then Present else Absent
  {
    ProofFollows(cfg, t, key, 0, []);
    var p := GetProof(cfg, t, key, 0);
    assert [] + p.interiors == p.interiors;
  }
}
