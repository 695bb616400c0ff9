/** The Merkle prefix tree of the global state, as a value.

    A key is placed by the bits of its hash, most significant first: bit `true`
    goes left. Deleting a key leaves an empty node where its leaf was and never
    shrinks the tree, so the root depends on the history and not only on the
    stored pairs; `SameContentsDifferentRoot` and `RootIsCanonicalExactly` say
    when it does not. Digests are symbolic: a node hash is the constructor applied
    to what is hashed. */
module Merkle {
  import opened Types

  type Bits = seq<bool>

  const KEY_BITS := 256

  /** `bits` is the key hash, `nonce` the per-trie nonce mixed in every edge node. */
  datatype Config = Config(bits: InstanceID -> Bits, nonce: Bytes)

  /** The key hash has a fixed length and does not collide. */
  ghost predicate Collisionless(cfg: Config) {
    && (forall k: InstanceID :: |cfg.bits(k)| == KEY_BITS)
    && (forall k1: InstanceID, k2: InstanceID :: cfg.bits(k1) == cfg.bits(k2) ==> k1 == k2)
  }

  datatype Digest =
    | EmptyHash(nonce: Bytes, prefix: Bits)
    | LeafHash(nonce: Bytes, prefix: Bits, key: InstanceID, value: Body)
    | InteriorHash(left: Digest, right: Digest)

  datatype Tree =
    | Empty(prefix: Bits)
    | Leaf(prefix: Bits, key: InstanceID, value: Body)
    | Interior(left: Tree, right: Tree)

  function Hash(nonce: Bytes, t: Tree): (d: Digest)
  {
    match t
    case Empty(prefix) => EmptyHash(nonce, prefix)
    case Leaf(prefix, key, value) => LeafHash(nonce, prefix, key, value)
    case Interior(left, right) => InteriorHash(Hash(nonce, left), Hash(nonce, right))
  }

  /** The subtree `t` hangs at position `p`: edge nodes carry their position and
      every key below starts with it. */
  ghost predicate Valid(cfg: Config, t: Tree, p: Bits)
    decreases t
  {
    match t
    case Empty(prefix) => prefix == p
    case Leaf(prefix, key, _) => prefix == p && p <= cfg.bits(key)
    case Interior(left, right) =>
      |p| < KEY_BITS && Valid(cfg, left, p + [true]) && Valid(cfg, right, p + [false])
  }

  /** A whole trie: newRootNode makes the root an interior node and it stays one. */
  ghost predicate ValidTrie(cfg: Config, t: Tree) {
    t.Interior? && Valid(cfg, t, [])
  }

  function NewTrie(): (t: Tree)
  {
    Interior(Empty([true]), Empty([false]))
  }

  ghost function Contents(t: Tree): (m: map<InstanceID, Body>)
  {
    match t
    case Empty(_) => map[]
    case Leaf(_, key, value) => map[key := value]
    case Interior(left, right) => Contents(left) + Contents(right)
  }

  // ---------------------------------------------------------------- operations

  function Get(cfg: Config, t: Tree, key: InstanceID, depth: nat): (v: Option<Body>)
    requires Collisionless(cfg) && depth <= KEY_BITS && Valid(cfg, t, cfg.bits(key)[..depth])
    decreases t
  {
    match t
    case Empty(_) => None
    case Leaf(_, k, value) => if k == key then Some(value) else None
    case Interior(left, right) =>
      BitStep(cfg.bits(key), depth);
      if cfg.bits(key)[depth] then Get(cfg, left, key, depth + 1) else Get(cfg, right, key, depth + 1)
  }

  /** extendLeaf: the smallest subtree at `prefix` that separates two keys. */
  function Extend(cfg: Config, prefix: Bits, k1: InstanceID, v1: Body, k2: InstanceID, v2: Body): (t: Tree)
    requires Collisionless(cfg) && k1 != k2
    requires prefix <= cfg.bits(k1) && prefix <= cfg.bits(k2)
    decreases KEY_BITS - |prefix|
  {
    PrefixesDiverge(cfg, prefix, k1, k2);
    var b1, b2 := cfg.bits(k1)[|prefix|], cfg.bits(k2)[|prefix|];
    if b1 != b2 then
      var leaf1, leaf2 := Leaf(prefix + [b1], k1, v1), Leaf(prefix + [b2], k2, v2);
      if b1 then Interior(leaf1, leaf2) else Interior(leaf2, leaf1)
    else
      var sub, empty := Extend(cfg, prefix + [b1], k1, v1, k2, v2), Empty(prefix + [!b1]);
      if b1 then Interior(sub, empty) else Interior(empty, sub)
  }

  function Set(cfg: Config, t: Tree, key: InstanceID, value: Body, depth: nat): (t': Tree)
    requires Collisionless(cfg) && depth <= KEY_BITS && Valid(cfg, t, cfg.bits(key)[..depth])
    decreases t
  {
    match t
    case Empty(prefix) => Leaf(prefix, key, value)
    case Leaf(prefix, k, v) =>
      if k == key then Leaf(prefix, key, value) else Extend(cfg, prefix, k, v, key, value)
    case Interior(left, right) =>
      BitStep(cfg.bits(key), depth);
      if cfg.bits(key)[depth] then Interior(Set(cfg, left, key, value, depth + 1), right)
      else Interior(left, Set(cfg, right, key, value, depth + 1))
  }

  /** `None` is the nil root of del: the key is absent and nothing is rewritten. */
  function Del(cfg: Config, t: Tree, key: InstanceID, depth: nat): (t': Option<Tree>)
    requires Collisionless(cfg) && depth <= KEY_BITS && Valid(cfg, t, cfg.bits(key)[..depth])
    decreases t
  {
    match t
    case Empty(_) => None
    case Leaf(prefix, k, _) => if k == key then Some(Empty(prefix)) else None
    case Interior(left, right) =>
      BitStep(cfg.bits(key), depth);
      if cfg.bits(key)[depth] then
        match Del(cfg, left, key, depth + 1)
        case None => None
        case Some(l) => Some(Interior(l, right))
      else
        match Del(cfg, right, key, depth + 1)
        case None => None
        case Some(r) => Some(Interior(left, r))
  }

  function SetKey(cfg: Config, t: Tree, key: InstanceID, value: Body): (t': Tree)
    requires Collisionless(cfg) && ValidTrie(cfg, t)
    ensures ValidTrie(cfg, t') && Contents(t') == Contents(t)[key := value]
  {
    SetCorrect(cfg, t, key, value, 0);
    Set(cfg, t, key, value, 0)
  }

  function DelKey(cfg: Config, t: Tree, key: InstanceID): (t': Tree)
    requires Collisionless(cfg) && ValidTrie(cfg, t)
    ensures ValidTrie(cfg, t') && Contents(t') == Contents(t) - {key}
  {
    DelCorrect(cfg, t, key, 0);
    match Del(cfg, t, key, 0)
    case None => t
    case Some(t') => t'
  }

  function GetKey(cfg: Config, t: Tree, key: InstanceID): (v: Option<Body>)
    requires Collisionless(cfg) && ValidTrie(cfg, t)
    ensures v == if key in Contents(t) then Some(Contents(t)[key]) else None
  {
    GetCorrect(cfg, t, key, 0);
    Get(cfg, t, key, 0)
  }

  // ------------------------------------------------- the tree refines a finite map

  lemma BitStep(bits: Bits, depth: nat)
    requires depth < |bits|
    ensures bits[..depth + 1] == bits[..depth] + [bits[depth]]
  {
  }

  lemma PrefixesDiverge(cfg: Config, prefix: Bits, k1: InstanceID, k2: InstanceID)
    requires Collisionless(cfg) && k1 != k2
    requires prefix <= cfg.bits(k1) && prefix <= cfg.bits(k2)
    ensures |prefix| < KEY_BITS
    ensures prefix + [cfg.bits(k1)[|prefix|]] <= cfg.bits(k1)
    ensures prefix + [cfg.bits(k2)[|prefix|]] <= cfg.bits(k2)
  {
    assert |prefix| == KEY_BITS ==> prefix == cfg.bits(k1) && prefix == cfg.bits(k2);
  }

  /** Keys below position `p` start with `p`. */
  lemma {:induction false} KeysUnder(cfg: Config, t: Tree, p: Bits)
    requires Valid(cfg, t, p)
    ensures forall k :: k in Contents(t) ==> p <= cfg.bits(k)
    decreases t
  {
    match t
    case Empty(_) =>
    case Leaf(_, _, _) =>
    case Interior(left, right) =>
      KeysUnder(cfg, left, p + [true]);
      KeysUnder(cfg, right, p + [false]);
  }

  /** The side that does not match a key's bit does not hold the key. */
  lemma OtherSide(cfg: Config, t: Tree, p: Bits, b: bool, key: InstanceID)
    requires Valid(cfg, t, p + [b]) && |p| < |cfg.bits(key)| && cfg.bits(key)[|p|] != b
    ensures key !in Contents(t)
  {
    KeysUnder(cfg, t, p + [b]);
    assert (p + [b])[|p|] == b;
  }

  lemma {:induction false} GetCorrect(cfg: Config, t: Tree, key: InstanceID, depth: nat)
    requires Collisionless(cfg) && depth <= KEY_BITS && Valid(cfg, t, cfg.bits(key)[..depth])
    ensures Get(cfg, t, key, depth) == if key in Contents(t) then Some(Contents(t)[key]) else None
    decreases t
  {
    match t
    case Empty(_) =>
    case Leaf(_, _, _) =>
    case Interior(left, right) =>
      var p := cfg.bits(key)[..depth];
      BitStep(cfg.bits(key), depth);
      if cfg.bits(key)[depth] {
        GetCorrect(cfg, left, key, depth + 1);
        OtherSide(cfg, right, p, false, key);
      } else {
        GetCorrect(cfg, right, key, depth + 1);
        OtherSide(cfg, left, p, true, key);
      }
  }

  lemma {:induction false} ExtendCorrect(cfg: Config, prefix: Bits, k1: InstanceID, v1: Body, k2: InstanceID, v2: Body)
    requires Collisionless(cfg) && k1 != k2
    requires prefix <= cfg.bits(k1) && prefix <= cfg.bits(k2)
    ensures Extend(cfg, prefix, k1, v1, k2, v2).Interior?
    ensures Valid(cfg, Extend(cfg, prefix, k1, v1, k2, v2), prefix)
    ensures Contents(Extend(cfg, prefix, k1, v1, k2, v2)) == map[k1 := v1, k2 := v2]
    decreases KEY_BITS - |prefix|
  {
    PrefixesDiverge(cfg, prefix, k1, k2);
    var b1, b2 := cfg.bits(k1)[|prefix|], cfg.bits(k2)[|prefix|];
    if b1 == b2 {
      ExtendCorrect(cfg, prefix + [b1], k1, v1, k2, v2);
    }
  }

  lemma UpdateLeftHalf<K, V>(left: map<K, V>, right: map<K, V>, key: K, value: V)
    requires key !in right
    ensures left[key := value] + right == (left + right)[key := value]
  {
  }

  lemma UpdateRightHalf<K, V>(left: map<K, V>, right: map<K, V>, key: K, value: V)
    ensures left + right[key := value] == (left + right)[key := value]
  {
  }

  lemma RemoveHalf<K, V>(left: map<K, V>, right: map<K, V>, key: K)
    ensures key !in right ==> (left - {key}) + right == (left + right) - {key}
    ensures key !in left ==> left + (right - {key}) == (left + right) - {key}
  {
  }

  lemma {:induction false} SetCorrect(cfg: Config, t: Tree, key: InstanceID, value: Body, depth: nat)
    requires Collisionless(cfg) && depth <= KEY_BITS && Valid(cfg, t, cfg.bits(key)[..depth])
    ensures Valid(cfg, Set(cfg, t, key, value, depth), cfg.bits(key)[..depth])
    ensures Contents(Set(cfg, t, key, value, depth)) == Contents(t)[key := value]
    ensures t.Interior? ==> Set(cfg, t, key, value, depth).Interior?
    decreases t
  {
    match t
    case Empty(_) =>
    case Leaf(prefix, k, v) =>
      if k != key {
        ExtendCorrect(cfg, prefix, k, v, key, value);
      }
    case Interior(left, right) =>
      var p := cfg.bits(key)[..depth];
      BitStep(cfg.bits(key), depth);
      if cfg.bits(key)[depth] {
        SetCorrect(cfg, left, key, value, depth + 1);
        OtherSide(cfg, right, p, false, key);
        UpdateLeftHalf(Contents(left), Contents(right), key, value);
      } else {
        SetCorrect(cfg, right, key, value, depth + 1);
        UpdateRightHalf(Contents(left), Contents(right), key, value);
      }
  }

  lemma {:induction false} DelCorrect(cfg: Config, t: Tree, key: InstanceID, depth: nat)
    requires Collisionless(cfg) && depth <= KEY_BITS && Valid(cfg, t, cfg.bits(key)[..depth])
    ensures Del(cfg, t, key, depth).Some? <==> key in Contents(t)
    ensures Del(cfg, t, key, depth).Some? ==>
      var t' := Del(cfg, t, key, depth).value;
      && Valid(cfg, t', cfg.bits(key)[..depth])
      && Contents(t') == Contents(t) - {key}
      && (t.Interior? ==> t'.Interior?)
    decreases t
  {
    match t
    case Empty(_) =>
    case Leaf(_, _, _) =>
    case Interior(left, right) =>
      var p := cfg.bits(key)[..depth];
      BitStep(cfg.bits(key), depth);
      if cfg.bits(key)[depth] {
        DelCorrect(cfg, left, key, depth + 1);
        OtherSide(cfg, right, p, false, key);
        RemoveHalf(Contents(left), Contents(right), key);
      } else {
        DelCorrect(cfg, right, key, depth + 1);
        OtherSide(cfg, left, p, true, key);
        RemoveHalf(Contents(left), Contents(right), key);
      }
  }

  // ------------------------------------------------------------------- the root

  /** Equal roots mean equal trees, hence equal contents. */
  lemma {:induction false} HashInjective(nonce: Bytes, t1: Tree, t2: Tree)
    requires Hash(nonce, t1) == Hash(nonce, t2)
    ensures t1 == t2
    decreases t1
  {
    if t1.Interior? && t2.Interior? {
      HashInjective(nonce, t1.left, t2.left);
      HashInjective(nonce, t1.right, t2.right);
    }
  }

  /** The converse fails: a trie that held two keys on the same side of the root and
      lost the second one has the contents, but not the root, of a trie that only
      ever saw the first. */
  lemma SameContentsDifferentRoot(cfg: Config, k1: InstanceID, k2: InstanceID, v: Body)
    requires Collisionless(cfg) && k1 != k2 && cfg.bits(k1)[0] && cfg.bits(k2)[0]
    ensures
      var once := SetKey(cfg, NewTrie(), k1, v);
      var twice := DelKey(cfg, SetKey(cfg, once, k2, v), k2);
      Contents(once) == Contents(twice) && Hash(cfg.nonce, once) != Hash(cfg.nonce, twice)
  {
    var once := SetKey(cfg, NewTrie(), k1, v);
    var both := SetKey(cfg, once, k2, v);
    var twice := DelKey(cfg, both, k2);
    BitStep(cfg.bits(k1), 0);
    SetOnLeft(cfg, NewTrie(), k1, v);
    SetOnLeft(cfg, once, k2, v);
    ExtendCorrect(cfg, [true], k1, v, k2, v);
    DelOnLeft(cfg, both, k2);
    assert Contents(NewTrie()) == map[];
    assert Contents(twice) == Contents(once);
  }

  lemma SetOnLeft(cfg: Config, t: Tree, key: InstanceID, value: Body)
    requires Collisionless(cfg) && ValidTrie(cfg, t) && cfg.bits(key)[0]
    requires Valid(cfg, t.left, cfg.bits(key)[..1])
    ensures SetKey(cfg, t, key, value) == Interior(Set(cfg, t.left, key, value, 1), t.right)
  {
  }

  lemma DelOnLeft(cfg: Config, t: Tree, key: InstanceID)
    requires Collisionless(cfg) && ValidTrie(cfg, t) && t.left.Interior? && cfg.bits(key)[0]
    ensures DelKey(cfg, t, key).left.Interior?
  {
    BitStep(cfg.bits(key), 0);
    DelCorrect(cfg, t.left, key, 1);
  }

  ghost function Count(t: Tree): (n: nat)
  {
    match t
    case Empty(_) => 0
    case Leaf(_, _, _) => 1
    case Interior(left, right) => Count(left) + Count(right)
  }

  /** Every interior node below the root separates at least two keys. */
  ghost predicate Minimal(t: Tree) {
    t.Interior? ==> Count(t) >= 2 && Minimal(t.left) && Minimal(t.right)
  }

  ghost predicate MinimalTrie(t: Tree) {
    t.Interior? && Minimal(t.left) && Minimal(t.right)
  }

  lemma {:induction false} CountIsSize(cfg: Config, t: Tree, p: Bits)
    requires Valid(cfg, t, p)
    ensures Count(t) == |Contents(t)|
    decreases t
  {
    match t
    case Empty(_) =>
    case Leaf(_, _, _) =>
    case Interior(left, right) =>
      CountIsSize(cfg, left, p + [true]);
      CountIsSize(cfg, right, p + [false]);
      SidesDisjoint(cfg, t, p);
      assert Contents(t).Keys == Contents(left).Keys + Contents(right).Keys;
  }

  lemma SidesDisjoint(cfg: Config, t: Tree, p: Bits)
    requires t.Interior? && Valid(cfg, t, p)
    ensures Contents(t.left).Keys !! Contents(t.right).Keys
  {
    CrossDisjoint(cfg, t.left, t.right, p);
  }

  /** The two halves of equal contents are equal. */
  lemma SplitContents(cfg: Config, t1: Tree, t2: Tree, p: Bits)
    requires t1.Interior? && t2.Interior? && Valid(cfg, t1, p) && Valid(cfg, t2, p)
    requires Contents(t1) == Contents(t2)
    ensures Contents(t1.left) == Contents(t2.left) && Contents(t1.right) == Contents(t2.right)
  {
    SidesDisjoint(cfg, t1, p);
    SidesDisjoint(cfg, t2, p);
    CrossDisjoint(cfg, t1.left, t2.right, p);
    CrossDisjoint(cfg, t2.left, t1.right, p);
    assert forall k :: k in Contents(t1) <==> k in Contents(t1.left) || k in Contents(t1.right);
    assert forall k :: k in Contents(t2) <==> k in Contents(t2.left) || k in Contents(t2.right);
    assert forall k :: k in Contents(t1.left) ==> Contents(t1)[k] == Contents(t1.left)[k];
    assert forall k :: k in Contents(t2.left) ==> Contents(t2)[k] == Contents(t2.left)[k];
    assert forall k :: k in Contents(t1.left) <==> k in Contents(t2.left);
    assert forall k :: k in Contents(t1.right) <==> k in Contents(t2.right);
  }

  lemma CrossDisjoint(cfg: Config, l: Tree, r: Tree, p: Bits)
    requires Valid(cfg, l, p + [true]) && Valid(cfg, r, p + [false])
    ensures Contents(l).Keys !! Contents(r).Keys
  {
    KeysUnder(cfg, l, p + [true]);
    KeysUnder(cfg, r, p + [false]);
    assert (p + [true])[|p|] && !(p + [false])[|p|];
  }

  /** At one position there is one minimal tree per contents. */
  lemma {:induction false} MinimalUnique(cfg: Config, t1: Tree, t2: Tree, p: Bits)
    requires Valid(cfg, t1, p) && Valid(cfg, t2, p) && Minimal(t1) && Minimal(t2)
    requires Contents(t1) == Contents(t2)
    ensures t1 == t2
    decreases t1
  {
    CountIsSize(cfg, t1, p);
    CountIsSize(cfg, t2, p);
    if t1.Interior? && t2.Interior? {
      SplitContents(cfg, t1, t2, p);
      MinimalUnique(cfg, t1.left, t2.left, p + [true]);
      MinimalUnique(cfg, t1.right, t2.right, p + [false]);
    } else if t1.Leaf? && t2.Leaf? {
      assert t1.key in Contents(t2);
    }
  }

  /** Storing pairs keeps a tree minimal; only deletions can break it. */
  lemma {:induction false} SetKeepsMinimal(cfg: Config, t: Tree, key: InstanceID, value: Body, depth: nat)
    requires Collisionless(cfg) && depth <= KEY_BITS && Valid(cfg, t, cfg.bits(key)[..depth])
    requires Minimal(t)
    ensures Minimal(Set(cfg, t, key, value, depth))
    ensures Count(Set(cfg, t, key, value, depth)) >= Count(t)
    decreases t
  {
    match t
    case Empty(_) =>
    case Leaf(prefix, k, v) =>
      if k != key {
        ExtendMinimal(cfg, prefix, k, v, key, value);
      }
    case Interior(left, right) =>
      BitStep(cfg.bits(key), depth);
      if cfg.bits(key)[depth] {
        SetKeepsMinimal(cfg, left, key, value, depth + 1);
      } else {
        SetKeepsMinimal(cfg, right, key, value, depth + 1);
      }
  }

  lemma {:induction false} ExtendMinimal(cfg: Config, prefix: Bits, k1: InstanceID, v1: Body, k2: InstanceID, v2: Body)
    requires Collisionless(cfg) && k1 != k2
    requires prefix <= cfg.bits(k1) && prefix <= cfg.bits(k2)
    ensures Minimal(Extend(cfg, prefix, k1, v1, k2, v2)) && Count(Extend(cfg, prefix, k1, v1, k2, v2)) == 2
    decreases KEY_BITS - |prefix|
  {
    PrefixesDiverge(cfg, prefix, k1, k2);
    var b1, b2 := cfg.bits(k1)[|prefix|], cfg.bits(k2)[|prefix|];
    if b1 == b2 {
      ExtendMinimal(cfg, prefix + [b1], k1, v1, k2, v2);
    }
  }

  lemma SetKeyKeepsMinimal(cfg: Config, t: Tree, key: InstanceID, value: Body)
    requires Collisionless(cfg) && ValidTrie(cfg, t) && MinimalTrie(t)
    ensures MinimalTrie(SetKey(cfg, t, key, value))
  {
    BitStep(cfg.bits(key), 0);
    if cfg.bits(key)[0] {
      SetKeepsMinimal(cfg, t.left, key, value, 1);
    } else {
      SetKeepsMinimal(cfg, t.right, key, value, 1);
    }
  }

  /** A trie with the contents of a minimal one has its root exactly when it is
      minimal too. */
  lemma RootIsCanonicalExactly(cfg: Config, t: Tree, minimal: Tree)
    requires ValidTrie(cfg, t) && ValidTrie(cfg, minimal) && MinimalTrie(minimal)
    requires Contents(t) == Contents(minimal)
    ensures Hash(cfg.nonce, t) == Hash(cfg.nonce, minimal) <==> MinimalTrie(t)
  {
    if Hash(cfg.nonce, t) == Hash(cfg.nonce, minimal) {
      HashInjective(cfg.nonce, t, minimal);
    }
    if MinimalTrie(t) {
      SplitContents(cfg, t, minimal, []);
      MinimalUnique(cfg, t.left, minimal.left, [] + [true]);
      MinimalUnique(cfg, t.right, minimal.right, [] + [false]);
    }
  }

  // ------------------------------------------------------ a run of writes

  datatype Write = Put(key: InstanceID, value: Body) | Drop(key: InstanceID)

  function Write1(cfg: Config, t: Tree, w: Write): (t': Tree)
    requires Collisionless(cfg) && ValidTrie(cfg, t)
    ensures ValidTrie(cfg, t')
  {
    match w
    case Put(key, value) => SetKey(cfg, t, key, value)
    case Drop(key) => DelKey(cfg, t, key)
  }

  function WriteAll(cfg: Config, t: Tree, ws: seq<Write>): (t': Tree)
    requires Collisionless(cfg) && ValidTrie(cfg, t)
    ensures ValidTrie(cfg, t')
    decreases |ws|
  {
    if ws == [] then t else Write1(cfg, WriteAll(cfg, t, ws[..|ws| - 1]), ws[|ws| - 1])
  }

  /** Tries that only ever stored pairs have equal roots exactly when they hold
      the same pairs, in whatever order the pairs came. */
  lemma InsertOrderIrrelevant(cfg: Config, ws1: seq<Write>, ws2: seq<Write>)
    requires Collisionless(cfg)
    requires (forall w :: w in ws1 ==> w.Put?) && (forall w :: w in ws2 ==> w.Put?)
    requires ValidTrie(cfg, NewTrie())
    ensures Contents(WriteAll(cfg, NewTrie(), ws1)) == Contents(WriteAll(cfg, NewTrie(), ws2)) <==>
            Hash(cfg.nonce, WriteAll(cfg, NewTrie(), ws1)) == Hash(cfg.nonce, WriteAll(cfg, NewTrie(), ws2))
  {
    var t1, t2 := WriteAll(cfg, NewTrie(), ws1), WriteAll(cfg, NewTrie(), ws2);
    PutsStayMinimal(cfg, ws1);
    PutsStayMinimal(cfg, ws2);
    if Contents(t1) == Contents(t2) {
      RootIsCanonicalExactly(cfg, t1, t2);
    }
    if Hash(cfg.nonce, t1) == Hash(cfg.nonce, t2) {
      HashInjective(cfg.nonce, t1, t2);
    }
  }

  lemma {:induction false} PutsStayMinimal(cfg: Config, ws: seq<Write>)
    requires Collisionless(cfg) && forall w :: w in ws ==> w.Put?
    requires ValidTrie(cfg, NewTrie())
    ensures MinimalTrie(WriteAll(cfg, NewTrie(), ws))
    decreases |ws|
  {
    if ws != [] {
      var n := |ws| - 1;
      PutsStayMinimal(cfg, ws[..n]);
      SetKeyKeepsMinimal(cfg, WriteAll(cfg, NewTrie(), ws[..n]), ws[n].key, ws[n].value);
    }
  }
}
