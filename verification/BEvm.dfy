/** The database through which the EVM writes to the ledger: it buffers the writes as state
    changes, and dumps them sorted, because their order has to be the same on all nodes. */
module BEvm {
  import opened Types
  import opened Encoding

  /** A state change of a value instance. */
  datatype Change = Change(action: StateAction, id: InstanceID, value: Bytes)

  type Trie = map<InstanceID, Bytes>

  /** The plain database: what a MemDatabase maps keys to. */
  type Store = map<Bytes, Bytes>

  datatype Write = Put(key: Bytes, value: Bytes) | Delete(key: Bytes)

  /** MemDatabase.put and delete. */
  function Apply(m: Store, w: Write): (r: Store)
  {
    match w
    case Put(key, value) => m[key := value]
    case Delete(key) => m - {key}
  }

  function ApplyAll(m: Store, ws: seq<Write>): (r: Store)
    decreases |ws|
  {
    if ws == [] then m else ApplyAll(Apply(m, ws[0]), ws[1..])
  }

  lemma {:induction false} ApplyAllConcat(m: Store, a: seq<Write>, b: seq<Write>)
    ensures ApplyAll(m, a + b) == ApplyAll(ApplyAll(m, a), b)
    decreases |a|
  {
    if a == [] {
      assert a + b == b;
    } else {
      assert (a + b)[1..] == a[1..] + b;
      ApplyAllConcat(Apply(m, a[0]), a[1..], b);
    }
  }

  // ----------------------------------------------------- applying state changes

  function ApplyChange(t: Trie, c: Change): (r: Trie)
  {
    if c.action == Remove then t - {c.id} else t[c.id := c.value]
  }

  function ApplyChanges(t: Trie, cs: seq<Change>): (r: Trie)
    decreases |cs|
  {
    if cs == [] then t else ApplyChanges(ApplyChange(t, cs[0]), cs[1..])
  }

  /** The existence checks of processOneTx. */
  predicate Passes(t: Trie, c: Change) {
    if c.action == Create then c.id !in t else c.id in t
  }

  ghost predicate AllPass(t: Trie, cs: seq<Change>)
    decreases |cs|
  {
    cs == [] || (Passes(t, cs[0]) && AllPass(ApplyChange(t, cs[0]), cs[1..]))
  }

  lemma {:induction false} ApplyChangesSnoc(t: Trie, cs: seq<Change>, c: Change)
    ensures ApplyChanges(t, cs + [c]) == ApplyChange(ApplyChanges(t, cs), c)
    ensures AllPass(t, cs + [c]) <==> AllPass(t, cs) && Passes(ApplyChanges(t, cs), c)
    decreases |cs|
  {
    if cs == [] {
      assert cs + [c] == [c];
    } else {
      assert (cs + [c])[1..] == cs[1..] + [c];
      ApplyChangesSnoc(ApplyChange(t, cs[0]), cs[1..], c);
    }
  }

  // -------------------------------------------- what the changes do to an instance

  function Of(cs: seq<Change>, id: InstanceID): (r: seq<Change>)
  {
    if cs == [] then []
    else if cs[0].id == id then [cs[0]] + Of(cs[1..], id)
    else Of(cs[1..], id)
  }

  function At(t: Trie, id: InstanceID): (v: Option<Bytes>)
  {
    if id in t then Some(t[id]) else None
  }

  function Final(v: Option<Bytes>, cs: seq<Change>): (r: Option<Bytes>)
    decreases |cs|
  {
    if cs == [] then v else Final(if cs[0].action == Remove then None else Some(cs[0].value), cs[1..])
  }

  ghost predicate AllPassAt(v: Option<Bytes>, cs: seq<Change>)
    decreases |cs|
  {
    cs == [] ||
    (&& (cs[0].action == Create <==> v.None?)
     && AllPassAt(if cs[0].action == Remove then None else Some(cs[0].value), cs[1..]))
  }

  /** An instance ends up as its own changes, in their order, leave it. */
  lemma {:induction false} ApplyAt(t: Trie, cs: seq<Change>, id: InstanceID)
    ensures At(ApplyChanges(t, cs), id) == Final(At(t, id), Of(cs, id))
    decreases |cs|
  {
    if cs != [] {
      ApplyAt(ApplyChange(t, cs[0]), cs[1..], id);
      if cs[0].id == id {
        assert Of(cs, id)[1..] == Of(cs[1..], id);
      }
    }
  }

  /** The checks only see an instance's own changes, in their order. */
  lemma {:induction false} PassAt(t: Trie, cs: seq<Change>)
    ensures AllPass(t, cs) <==> forall id :: AllPassAt(At(t, id), Of(cs, id))
    decreases |cs|
  {
    if cs != [] {
      var t1 := ApplyChange(t, cs[0]);
      PassAt(t1, cs[1..]);
      if AllPass(t, cs) {
        forall id ensures AllPassAt(At(t, id), Of(cs, id)) {
          PassAtStep(t, cs, id);
        }
      }
      if forall id :: AllPassAt(At(t, id), Of(cs, id)) {
        PassAtStep(t, cs, cs[0].id);
        forall id ensures AllPassAt(At(t1, id), Of(cs[1..], id)) {
          PassAtStep(t, cs, id);
          assert AllPassAt(At(t, id), Of(cs, id));
        }
      }
    } else {
      assert forall id :: AllPassAt(At(t, id), Of(cs, id));
    }
  }

  lemma PassAtStep(t: Trie, cs: seq<Change>, id: InstanceID)
    requires cs != []
    ensures AllPassAt(At(t, id), Of(cs, id)) <==>
      (id == cs[0].id ==> Passes(t, cs[0])) && AllPassAt(At(ApplyChange(t, cs[0]), id), Of(cs[1..], id))
  {
    if cs[0].id == id {
      assert Of(cs, id)[1..] == Of(cs[1..], id);
    }
  }

  /** Two lists with the same changes for every instance, in the same order for each, do the
      same and pass the same checks. */
  lemma SameForEach(t: Trie, a: seq<Change>, b: seq<Change>)
    requires forall id :: Of(a, id) == Of(b, id)
    ensures ApplyChanges(t, a) == ApplyChanges(t, b) && (AllPass(t, a) <==> AllPass(t, b))
  {
    forall id ensures At(ApplyChanges(t, a), id) == At(ApplyChanges(t, b), id) {
      ApplyAt(t, a, id);
      ApplyAt(t, b, id);
    }
    SameMaps(ApplyChanges(t, a), ApplyChanges(t, b));
    PassAt(t, a);
    PassAt(t, b);
  }

  lemma SameMaps(s: Trie, t: Trie)
    requires forall id :: At(s, id) == At(t, id)
    ensures s == t
  {
    forall id ensures (id in s <==> id in t) && (id in s ==> s[id] == t[id]) {
      assert At(s, id) == At(t, id);
    }
  }

  // ------------------------------------------------------------- the stable sort

  type Order = (Bytes, Bytes) -> bool

  ghost predicate StrictTotal(lt: Order) {
    && (forall a, b :: lt(a, b) ==> !lt(b, a) && a != b)
    && (forall a, b :: a == b || lt(a, b) || lt(b, a))
    && (forall a, b, c :: lt(a, b) && lt(b, c) ==> lt(a, c))
  }

  function ByteOrder(): (lt: Order)
  {
    (a, b) => Less(a, b)
  }

  lemma BytesStrictTotal()
    ensures StrictTotal(ByteOrder())
  {
    var lt := ByteOrder();
    forall a, b ensures (lt(a, b) ==> !lt(b, a) && a != b) && (a == b || lt(a, b) || lt(b, a)) {
      LessTotal(a, b);
    }
    forall a, b, c | lt(a, b) && lt(b, c) ensures lt(a, c) {
      LessTransitive(a, b, c);
    }
  }

  ghost predicate InOrder(cs: seq<Change>, lt: Order) {
    forall i, j :: 0 <= i < j < |cs| ==> !lt(cs[j].id, cs[i].id)
  }

  function Insert(c: Change, cs: seq<Change>, lt: Order): (r: seq<Change>)
  {
    if cs == [] || !lt(cs[0].id, c.id) then [c] + cs else [cs[0]] + Insert(c, cs[1..], lt)
  }

  /** sort.SliceStable by the key of the changes. */
  function Sort(cs: seq<Change>, lt: Order): (r: seq<Change>)
  {
    if cs == [] then [] else Insert(cs[0], Sort(cs[1..], lt), lt)
  }

  lemma {:induction false} InsertOf(c: Change, cs: seq<Change>, lt: Order, id: InstanceID)
    requires StrictTotal(lt)
    ensures Of(Insert(c, cs, lt), id) == Of([c] + cs, id)
    decreases |cs|
  {
    assert ([c] + cs)[1..] == cs;
    if cs != [] && lt(cs[0].id, c.id) {
      InsertOf(c, cs[1..], lt, id);
      assert ([c] + cs[1..])[1..] == cs[1..];
      assert Insert(c, cs, lt)[1..] == Insert(c, cs[1..], lt);
    }
  }

  lemma {:induction false} InsertMembers(c: Change, cs: seq<Change>, lt: Order)
    ensures forall x :: x in Insert(c, cs, lt) ==> x == c || x in cs
    decreases |cs|
  {
    if cs != [] && lt(cs[0].id, c.id) {
      InsertMembers(c, cs[1..], lt);
    }
  }

  lemma {:induction false} InsertInOrder(c: Change, cs: seq<Change>, lt: Order)
    requires StrictTotal(lt) && InOrder(cs, lt)
    ensures InOrder(Insert(c, cs, lt), lt)
    decreases |cs|
  {
    if cs == [] {
    } else if lt(cs[0].id, c.id) {
      var r := Insert(c, cs[1..], lt);
      InsertInOrder(c, cs[1..], lt);
      InsertMembers(c, cs[1..], lt);
      assert forall x :: x in cs[1..] ==> !lt(x.id, cs[0].id);
      ConsInOrder(cs[0], r, lt);
    } else {
      assert forall x :: x in cs ==> !lt(x.id, c.id);
      ConsInOrder(c, cs, lt);
    }
  }

  lemma ConsInOrder(c: Change, cs: seq<Change>, lt: Order)
    requires InOrder(cs, lt) && forall x :: x in cs ==> !lt(x.id, c.id)
    ensures InOrder([c] + cs, lt)
  {
  }

  /** Sorting orders the changes by key and keeps the order of those with the same key. */
  lemma {:induction false} SortCorrect(cs: seq<Change>, lt: Order)
    requires StrictTotal(lt)
    ensures InOrder(Sort(cs, lt), lt) && forall id :: Of(Sort(cs, lt), id) == Of(cs, id)
    decreases |cs|
  {
    if cs != [] {
      var s := Sort(cs[1..], lt);
      SortCorrect(cs[1..], lt);
      InsertInOrder(cs[0], s, lt);
      forall id ensures Of(Sort(cs, lt), id) == Of(cs, id) {
        InsertOf(cs[0], s, lt, id);
        assert ([cs[0]] + s)[1..] == s;
      }
    }
  }

  lemma {:induction false} OfMember(cs: seq<Change>, id: InstanceID)
    ensures Of(cs, id) != [] <==> exists i :: 0 <= i < |cs| && cs[i].id == id
    decreases |cs|
  {
    if cs != [] {
      OfMember(cs[1..], id);
      if Of(cs[1..], id) != [] {
        var i :| 0 <= i < |cs[1..]| && cs[1..][i].id == id;
        assert cs[i + 1].id == id;
      }
      assert forall i :: 1 <= i < |cs| ==> cs[i] == cs[1..][i - 1];
    }
  }

  /** And that is all there is to say about the result: it is the only such list. */
  lemma {:induction false} SortedUnique(a: seq<Change>, b: seq<Change>, lt: Order)
    requires StrictTotal(lt) && InOrder(a, lt) && InOrder(b, lt)
    requires forall id :: Of(a, id) == Of(b, id)
    ensures a == b
    decreases |a|
  {
    if a == [] || b == [] {
      EmptyTogether(a, b);
    } else {
      SameFirst(a, b, lt);
      SameFirst(b, a, lt);
      var id := a[0].id;
      assert Of(a, id)[0] == a[0] && Of(b, id)[0] == b[0];
      forall x ensures Of(a[1..], x) == Of(b[1..], x) {
        assert Of(a, x) == Of(b, x);
        if x == id {
          assert Of(a, x)[1..] == Of(a[1..], x) && Of(b, x)[1..] == Of(b[1..], x);
        }
      }
      SortedUnique(a[1..], b[1..], lt);
      assert a == [a[0]] + a[1..] && b == [b[0]] + b[1..];
    }
  }

  lemma EmptyTogether(a: seq<Change>, b: seq<Change>)
    requires forall id :: Of(a, id) == Of(b, id)
    ensures a == [] <==> b == []
  {
    if a != [] {
      assert Of(b, a[0].id) == Of(a, a[0].id) != [];
    }
    if b != [] {
      assert Of(a, b[0].id) == Of(b, b[0].id) != [];
    }
  }

  lemma SameFirst(a: seq<Change>, b: seq<Change>, lt: Order)
    requires StrictTotal(lt) && InOrder(b, lt) && a != [] && b != []
    requires forall id :: Of(a, id) == Of(b, id)
    ensures !lt(a[0].id, b[0].id)
  {
    OfMember(a, a[0].id);
    OfMember(b, a[0].id);
    assert Of(a, a[0].id) == Of(b, a[0].id);
    var j :| 0 <= j < |b| && b[j].id == a[0].id;
  }

  /** Reordering changes to different keys does not change the dump. */
  lemma DumpDeterministic(a: seq<Change>, b: seq<Change>)
    requires forall id :: Of(a, id) == Of(b, id)
    ensures Sort(a, ByteOrder()) == Sort(b, ByteOrder())
  {
    BytesStrictTotal();
    SortCorrect(a, ByteOrder());
    SortCorrect(b, ByteOrder());
    SortedUnique(Sort(a, ByteOrder()), Sort(b, ByteOrder()), ByteOrder());
  }

  // -------------------------------------------------------------- the sorted keys

  ghost predicate Increasing(ks: seq<Bytes>, lt: Order) {
    forall i, j :: 0 <= i < j < |ks| ==> lt(ks[i], ks[j])
  }

  function InsertKey(k: Bytes, ks: seq<Bytes>, lt: Order): (r: seq<Bytes>)
    ensures forall x :: x in r <==> x in ks || x == k
  {
    if ks == [] || !lt(ks[0], k) then [k] + ks else [ks[0]] + InsertKey(k, ks[1..], lt)
  }

  lemma {:induction false} InsertKeyIncreasing(k: Bytes, ks: seq<Bytes>, lt: Order)
    requires StrictTotal(lt) && Increasing(ks, lt) && k !in ks
    ensures Increasing(InsertKey(k, ks, lt), lt)
    decreases |ks|
  {
    if ks == [] {
    } else if lt(ks[0], k) {
      InsertKeyIncreasing(k, ks[1..], lt);
      ConsIncreasing(ks[0], InsertKey(k, ks[1..], lt), lt);
    } else {
      assert ks[0] != k;
      forall x | x in ks ensures lt(k, x) {
        var i :| 0 <= i < |ks| && ks[i] == x;
        assert i > 0 ==> lt(ks[0], ks[i]);
      }
      ConsIncreasing(k, ks, lt);
    }
  }

  lemma ConsIncreasing(k: Bytes, ks: seq<Bytes>, lt: Order)
    requires Increasing(ks, lt) && forall x :: x in ks ==> lt(k, x)
    ensures Increasing([k] + ks, lt)
  {
  }

  /** keyListToMap. */
  method KeyListToMap(keys: seq<Bytes>) returns (r: set<Bytes>)
    ensures forall k :: k in r <==> k in keys
  {
    r := {};
    for i := 0 to |keys|
      invariant forall k :: k in r <==> k in keys[..i]
    {
      r := r + {keys[i]};
    }
  }

  /** keyMapToList: the keys, in whatever order the map yields them, sorted. */
  method KeyMapToList(keys: set<Bytes>) returns (r: seq<Bytes>)
    ensures Increasing(r, ByteOrder()) && forall k :: k in r <==> k in keys
  {
    BytesStrictTotal();
    r := [];
    var todo := keys;
    while todo != {}
      invariant todo <= keys && Increasing(r, ByteOrder())
      invariant forall k :: k in r <==> k in keys && k !in todo
      decreases todo
    {
      var k :| k in todo;
      InsertKeyIncreasing(k, r, ByteOrder());
      r := InsertKey(k, r, ByteOrder());
      todo := todo - {k};
    }
  }

  /** The list does not depend on the order of the map. */
  lemma {:induction false} KeyListUnique(a: seq<Bytes>, b: seq<Bytes>, lt: Order)
    requires StrictTotal(lt) && Increasing(a, lt) && Increasing(b, lt)
    requires forall k :: k in a <==> k in b
    ensures a == b
    decreases |a|
  {
    SameEmptiness(a, b);
    if a != [] {
      assert a[0] in b;
      SmallestFirst(a, b, lt);
      SmallestFirst(b, a, lt);
      forall k ensures k in a[1..] <==> k in b[1..] {
        TailMember(a, k, lt);
        TailMember(b, k, lt);
      }
      KeyListUnique(a[1..], b[1..], lt);
      assert a == [a[0]] + a[1..] && b == [b[0]] + b[1..];
    }
  }

  lemma SameEmptiness(a: seq<Bytes>, b: seq<Bytes>)
    requires forall k :: k in a <==> k in b
    ensures a == [] <==> b == []
  {
    if a != [] {
      assert a[0] in b;
    }
    if b != [] {
      assert b[0] in a;
    }
  }

  lemma SmallestFirst(a: seq<Bytes>, b: seq<Bytes>, lt: Order)
    requires StrictTotal(lt) && Increasing(b, lt) && a != [] && b != [] && a[0] in b
    ensures !lt(a[0], b[0])
  {
    var i :| 0 <= i < |b| && b[i] == a[0];
    assert i > 0 ==> lt(b[0], b[i]);
  }

  lemma TailMember(a: seq<Bytes>, k: Bytes, lt: Order)
    requires StrictTotal(lt) && Increasing(a, lt) && a != []
    ensures k in a[1..] <==> k in a && k != a[0]
  {
    assert a == [a[0]] + a[1..];
    if k in a[1..] {
      var i :| 0 <= i < |a[1..]| && a[1..][i] == k;
      assert lt(a[0], a[i + 1]);
    }
  }

  // -------------------------------------------------------------- the databases

  /** getValueInstanceID: a digest, of which no two of the keys in use collide. */
  type InstanceOf = Bytes -> InstanceID

  ghost predicate Injective(f: InstanceOf, ks: set<Bytes>) {
    forall a, b :: a in ks && b in ks && f(a) == f(b) ==> a == b
  }

  /** The value instances of the keys are the pairs of the store. */
  ghost predicate Agree(f: InstanceOf, ks: set<Bytes>, t: Trie, m: Store) {
    forall k :: k in ks ==> At(t, f(k)) == (if k in m then Some(m[k]) else None)
  }

  /** Two tries do not differ outside the value instances. */
  ghost predicate SameElsewhere(f: InstanceOf, ks: set<Bytes>, s: Trie, t: Trie) {
    forall id :: (forall k :: k in ks ==> f(k) != id) ==> At(s, id) == At(t, id)
  }

  /** Every key is there when it is deleted. */
  ghost predicate DeletesPresent(m: Store, ws: seq<Write>)
    decreases |ws|
  {
    ws == [] || ((ws[0].Delete? ==> ws[0].key in m) && DeletesPresent(Apply(m, ws[0]), ws[1..]))
  }

  lemma {:induction false} DeletesPresentSnoc(m: Store, ws: seq<Write>, w: Write)
    ensures DeletesPresent(m, ws + [w]) <==> DeletesPresent(m, ws) && (w.Delete? ==> w.key in ApplyAll(m, ws))
    ensures ApplyAll(m, ws + [w]) == Apply(ApplyAll(m, ws), w)
    decreases |ws|
  {
    if ws == [] {
      assert ws + [w] == [w];
    } else {
      assert (ws + [w])[1..] == ws[1..] + [w];
      DeletesPresentSnoc(Apply(m, ws[0]), ws[1..], w);
    }
  }

  /** What the writes `ws` on the store `m` have left: changes that turn the trie into the
      store, and that pass the checks exactly if every deleted key was there. */
  ghost predicate Buffers(f: InstanceOf, ks: set<Bytes>, t: Trie, keys: set<Bytes>, cs: seq<Change>, m: Store, ws: seq<Write>) {
    && Injective(f, ks)
    && keys == ApplyAll(m, ws).Keys <= ks
    && Agree(f, ks, ApplyChanges(t, cs), ApplyAll(m, ws))
    && SameElsewhere(f, ks, t, ApplyChanges(t, cs))
    && (AllPass(t, cs) <==> DeletesPresent(m, ws))
  }

  function ChangeOf(f: InstanceOf, keys: set<Bytes>, w: Write): (c: Change)
  {
    match w
    case Put(key, value) => Change(if key in keys then Update else Create, f(key), value)
    case Delete(key) => Change(Remove, f(key), [])
  }

  lemma BuffersOneMore(f: InstanceOf, ks: set<Bytes>, t: Trie, keys: set<Bytes>, cs: seq<Change>, m: Store, ws: seq<Write>, w: Write)
    requires Buffers(f, ks, t, keys, cs, m, ws) && w.key in ks
    ensures ApplyAll(m, ws + [w]) == Apply(ApplyAll(m, ws), w)
    ensures Buffers(f, ks, t, ApplyAll(m, ws + [w]).Keys, cs + [ChangeOf(f, keys, w)], m, ws + [w])
  {
    ApplyChangesSnoc(t, cs, ChangeOf(f, keys, w));
    DeletesPresentSnoc(m, ws, w);
    WriteAgrees(f, ks, ApplyChanges(t, cs), ApplyAll(m, ws), w);
    var c, s := ChangeOf(f, keys, w), ApplyChanges(t, cs);
    forall id | forall k :: k in ks ==> f(k) != id ensures At(t, id) == At(ApplyChange(s, c), id) {
      assert f(w.key) != id;
    }
  }

  /** One write does to the trie what it does to the store. */
  lemma WriteAgrees(f: InstanceOf, ks: set<Bytes>, s: Trie, m: Store, w: Write)
    requires Injective(f, ks) && Agree(f, ks, s, m) && w.key in ks
    ensures Agree(f, ks, ApplyChange(s, ChangeOf(f, m.Keys, w)), Apply(m, w))
    ensures Passes(s, ChangeOf(f, m.Keys, w)) <==> (w.Delete? ==> w.key in m)
  {
    var c := ChangeOf(f, m.Keys, w);
    assert At(s, f(w.key)) == if w.key in m then Some(m[w.key]) else None;
    forall k | k in ks ensures At(ApplyChange(s, c), f(k)) == if k in Apply(m, w) then Some(Apply(m, w)[k]) else None {
      assert At(s, f(k)) == if k in m then Some(m[k]) else None;
    }
  }

  class ServerByzDatabase {
    const instanceOf: InstanceOf
    var keyMap: set<Bytes>
    var stateChanges: seq<Change>
    /** The keys in use, the trie and the store it started on, and the writes since. */
    ghost const ks: set<Bytes>
    ghost const trie: Trie
    ghost const start: Store
    ghost var writes: seq<Write>

    ghost predicate Ok()
      reads this
    {
      Buffers(instanceOf, ks, trie, keyMap, stateChanges, start, writes)
    }

    /** What a MemDatabase would hold by now. */
    ghost function Mem(): (m: Store)
      reads this
    {
      ApplyAll(start, writes)
    }

    constructor (instanceOf: InstanceOf, keyList: seq<Bytes>, ghost ks: set<Bytes>, ghost trie: Trie, ghost start: Store)
      requires Injective(instanceOf, ks) && start.Keys <= ks && Agree(instanceOf, ks, trie, start)
      requires forall k :: k in keyList <==> k in start
      ensures Ok() && this.instanceOf == instanceOf && this.ks == ks && this.trie == trie && this.start == start
      ensures Mem() == start && stateChanges == []
    {
      var keys := KeyListToMap(keyList);
      this.instanceOf, keyMap, stateChanges := instanceOf, keys, [];
      this.ks, this.trie, this.start, writes := ks, trie, start, [];
    }

    method Put(key: Bytes, value: Bytes)
      requires Ok() && key in ks
      modifies this
      ensures Ok() && writes == old(writes) + [Write.Put(key, value)] && Mem() == old(Mem())[key := value]
      ensures stateChanges == old(stateChanges) + [ChangeOf(instanceOf, old(keyMap), Write.Put(key, value))]
    {
      BuffersOneMore(instanceOf, ks, trie, keyMap, stateChanges, start, writes, Write.Put(key, value));
      var c;
      if key in keyMap {
        c := Change(Update, instanceOf(key), value);
      } else {
        c := Change(Create, instanceOf(key), value);
      }
      keyMap := keyMap + {key};
      stateChanges := stateChanges + [c];
      writes := writes + [Write.Put(key, value)];
    }

    method Delete(key: Bytes)
      requires Ok() && key in ks
      modifies this
      ensures Ok() && writes == old(writes) + [Write.Delete(key)] && Mem() == old(Mem()) - {key}
      ensures stateChanges == old(stateChanges) + [ChangeOf(instanceOf, old(keyMap), Write.Delete(key))]
    {
      BuffersOneMore(instanceOf, ks, trie, keyMap, stateChanges, start, writes, Write.Delete(key));
      stateChanges := stateChanges + [Change(Remove, instanceOf(key), [])];
      keyMap := keyMap - {key};
      writes := writes + [Write.Delete(key)];
    }

    /** Dump: the sorted changes and the sorted keys, unless two changes of a key differ. */
    method Dump() returns (r: Option<(seq<Change>, seq<Bytes>)>)
      requires Ok()
      modifies this
      ensures Ok() && keyMap == old(keyMap) && writes == old(writes)
      ensures r.Some? <==> forall i, j :: 0 <= i < j < |old(stateChanges)| && old(stateChanges)[i].id == old(stateChanges)[j].id ==>
        old(stateChanges)[i].value == old(stateChanges)[j].value
      ensures r.None? ==> stateChanges == old(stateChanges)
      ensures r.Some? ==>
        var (changes, keys) := r.value;
        && changes == stateChanges == Sort(old(stateChanges), ByteOrder())
        && Agree(instanceOf, ks, ApplyChanges(trie, changes), Mem())
        && SameElsewhere(instanceOf, ks, trie, ApplyChanges(trie, changes))
        && (AllPass(trie, changes) <==> DeletesPresent(start, writes))
        && Increasing(keys, ByteOrder()) && (forall k :: k in keys <==> k in Mem())
    {
      var unique := CheckUnique(stateChanges);
      if !unique {
        return None;
      }
      BytesStrictTotal();
      SortCorrect(stateChanges, ByteOrder());
      SameForEach(trie, Sort(stateChanges, ByteOrder()), stateChanges);
      stateChanges := Sort(stateChanges, ByteOrder());
      var keys := KeyMapToList(keyMap);
      r := Some((stateChanges, keys));
    }
  }

  ghost predicate OneValue(cs: seq<Change>) {
    forall i, j :: 0 <= i < j < |cs| && cs[i].id == cs[j].id ==> cs[i].value == cs[j].value
  }

  /** The loop of Dump that refuses changes that are not unique on keys. */
  method CheckUnique(cs: seq<Change>) returns (ok: bool)
    ensures ok <==> OneValue(cs)
  {
    var values: map<InstanceID, Bytes> := map[];
    for i := 0 to |cs|
      invariant forall j :: 0 <= j < i ==> cs[j].id in values && values[cs[j].id] == cs[j].value
      invariant forall id :: id in values ==> exists j :: 0 <= j < i && cs[j].id == id
    {
      if cs[i].id in values && values[cs[i].id] != cs[i].value {
        var j :| 0 <= j < i && cs[j].id == cs[i].id;
        return false;
      }
      values := values[cs[i].id := cs[i].value];
    }
    ok := true;
  }

  /** memBatch: writes are held back until Write. */
  class MemBatch {
    var writes: seq<Write>
    var size: nat

    constructor ()
      ensures writes == [] && size == 0
    {
      writes, size := [], 0;
    }

    method Put(key: Bytes, value: Bytes)
      modifies this
      ensures writes == old(writes) + [Write.Put(key, value)] && size == old(size) + |value|
    {
      writes := writes + [Write.Put(key, value)];
      size := size + |value|;
    }

    method Delete(key: Bytes)
      modifies this
      ensures writes == old(writes) + [Write.Delete(key)] && size == old(size) + 1
    {
      writes := writes + [Write.Delete(key)];
      size := size + 1;
    }

    /** The database ends up as if the writes had been made on it directly. */
    method WriteTo(db: ServerByzDatabase)
      requires db.Ok() && forall w :: w in writes ==> w.key in db.ks
      modifies db
      ensures db.Ok() && db.writes == old(db.writes) + writes && db.Mem() == ApplyAll(old(db.Mem()), writes)
    {
      var i := 0;
      assert db.writes + writes[..0] == db.writes;
      while i < |writes|
        invariant 0 <= i <= |writes| && db.Ok()
        invariant db.writes == old(db.writes) + writes[..i]
      {
        assert writes[i] in writes && writes[..i + 1] == writes[..i] + [writes[i]];
        match writes[i] {
          case Put(key, value) => db.Put(key, value);
          case Delete(key) => db.Delete(key);
        }
        i := i + 1;
      }
      assert writes[..i] == writes;
      ApplyAllConcat(db.start, old(db.writes), writes);
    }
  }
}
