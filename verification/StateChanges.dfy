/** The state change storage: all chains' buckets, the size they add up to, eviction and
    appending. */
module StateChanges {
  import opened Types
  import opened Encoding
  import opened Storage

  /** The bucket of a skipchain. */
  datatype Chain = Chain(id: ChainID, entries: seq<Entry>)

  /** A state change as it is stored: its key, and its encoding. */
  datatype Change = Change(id: Bytes, version: uint64, value: Bytes)

  function TotalAll(cs: seq<Chain>): (n: nat)
  {
    if cs == [] then 0 else Total(cs[0].entries) + TotalAll(cs[1..])
  }

  /** What the storage holds of a chain; nothing if the chain has no bucket. */
  function Lookup(cs: seq<Chain>, id: ChainID): (es: seq<Entry>)
    ensures es == [] || Chain(id, es) in cs
  {
    if cs == [] then [] else if cs[0].id == id then cs[0].entries else Lookup(cs[1..], id)
  }

  ghost predicate Distinct(cs: seq<Chain>) {
    forall i, j :: 0 <= i < j < |cs| ==> cs[i].id != cs[j].id
  }

  ghost predicate AllRegular(cs: seq<Chain>) {
    forall c :: c in cs ==> Sorted(c.entries) && Regular(c.entries)
  }

  ghost predicate Stored(cs: seq<Chain>) {
    Distinct(cs) && AllRegular(cs)
  }

  // ------------------------------------------------------------------- evicting

  function CleanChain(es: seq<Entry>): (r: seq<Entry>)
  {
    if es == [] then [] else Clean(es, Oldest(es))
  }

  /** One pass of cleanBySize: every chain loses its oldest block, and an empty bucket is
      deleted. */
  function Pass(cs: seq<Chain>): (r: seq<Chain>)
  {
    if cs == [] then [] else PassOne(cs[0]) + Pass(cs[1..])
  }

  function PassOne(c: Chain): (r: seq<Chain>)
  {
    var es := CleanChain(c.entries);
    if es == [] then [] else [Chain(c.id, es)]
  }

  /** `after` is `before` without the blocks older than some block. */
  ghost predicate Kept(before: seq<Entry>, after: seq<Entry>) {
    exists n: nat :: after == From(before, n)
  }

  lemma KeptSame(es: seq<Entry>)
    ensures Kept(es, es)
  {
    FromAll(es, 0);
  }

  lemma KeptChain(a: seq<Entry>, b: seq<Entry>, c: seq<Entry>)
    requires Kept(a, b) && Kept(b, c)
    ensures Kept(a, c)
  {
    var m: nat :| b == From(a, m);
    var n: nat :| c == From(b, n);
    FromFrom(a, m, n);
  }

  lemma CleanChainKept(es: seq<Entry>)
    requires Ordered(es)
    ensures Kept(es, CleanChain(es)) && Ordered(CleanChain(es))
  {
    if es == [] {
      KeptSame(es);
    } else {
      OldestOfAll(es);
      CleanIsFrom(es, Oldest(es));
      CleanKeepsOrder(es, Oldest(es), BlockOrder());
    }
  }

  lemma CleanChainStored(es: seq<Entry>)
    requires Sorted(es) && Regular(es)
    ensures Sorted(CleanChain(es)) && Regular(CleanChain(es))
    ensures es != [] ==> Total(CleanChain(es)) < Total(es)
  {
    if es != [] {
      CleanKeepsOrder(es, Oldest(es), Order());
      OldestStarts(es);
      CleanShrinks(es, Oldest(es));
    }
  }

  ghost predicate HasID(cs: seq<Chain>, id: ChainID) {
    exists i :: 0 <= i < |cs| && cs[i].id == id
  }

  lemma {:induction false} LookupMissing(cs: seq<Chain>, id: ChainID)
    requires !HasID(cs, id)
    ensures Lookup(cs, id) == []
    decreases |cs|
  {
    if cs != [] {
      assert cs[0].id != id;
      forall i | 0 <= i < |cs[1..]| ensures cs[1..][i].id != id {
        assert cs[1..][i] == cs[i + 1];
      }
      LookupMissing(cs[1..], id);
    }
  }

  /** A pass adds no bucket. */
  lemma {:induction false} PassIDs(cs: seq<Chain>, id: ChainID)
    requires !HasID(cs, id)
    ensures !HasID(Pass(cs), id)
    decreases |cs|
  {
    if cs != [] {
      assert cs[0].id != id;
      forall i | 0 <= i < |cs[1..]| ensures cs[1..][i].id != id {
        assert cs[1..][i] == cs[i + 1];
      }
      PassIDs(cs[1..], id);
      forall i | 0 <= i < |Pass(cs)| ensures Pass(cs)[i].id != id {
        var k := |Pass(cs)| - |Pass(cs[1..])|;
        assert i >= k ==> Pass(cs)[i] == Pass(cs[1..])[i - k];
      }
    }
  }

  /** Each chain is cleaned on its own. */
  lemma {:induction false} PassLookup(cs: seq<Chain>, id: ChainID)
    requires Distinct(cs)
    ensures Lookup(Pass(cs), id) == CleanChain(Lookup(cs, id))
    decreases |cs|
  {
    if cs != [] {
      PassLookup(cs[1..], id);
      PassIDs(cs[1..], cs[0].id);
      LookupMissing(Pass(cs[1..]), cs[0].id);
      var es := CleanChain(cs[0].entries);
      if es != [] {
        assert Pass(cs)[0] == Chain(cs[0].id, es) && Pass(cs)[1..] == Pass(cs[1..]);
      } else {
        assert Pass(cs) == Pass(cs[1..]);
      }
    }
  }

  lemma {:induction false} PassStored(cs: seq<Chain>)
    requires Stored(cs)
    ensures Stored(Pass(cs))
    decreases |cs|
  {
    if cs != [] {
      assert cs[0] in cs;
      PassStored(cs[1..]);
      CleanChainStored(cs[0].entries);
      PassIDs(cs[1..], cs[0].id);
      assert CleanChain(cs[0].entries) == [] ==> Pass(cs) == Pass(cs[1..]);
    }
  }

  lemma {:induction false} PassShrinks(cs: seq<Chain>)
    requires AllRegular(cs)
    ensures TotalAll(Pass(cs)) <= TotalAll(cs)
    ensures TotalAll(cs) > 0 ==> TotalAll(Pass(cs)) < TotalAll(cs)
    decreases |cs|
  {
    if cs != [] {
      assert cs[0] in cs;
      PassShrinks(cs[1..]);
      CleanChainStored(cs[0].entries);
      assert Pass(cs) == if CleanChain(cs[0].entries) == [] then Pass(cs[1..])
                         else [Chain(cs[0].id, CleanChain(cs[0].entries))] + Pass(cs[1..]);
    }
  }

  method CleanPass(cs: seq<Chain>) returns (r: seq<Chain>, freed: nat)
    requires AllRegular(cs)
    ensures r == Pass(cs) && TotalAll(r) + freed == TotalAll(cs)
  {
    r, freed := [], 0;
    var todo := cs;
    while todo != []
      invariant AllRegular(todo) && r + Pass(todo) == Pass(cs)
      invariant TotalAll(r) + freed + TotalAll(todo) == TotalAll(cs)
      decreases |todo|
    {
      var kept, f := CleanOne(todo[0]);
      TotalAllConcat(r, kept);
      Regroup(r, kept, Pass(todo[1..]));
      r, freed, todo := r + kept, freed + f, todo[1..];
    }
  }

  method CleanOne(c: Chain) returns (kept: seq<Chain>, freed: nat)
    requires Sorted(c.entries) && Regular(c.entries)
    ensures kept == PassOne(c) && TotalAll(kept) + freed == Total(c.entries)
  {
    var es;
    es, freed := CleanBucket(c.entries);
    kept := if es == [] then [] else [Chain(c.id, es)];
    assert kept != [] ==> kept[1..] == [];
  }

  method CleanBucket(es: seq<Entry>) returns (rest: seq<Entry>, freed: nat)
    requires Sorted(es) && Regular(es)
    ensures rest == CleanChain(es) && Total(rest) + freed == Total(es)
  {
    var oldest := OldestIndex(es);
    if oldest == -1 {
      return es, 0;
    }
    rest, freed := RemoveOldest(es, oldest);
  }

  lemma {:induction false} TotalAllConcat(a: seq<Chain>, b: seq<Chain>)
    ensures TotalAll(a + b) == TotalAll(a) + TotalAll(b)
    decreases |a|
  {
    if a == [] {
      assert a + b == b;
    } else {
      assert (a + b)[1..] == a[1..] + b;
      TotalAllConcat(a[1..], b);
    }
  }

  /** Eviction never removes a block of a chain while it keeps an older one. */
  ghost predicate AllKept(before: seq<Chain>, after: seq<Chain>) {
    forall id :: Ordered(Lookup(before, id)) ==>
      Kept(Lookup(before, id), Lookup(after, id)) && Ordered(Lookup(after, id))
  }

  lemma SameKept(cs: seq<Chain>)
    ensures AllKept(cs, cs)
  {
    forall id | Ordered(Lookup(cs, id)) ensures Kept(Lookup(cs, id), Lookup(cs, id)) {
      KeptSame(Lookup(cs, id));
    }
  }

  lemma PassKept(before: seq<Chain>, cs: seq<Chain>)
    requires AllKept(before, cs) && Distinct(cs)
    ensures AllKept(before, Pass(cs))
  {
    forall id | Ordered(Lookup(before, id))
      ensures Kept(Lookup(before, id), Lookup(Pass(cs), id)) && Ordered(Lookup(Pass(cs), id))
    {
      PassLookup(cs, id);
      CleanChainKept(Lookup(cs, id));
      KeptChain(Lookup(before, id), Lookup(cs, id), CleanChain(Lookup(cs, id)));
    }
  }

  /** The storage after `k` passes. */
  function Iterate(cs: seq<Chain>, k: nat): (r: seq<Chain>)
  {
    if k == 0 then cs else Pass(Iterate(cs, k - 1))
  }

  ghost predicate Above(before: seq<Chain>, j: nat, threshold: nat) {
    TotalAll(Iterate(before, j)) > threshold
  }

  /** With fewer than `k` passes the storage is still above the threshold. */
  ghost predicate AllNeeded(before: seq<Chain>, k: nat, threshold: nat) {
    forall j :: 0 <= j < k ==> Above(before, j, threshold)
  }

  /** `after` is what the least number of passes that reaches the threshold leaves of
      `before`. */
  ghost predicate LeastPasses(before: seq<Chain>, after: seq<Chain>, threshold: nat) {
    TotalAll(after) <= threshold && exists k: nat :: after == Iterate(before, k) && AllNeeded(before, k, threshold)
  }

  /** Passes only take entries away. */
  lemma {:induction false} IterateTakes(cs: seq<Chain>, k: nat, id: ChainID)
    requires Stored(cs)
    ensures Stored(Iterate(cs, k))
    ensures forall e :: e in Lookup(Iterate(cs, k), id) ==> e in Lookup(cs, id)
    decreases k
  {
    if k > 0 {
      IterateTakes(cs, k - 1, id);
      PassStored(Iterate(cs, k - 1));
      PassLookup(Iterate(cs, k - 1), id);
    }
  }

  lemma EvictedTakes(before: seq<Chain>, after: seq<Chain>, maxSize: nat, id: ChainID)
    requires Stored(before) && Evicted(before, after, maxSize)
    ensures forall e :: e in Lookup(after, id) ==> e in Lookup(before, id)
  {
    if after != before {
      var k: nat :| after == Iterate(before, k);
      IterateTakes(before, k, id);
    }
  }

  lemma {:induction false} OneMorePass(before: seq<Chain>, k: nat, m: nat, threshold: nat)
    requires m == k + 1 && AllNeeded(before, k, threshold) && Above(before, k, threshold)
    ensures Iterate(before, m) == Pass(Iterate(before, k)) && AllNeeded(before, m, threshold)
  {
    forall j | 0 <= j < m ensures Above(before, j, threshold) {
      assert j < k || j == k;
    }
  }

  /** The passes of cleanBySize, down to the threshold. */
  method Passes(before: seq<Chain>, total: nat, threshold: nat) returns (cs: seq<Chain>, size: nat)
    requires Stored(before) && total == TotalAll(before)
    ensures Stored(cs) && size == TotalAll(cs) && AllKept(before, cs) && LeastPasses(before, cs, threshold)
  {
    cs, size := before, total;
    ghost var k := 0;
    SameKept(before);
    while size > threshold
      invariant Stored(cs) && size == TotalAll(cs) && AllKept(before, cs)
      invariant cs == Iterate(before, k) && AllNeeded(before, k, threshold)
      decreases size
    {
      PassStored(cs);
      PassShrinks(cs);
      PassKept(before, cs);
      ghost var m := k + 1;
      OneMorePass(before, k, m, threshold);
      var freed;
      cs, freed := CleanPass(cs);
      size, k := size - freed, m;
    }
  }

  /** calculateSize. */
  method Sum(cs: seq<Chain>) returns (size: nat)
    ensures size == TotalAll(cs)
  {
    size := 0;
    var i := 0;
    assert cs[0..] == cs;
    while i < |cs|
      invariant 0 <= i <= |cs| && size + TotalAll(cs[i..]) == TotalAll(cs)
    {
      assert cs[i..][1..] == cs[i + 1..];
      var es, n := cs[i].entries, 0;
      var j := 0;
      assert es[0..] == es;
      while j < |es|
        invariant 0 <= j <= |es| && n + Total(es[j..]) == Total(es)
      {
        assert es[j..][1..] == es[j + 1..];
        n := n + |es[j].value|;
        j := j + 1;
      }
      size := size + n;
      i := i + 1;
    }
  }

  // ------------------------------------------------------------------- appending

  /** Bucket.Put for a key that is not there yet. */
  function Put(es: seq<Entry>, e: Entry): (r: seq<Entry>)
    ensures forall x :: x in r <==> x in es || x == e
  {
    var i := Seek(es, KeyOf(e));
    assert es == es[..i] + es[i..];
    es[..i] + [e] + es[i..]
  }

  /** Bucket.Get finds the key. */
  predicate Has(es: seq<Entry>, id: InstanceID, version: uint64, index: BlockIndex) {
    exists i :: 0 <= i < |es| && es[i].id == id && es[i].version == version && es[i].index == index
  }

  lemma PutSorted(es: seq<Entry>, e: Entry)
    requires Sorted(es) && Regular(es) && !Has(es, e.id, e.version, e.index)
    requires e.version < MAX_VERSION && e.value != []
    ensures Sorted(Put(es, e)) && Regular(Put(es, e))
  {
    var i := Seek(es, KeyOf(e));
    forall j | 0 <= j < |es| ensures if j < i then Order()(es[j], e) else Order()(e, es[j]) {
      PutSide(es, e, j);
    }
    InsertPairwise(es, i, e, Order());
  }

  lemma PutTotal(es: seq<Entry>, e: Entry)
    ensures Total(Put(es, e)) == Total(es) + |e.value|
  {
    var i := Seek(es, KeyOf(e));
    InsertTotal(es[..i], e, es[i..]);
    assert es == es[..i] + es[i..];
  }

  lemma InsertTotal(a: seq<Entry>, e: Entry, b: seq<Entry>)
    ensures Total(a + [e] + b) == Total(a + b) + |e.value|
  {
    TotalConcat(a, [e]);
    TotalConcat(a + [e], b);
    TotalConcat(a, b);
    assert Total([e]) == |e.value|;
  }

  lemma PutSide(es: seq<Entry>, e: Entry, j: nat)
    requires Sorted(es) && !Has(es, e.id, e.version, e.index) && j < |es|
    ensures if j < Seek(es, KeyOf(e)) then Before(es[j], e) else Before(e, es[j])
  {
    var i := Seek(es, KeyOf(e));
    if j < i {
      KeyOrder(es[j], e);
    } else {
      NotBefore(es[i], e);
      if j > i {
        assert Order()(es[i], es[j]);
        BeforeTransitive(e, es[i], es[j]);
      }
    }
  }

  lemma NotBefore(a: Entry, b: Entry)
    requires !Less(KeyOf(a), KeyOf(b))
    requires a.id != b.id || a.version != b.version || a.index != b.index
    ensures Before(b, a)
  {
    KeyOrder(a, b);
    LessTotal(a.id, b.id);
  }

  lemma BeforeTransitive(a: Entry, b: Entry, c: Entry)
    requires Before(a, b) && Before(b, c)
    ensures Before(a, c)
  {
    if Less(a.id, b.id) && Less(b.id, c.id) {
      LessTransitive(a.id, b.id, c.id);
    }
  }

  lemma InsertPairwise(es: seq<Entry>, i: nat, e: Entry, order: Relation)
    requires i <= |es| && Pairwise(es, order)
    requires forall j :: 0 <= j < |es| ==> if j < i then order(es[j], e) else order(e, es[j])
    ensures Pairwise(es[..i] + [e] + es[i..], order)
  {
    var r := es[..i] + [e] + es[i..];
    assert forall k :: 0 <= k < |r| ==> r[k] == if k < i then es[k] else if k == i then e else es[k - 1];
  }

  ghost predicate Stores(es: seq<Entry>, index: BlockIndex, c: Change) {
    |c.id| == 32 && !Has(es, c.id, c.version, index)
  }

  /** The first `n` changes of the block have instance IDs of 32 bytes, and keys that
      neither the bucket nor an earlier change has. */
  ghost predicate Fresh(es: seq<Entry>, index: BlockIndex, changes: seq<Change>, n: nat)
    requires n <= |changes|
  {
    && (forall k :: 0 <= k < n ==> Stores(es, index, changes[k]))
    && (forall j, k :: 0 <= j < k < n ==>
          changes[j].id != changes[k].id || changes[j].version != changes[k].version)
  }

  /** The entry is one of the first `n` changes, stored for the block. */
  ghost predicate Added(e: Entry, index: BlockIndex, changes: seq<Change>, n: nat)
    requires n <= |changes|
  {
    exists k :: 0 <= k < n && StoredAs(e, index, changes[k])
  }

  ghost predicate StoredAs(e: Entry, index: BlockIndex, c: Change) {
    e.id == c.id && e.version == c.version && e.index == index && e.value == c.value
  }

  /** `r` holds the entries of `es` and the first `n` changes, and nothing else. */
  ghost predicate Holds(r: seq<Entry>, es: seq<Entry>, index: BlockIndex, changes: seq<Change>, n: nat)
    requires n <= |changes|
  {
    forall e :: e in r <==> e in es || Added(e, index, changes, n)
  }

  ghost predicate Usual(changes: seq<Change>) {
    forall c :: c in changes ==> c.version < MAX_VERSION && c.value != []
  }

  /** The transaction of append: it stops at the first change that cannot be stored. */
  method StoreChanges(es: seq<Entry>, index: BlockIndex, changes: seq<Change>)
    returns (ok: bool, r: seq<Entry>, added: nat)
    requires Sorted(es) && Regular(es) && Usual(changes)
    ensures ok <==> Fresh(es, index, changes, |changes|)
    ensures ok ==> Sorted(r) && Regular(r) && Total(r) == Total(es) + added
    ensures ok ==> Holds(r, es, index, changes, |changes|)
  {
    r, added := es, 0;
    var i := 0;
    while i < |changes|
      invariant 0 <= i <= |changes| && Fresh(es, index, changes, i)
      invariant Sorted(r) && Regular(r) && Total(r) == Total(es) + added
      invariant Holds(r, es, index, changes, i)
    {
      var c := changes[i];
      assert c in changes;
      if |c.id| != 32 {
        assert !Stores(es, index, changes[i]);
        return false, es, 0;
      }
      HasIsNotFresh(r, es, index, changes, i);
      if Has(r, c.id, c.version, index) {
        return false, es, 0;
      }
      var e := Entry(c.id, c.version, index, c.value);
      PutSorted(r, e);
      PutTotal(r, e);
      r := Put(r, e);
      added := added + |c.value|;
      i := i + 1;
    }
    ok := true;
  }

  lemma HasIsNotFresh(r: seq<Entry>, es: seq<Entry>, index: BlockIndex, changes: seq<Change>, i: nat)
    requires i < |changes| && Fresh(es, index, changes, i) && Holds(r, es, index, changes, i) && |changes[i].id| == 32
    ensures Has(r, changes[i].id, changes[i].version, index) <==> !Fresh(es, index, changes, i + 1)
    ensures Fresh(es, index, changes, |changes|) ==> Fresh(es, index, changes, i + 1)
  {
    var c := changes[i];
    if Has(r, c.id, c.version, index) {
      var k :| 0 <= k < |r| && r[k].id == c.id && r[k].version == c.version && r[k].index == index;
      assert r[k] in r;
      if r[k] in es {
        assert !Stores(es, index, changes[i]);
      }
    } else {
      forall k | 0 <= k < |es| ensures es[k].id != c.id || es[k].version != c.version || es[k].index != index {
        assert es[k] in r;
      }
      assert Stores(es, index, changes[i]);
      forall j | 0 <= j < i ensures changes[j].id != c.id || changes[j].version != c.version {
        assert Stores(es, index, changes[j]);
        var e := Entry(changes[j].id, changes[j].version, index, changes[j].value);
        assert StoredAs(e, index, changes[j]);
        assert e in r;
      }
    }
  }

  // ----------------------------------------------------------------- the storage

  /** Bucket of a chain, created if it is missing. */
  function Replace(cs: seq<Chain>, id: ChainID, es: seq<Entry>): (r: seq<Chain>)
  {
    if cs == [] then [Chain(id, es)]
    else if cs[0].id == id then [Chain(id, es)] + cs[1..]
    else [cs[0]] + Replace(cs[1..], id, es)
  }

  lemma {:induction false} ReplaceLookup(cs: seq<Chain>, id: ChainID, es: seq<Entry>, other: ChainID)
    ensures Lookup(Replace(cs, id, es), other) == if other == id then es else Lookup(cs, other)
    ensures TotalAll(Replace(cs, id, es)) == TotalAll(cs) - Total(Lookup(cs, id)) + Total(es)
    decreases |cs|
  {
    if cs == [] {
      assert Replace(cs, id, es)[1..] == [];
    } else if cs[0].id == id {
      assert Replace(cs, id, es)[1..] == cs[1..];
    } else {
      ReplaceLookup(cs[1..], id, es, other);
      assert Replace(cs, id, es)[1..] == Replace(cs[1..], id, es);
    }
  }

  lemma {:induction false} ReplaceIDs(cs: seq<Chain>, id: ChainID, es: seq<Entry>, other: ChainID)
    requires !HasID(cs, other) && other != id
    ensures !HasID(Replace(cs, id, es), other)
    decreases |cs|
  {
    if cs != [] && cs[0].id != id {
      assert forall i :: 0 <= i < |cs[1..]| ==> cs[1..][i] == cs[i + 1];
      ReplaceIDs(cs[1..], id, es, other);
      assert cs[0].id != other;
    }
  }

  lemma {:induction false} ReplaceStored(cs: seq<Chain>, id: ChainID, es: seq<Entry>)
    requires Stored(cs) && Sorted(es) && Regular(es)
    ensures Stored(Replace(cs, id, es))
    decreases |cs|
  {
    if cs == [] {
      assert [Chain(id, es)] + [] == [Chain(id, es)];
    } else {
      assert cs[0] in cs;
      if cs[0].id == id {
      } else {
        ReplaceStored(cs[1..], id, es);
        ReplaceIDs(cs[1..], id, es, cs[0].id);
      }
    }
  }

  /** What an eviction promises: nothing happens below the limit; otherwise the size drops to
      four fifths of it with as few passes as possible, and every chain keeps its newest
      blocks. */
  ghost predicate Evicted(before: seq<Chain>, after: seq<Chain>, maxSize: nat) {
    if TotalAll(before) < maxSize || maxSize == 0 then after == before
    else LeastPasses(before, after, maxSize * 4 / 5) && AllKept(before, after)
  }

  /** In numbers: below the limit, or without one, nothing changes; else the storage becomes at
      most four fifths full, and with fewer passes it would be fuller than that. */
  lemma EvictedExactly(before: seq<Chain>, after: seq<Chain>, maxSize: nat)
    requires Evicted(before, after, maxSize)
    ensures maxSize == 0 || TotalAll(before) < maxSize ==> after == before
    ensures maxSize > 0 && TotalAll(before) >= maxSize ==> 5 * TotalAll(after) <= 4 * maxSize
    ensures exists k: nat :: after == Iterate(before, k) && forall j :: 0 <= j < k ==> 5 * TotalAll(Iterate(before, j)) > 4 * maxSize
  {
    if maxSize == 0 || TotalAll(before) < maxSize {
      assert after == Iterate(before, 0);
    } else {
      var k: nat :| after == Iterate(before, k) && AllNeeded(before, k, maxSize * 4 / 5);
      forall j | 0 <= j < k ensures 5 * TotalAll(Iterate(before, j)) > 4 * maxSize {
        assert Above(before, j, maxSize * 4 / 5);
      }
    }
  }

  class StateChangeStorage {
    var chains: seq<Chain>
    var size: nat
    var maxSize: nat

    ghost predicate Ok()
      reads this
    {
      Stored(chains) && size == TotalAll(chains)
    }

    /** A node that starts on the buckets it left on disk. */
    constructor (onDisk: seq<Chain>, maxSize: nat)
      requires Stored(onDisk)
      ensures Ok() && chains == onDisk && this.maxSize == maxSize
    {
      var n := Sum(onDisk);
      chains, this.maxSize, size := onDisk, maxSize, n;
    }

    method CleanBySize()
      requires Ok()
      modifies this
      ensures Ok() && maxSize == old(maxSize)
      ensures Evicted(old(chains), chains, maxSize)
    {
      if size < maxSize || maxSize == 0 {
        return;
      }
      var cs, n := Passes(chains, size, maxSize * 4 / 5);
      chains, size := cs, n;
    }

    /** append: evict, then store all changes of the block or none. */
    method Append(chain: ChainID, index: BlockIndex, changes: seq<Change>)
      returns (ok: bool, ghost cleaned: seq<Chain>)
      requires Ok() && Usual(changes)
      modifies this
      ensures Ok() && maxSize == old(maxSize) && Evicted(old(chains), cleaned, maxSize)
      ensures ok <==> Fresh(Lookup(cleaned, chain), index, changes, |changes|)
      ensures !ok ==> chains == cleaned
      ensures ok ==> Holds(Lookup(chains, chain), Lookup(cleaned, chain), index, changes, |changes|)
      ensures ok ==> forall other :: other != chain ==> Lookup(chains, other) == Lookup(cleaned, other)
    {
      CleanBySize();
      cleaned := chains;
      var es, added;
      ok, es, added := StoreChanges(Lookup(chains, chain), index, changes);
      if ok {
        ReplaceStored(chains, chain, es);
        forall other { ReplaceLookup(chains, chain, es, other); }
        ReplaceLookup(chains, chain, es, chain);
        chains, size := Replace(chains, chain, es), size + added;
      }
    }

    /** getAll: the history of an instance, or an error for an ID of another length. */
    method History(id: Bytes, chain: ChainID) returns (r: Option<seq<Entry>>)
      requires Ok()
      ensures r == if |id| == 32 then Some(OfInstance(Lookup(chains, chain), id)) else None
    {
      if |id| != 32 {
        return None;
      }
      var es := GetAll(Lookup(chains, chain), id);
      r := Some(es);
    }
  }

}
