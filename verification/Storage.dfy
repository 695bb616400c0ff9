/** The history of state changes: one byte-sorted bucket per skipchain, keyed by
    instance, version and block, with eviction of the oldest blocks when it grows too
    big. */
module Storage {
  import opened Types
  import opened Encoding

  type ChainID = Bytes

  const MAX_VERSION: uint64 := TWO_TO_THE_64 - 1
  const TWO_TO_THE_63 := 0x8000_0000_0000_0000

  /** A non-negative int64: the index of a block. */
  type BlockIndex = n: int | 0 <= n < TWO_TO_THE_63

  /** A stored pair: the parts of its key, and its encoded value. */
  datatype Entry = Entry(id: InstanceID, version: uint64, index: BlockIndex, value: Bytes)

  // --------------------------------------------------------------------- the keys

  /** key: the instance, then version and block index in big-endian order. */
  function Key(id: InstanceID, version: uint64, index: BlockIndex): (k: Bytes)
  {
    Pow256Of8();
    id + EncodeBE(version, 8) + EncodeBE(index, 8)
  }

  function KeyOf(e: Entry): (k: Bytes)
  {
    Key(e.id, e.version, e.index)
  }

  /** keyOfLast: the instance followed by eight bytes 0xff. */
  function KeyOfLast(id: InstanceID): (k: Bytes)
  {
    id + [0xff, 0xff, 0xff, 0xff, 0xff, 0xff, 0xff, 0xff]
  }

  ghost predicate Before(a: Entry, b: Entry) {
    || Less(a.id, b.id)
    || (a.id == b.id && (a.version < b.version || (a.version == b.version && a.index < b.index)))
  }

  /** The byte order of the keys is the order by instance, version and block. */
  lemma KeyOrder(a: Entry, b: Entry)
    ensures Less(KeyOf(a), KeyOf(b)) <==> Before(a, b)
    ensures KeyOf(a) == KeyOf(b) <==> a.id == b.id && a.version == b.version && a.index == b.index
  {
    Pow256Of8();
    var va, vb, ia, ib := EncodeBE(a.version, 8), EncodeBE(b.version, 8), EncodeBE(a.index, 8), EncodeBE(b.index, 8);
    BEOrder(a.version, b.version, 8);
    BEOrder(a.index, b.index, 8);
    LessConcat(a.id + va, ia, b.id + vb, ib);
    LessConcat(a.id, va, b.id, vb);
    EqualConcat(a.id + va, ia, b.id + vb, ib);
    EqualConcat(a.id, va, b.id, vb);
  }

  lemma EqualConcat(a: Bytes, a': Bytes, b: Bytes, b': Bytes)
    requires |a| == |b|
    ensures a + a' == b + b' <==> a == b && a' == b'
  {
    assert (a + a')[..|a|] == a && (b + b')[..|a|] == b;
    assert (a + a')[|a|..] == a' && (b + b')[|a|..] == b';
  }

  /** Seeking past an instance skips its versions below 2^64 - 1, and nothing more. */
  lemma KeyOfLastOrder(e: Entry, id: InstanceID)
    requires e.version < MAX_VERSION
    ensures Less(KeyOf(e), KeyOfLast(id)) <==> e.id == id || Less(e.id, id)
  {
    Pow256Of8();
    var ones: Bytes := [0xff, 0xff, 0xff, 0xff, 0xff, 0xff, 0xff, 0xff];
    var v, i := EncodeBE(e.version, 8), EncodeBE(e.index, 8);
    assert KeyOf(e) == e.id + (v + i);
    LessConcat(e.id, v + i, id, ones);
    LargestBE();
    BEOrder(e.version, MAX_VERSION, 8);
    LessConcat(v, i, ones, []);
    assert ones + [] == ones;
  }

  /** The hop to the next instance moves on exactly if the entry under the cursor does not
      have the largest version there is. */
  lemma HopMovesOn(e: Entry)
    ensures Less(KeyOf(e), KeyOfLast(e.id)) <==> e.version != MAX_VERSION
  {
    if e.version < MAX_VERSION {
      KeyOfLastOrder(e, e.id);
    } else {
      Pow256Of8();
      var ones: Bytes := [0xff, 0xff, 0xff, 0xff, 0xff, 0xff, 0xff, 0xff];
      var i := EncodeBE(e.index, 8);
      LargestBE();
      assert KeyOf(e) == e.id + (ones + i) && KeyOfLast(e.id) == e.id + (ones + []);
      LessConcat(e.id, ones + i, e.id, ones + []);
      LessTotal(e.id, e.id);
      LessConcat(ones, i, ones, []);
      LessTotal(ones, ones);
    }
  }

  lemma LargestBE()
    requires MAX_VERSION < Pow256(8)
    ensures EncodeBE(MAX_VERSION, 8) == [0xff, 0xff, 0xff, 0xff, 0xff, 0xff, 0xff, 0xff]
  {
    AllOnes(8);
    assert Ones(8) == [0xff, 0xff, 0xff, 0xff, 0xff, 0xff, 0xff, 0xff];
    Pow256Of8();
  }

  function Ones(n: nat): (b: Bytes)
  {
    if n == 0 then [] else [0xff] + Ones(n - 1)
  }

  lemma {:induction false} AllOnes(n: nat)
    ensures EncodeBE(Pow256(n) - 1, n) == Ones(n)
    decreases n
  {
    if n > 0 {
      var p := Pow256(n - 1);
      AllOnes(n - 1);
      assert Pow256(n) - 1 == p * 255 + (p - 1);
      DivUnique(Pow256(n) - 1, p, 255, p - 1);
    }
  }

  // ------------------------------------------------------------------ one bucket

  type Relation = (Entry, Entry) -> bool

  ghost predicate Pairwise(es: seq<Entry>, r: Relation) {
    forall i, j :: 0 <= i < j < |es| ==> r(es[i], es[j])
  }

  ghost function Order(): (r: Relation)
  {
    (a, b) => Before(a, b)
  }

  ghost predicate Sorted(es: seq<Entry>) {
    Pairwise(es, Order())
  }

  /** What cleaning relies on: versions that KeyOfLast can skip, and values of at least
      one byte. */
  ghost predicate Regular(es: seq<Entry>) {
    forall e :: e in es ==> e.version < MAX_VERSION && e.value != []
  }

  /** Within an instance a higher version is never of an older block. */
  ghost function BlockOrder(): (r: Relation)
  {
    (a: Entry, b: Entry) => a.id == b.id ==> a.index <= b.index
  }

  ghost predicate Ordered(es: seq<Entry>) {
    Pairwise(es, BlockOrder())
  }

  function Total(es: seq<Entry>): (n: nat)
  {
    if es == [] then 0 else |es[0].value| + Total(es[1..])
  }

  lemma {:induction false} TotalConcat(a: seq<Entry>, b: seq<Entry>)
    ensures Total(a + b) == Total(a) + Total(b)
    decreases |a|
  {
    if a == [] {
      assert a + b == b;
    } else {
      assert (a + b)[1..] == a[1..] + b;
      TotalConcat(a[1..], b);
    }
  }

  /** The entries of block `n` and later. */
  function From(es: seq<Entry>, n: nat): (r: seq<Entry>)
    ensures forall e :: e in r <==> e in es && e.index >= n
  {
    if es == [] then []
    else if es[0].index >= n then [es[0]] + From(es[1..], n)
    else From(es[1..], n)
  }

  lemma {:induction false} FromConcat(a: seq<Entry>, b: seq<Entry>, n: nat)
    ensures From(a + b, n) == From(a, n) + From(b, n)
    decreases |a|
  {
    if a == [] {
      assert a + b == b;
    } else {
      assert (a + b)[1..] == a[1..] + b;
      FromConcat(a[1..], b, n);
    }
  }

  lemma {:induction false} FromAll(es: seq<Entry>, n: nat)
    requires forall e :: e in es ==> e.index >= n
    ensures From(es, n) == es
    decreases |es|
  {
    if es != [] {
      assert es[0] in es;
      FromAll(es[1..], n);
    }
  }

  lemma {:induction false} FromFrom(es: seq<Entry>, m: nat, n: nat)
    ensures From(From(es, m), n) == From(es, if m < n then n else m)
    decreases |es|
  {
    if es != [] {
      FromFrom(es[1..], m, n);
      if es[0].index >= m {
        assert From(es, m)[1..] == From(es[1..], m);
      }
    }
  }

  /** Cursor.Seek: the first position whose key is not below the target. */
  function Seek(es: seq<Entry>, target: Bytes): (i: nat)
    ensures i <= |es|
    ensures forall j :: 0 <= j < i ==> Less(KeyOf(es[j]), target)
    ensures i < |es| ==> !Less(KeyOf(es[i]), target)
  {
    if es == [] || !Less(KeyOf(es[0]), target) then 0 else 1 + Seek(es[1..], target)
  }

  /** How many entries at the front belong to the first entry's instance. */
  function Lead(es: seq<Entry>): (n: nat)
    requires es != []
    ensures 0 < n <= |es|
    ensures forall j :: 0 <= j < n ==> es[j].id == es[0].id
    ensures n < |es| ==> es[n].id != es[0].id
  {
    if |es| == 1 || es[1].id != es[0].id then 1 else 1 + Lead(es[1..])
  }

  /** The first position behind an instance. */
  function Past(es: seq<Entry>, id: InstanceID): (i: nat)
    ensures i <= |es|
    ensures forall j :: 0 <= j < i ==> es[j].id == id || Less(es[j].id, id)
    ensures i < |es| ==> es[i].id != id && !Less(es[i].id, id)
  {
    if es == [] || !(es[0].id == id || Less(es[0].id, id)) then 0 else 1 + Past(es[1..], id)
  }

  /** The first position that is not before an instance. */
  function FirstOf(es: seq<Entry>, id: InstanceID): (i: nat)
    ensures i <= |es|
    ensures forall j :: 0 <= j < i ==> Less(es[j].id, id)
    ensures i < |es| ==> !Less(es[i].id, id)
  {
    if es == [] || !Less(es[0].id, id) then 0 else 1 + FirstOf(es[1..], id)
  }

  /** Seeking the last possible key of an instance lands behind it. */
  lemma {:induction false} SeekIsPast(es: seq<Entry>, id: InstanceID)
    requires Regular(es)
    ensures Seek(es, KeyOfLast(id)) == Past(es, id)
    decreases |es|
  {
    if es != [] {
      assert es[0] in es;
      KeyOfLastOrder(es[0], id);
      SeekIsPast(es[1..], id);
    }
  }

  /** Seeking an instance ID lands on its first entry. */
  lemma {:induction false} SeekIsFirstOf(es: seq<Entry>, id: InstanceID)
    ensures Seek(es, id) == FirstOf(es, id)
    decreases |es|
  {
    if es != [] {
      KeyOfFirstOrder(es[0], id);
      SeekIsFirstOf(es[1..], id);
    }
  }

  lemma KeyOfFirstOrder(e: Entry, id: InstanceID)
    ensures Less(KeyOf(e), id) <==> Less(e.id, id)
  {
    Pow256Of8();
    var tail := EncodeBE(e.version, 8) + EncodeBE(e.index, 8);
    assert KeyOf(e) == e.id + tail && id == id + [];
    LessConcat(e.id, tail, id, []);
  }

  /** From an entry, the hop passes exactly the rest of its instance. */
  lemma PastIsLead(es: seq<Entry>, k: nat)
    requires Sorted(es) && k < |es|
    ensures Past(es, es[k].id) == k + Lead(es[k..])
  {
    var r := k + Lead(es[k..]);
    forall j | 0 <= j < |es|
      ensures es[j].id == es[k].id || Less(es[j].id, es[k].id) <==> j < r
    {
      SideOfInstance(es, k, j);
    }
  }

  /** So hopping to the next instance is the seek the scans make from entry `k`. */
  lemma HopIsSeek(es: seq<Entry>, k: nat)
    requires Sorted(es) && Regular(es) && k < |es|
    ensures Seek(es, KeyOfLast(es[k].id)) == k + Lead(es[k..])
  {
    PastIsLead(es, k);
    SeekIsPast(es, es[k].id);
  }

  lemma SideOfInstance(es: seq<Entry>, k: nat, j: nat)
    requires Sorted(es) && k < |es| && j < |es|
    ensures es[j].id == es[k].id || Less(es[j].id, es[k].id) <==> j < k + Lead(es[k..])
  {
    var r := k + Lead(es[k..]);
    if j < k {
      assert Order()(es[j], es[k]);
    } else if j < r {
      assert es[j] == es[k..][j - k];
    } else {
      assert es[r] == es[k..][r - k];
      assert Order()(es[k], es[r]);
      LessTotal(es[k].id, es[r].id);
      if j > r {
        assert Order()(es[r], es[j]);
        if es[j].id != es[r].id {
          LessTransitive(es[k].id, es[r].id, es[j].id);
        }
      }
      LessTotal(es[j].id, es[k].id);
    }
  }

  // ------------------------------------------------------------- cleaning a bucket

  function Smaller(a: int, b: int): (c: int)
  {
    if a == -1 || (b != -1 && b < a) then b else a
  }

  /** The oldest block among the first entries of the instances, or -1. */
  function Oldest(es: seq<Entry>): (n: int)
    ensures n == -1 <==> es == []
    ensures n >= -1
    decreases |es|
  {
    if es == [] then -1 else Smaller(es[0].index, Oldest(es[Lead(es)..]))
  }

  /** What the deleting scan leaves: in every instance it deletes from the front while the
      block is the oldest one. */
  function Clean(es: seq<Entry>, oldest: nat): (r: seq<Entry>)
    ensures forall e :: e in r ==> e in es
    decreases |es|
  {
    if es == [] then []
    else if es[0].index == oldest then Clean(es[1..], oldest)
    else es[..Lead(es)] + Clean(es[Lead(es)..], oldest)
  }

  lemma SuffixSorted(es: seq<Entry>, i: nat)
    requires Sorted(es) && Regular(es) && i <= |es|
    ensures Sorted(es[i..]) && Regular(es[i..])
  {
    forall j, k | 0 <= j < k < |es[i..]| ensures Order()(es[i..][j], es[i..][k]) {
      assert es[i..][j] == es[i + j] && es[i..][k] == es[i + k];
    }
  }

  lemma OldestAt(es: seq<Entry>, i: nat)
    requires Sorted(es) && Regular(es) && i < |es|
    ensures
      var j := Seek(es, KeyOfLast(es[i].id));
      i < j && Oldest(es[i..]) == Smaller(es[i].index, Oldest(es[j..]))
  {
    HopIsSeek(es, i);
    var todo := es[i..];
    assert todo[Lead(todo)..] == es[i + Lead(todo)..];
  }

  /** The first scan of cleanBySize: from an entry, the cursor seeks the last possible key of
      its instance. */
  method OldestIndex(es: seq<Entry>) returns (oldest: int)
    requires Sorted(es) && Regular(es)
    ensures oldest == Oldest(es)
  {
    oldest := -1;
    var i := 0;
    while i < |es|
      invariant 0 <= i <= |es|
      invariant Smaller(oldest, Oldest(es[i..])) == Oldest(es) && oldest >= -1
    {
      var idx := es[i].index;
      if oldest == -1 || oldest > idx {
        oldest := idx;
      }
      OldestAt(es, i);
      i := Seek(es, KeyOfLast(es[i].id));
    }
  }

  /** The deleting scan of cleanBySize: the cursor stands between `rest` and `todo`, and seeks
      forward from there. */
  method RemoveOldest(es: seq<Entry>, oldest: nat) returns (rest: seq<Entry>, freed: nat)
    requires Sorted(es) && Regular(es)
    ensures rest == Clean(es, oldest)
    ensures Total(rest) + freed == Total(es)
  {
    rest, freed := [], 0;
    var todo := es;
    while todo != []
      invariant Sorted(todo) && Regular(todo)
      invariant rest + Clean(todo, oldest) == Clean(es, oldest)
      invariant Total(rest) + Total(todo) + freed == Total(es)
      decreases |todo|
    {
      if todo[0].index == oldest {
        freed := freed + |todo[0].value|;
        SuffixSorted(todo, 1);
        todo := todo[1..];
      } else {
        HopIsSeek(todo, 0);
        assert todo[0..] == todo;
        var n := Seek(todo, KeyOfLast(todo[0].id));
        SuffixSorted(todo, n);
        SplitTotal(rest, todo, n);
        Regroup(rest, todo[..n], Clean(todo[n..], oldest));
        rest := rest + todo[..n];
        todo := todo[n..];
      }
    }
  }

  lemma Regroup<T>(a: seq<T>, b: seq<T>, c: seq<T>)
    ensures a + (b + c) == a + b + c
  {
  }

  lemma SplitTotal(done: seq<Entry>, todo: seq<Entry>, n: nat)
    requires n <= |todo|
    ensures Total(done + todo[..n]) + Total(todo[n..]) == Total(done) + Total(todo)
  {
    TotalConcat(done, todo[..n]);
    TotalConcat(todo[..n], todo[n..]);
    assert todo == todo[..n] + todo[n..];
  }

  /** Some instance begins with an entry of block `n`. */
  ghost predicate Starts(es: seq<Entry>, n: int)
    decreases |es|
  {
    es != [] && (es[0].index == n || Starts(es[Lead(es)..], n))
  }

  lemma {:induction false} OldestStarts(es: seq<Entry>)
    requires es != []
    ensures Starts(es, Oldest(es))
    decreases |es|
  {
    if es[Lead(es)..] != [] {
      OldestStarts(es[Lead(es)..]);
    }
  }

  lemma {:induction false} CleanShrinks(es: seq<Entry>, oldest: nat)
    ensures Total(Clean(es, oldest)) <= Total(es)
    ensures Starts(es, oldest) && Regular(es) ==> Total(Clean(es, oldest)) < Total(es)
    decreases |es|
  {
    if es != [] {
      if es[0].index == oldest {
        CleanShrinks(es[1..], oldest);
        assert es[0] in es;
      } else {
        var n := Lead(es);
        CleanShrinks(es[n..], oldest);
        SplitTotal([], es, n);
        TotalConcat(es[..n], Clean(es[n..], oldest));
        assert [] + es[..n] == es[..n];
      }
    }
  }

  lemma {:induction false} CleanKeepsOrder(es: seq<Entry>, oldest: nat, order: Relation)
    requires Pairwise(es, order)
    ensures Pairwise(Clean(es, oldest), order)
    decreases |es|
  {
    if es != [] {
      if es[0].index == oldest {
        CleanKeepsOrder(es[1..], oldest, order);
      } else {
        var n := Lead(es);
        CleanKeepsOrder(es[n..], oldest, order);
        PairwiseConcat(es, n, Clean(es[n..], oldest), order);
      }
    }
  }

  lemma PairwiseConcat(es: seq<Entry>, n: nat, r: seq<Entry>, order: Relation)
    requires n <= |es| && Pairwise(es, order) && Pairwise(r, order)
    requires forall e :: e in r ==> e in es[n..]
    ensures Pairwise(es[..n] + r, order)
  {
    forall i, j | 0 <= i < n && 0 <= j < |r| ensures order(es[i], r[j]) {
      assert r[j] in r;
      var k :| 0 <= k < |es[n..]| && es[n..][k] == r[j];
      assert es[n + k] == r[j];
    }
  }

  ghost predicate NoneOlder(es: seq<Entry>, n: int) {
    forall e :: e in es ==> n <= e.index
  }

  /** If versions order blocks, the first entries of the instances show the oldest block
      of all. */
  lemma {:induction false} OldestOfAll(es: seq<Entry>)
    requires Ordered(es)
    ensures NoneOlder(es, Oldest(es))
    decreases |es|
  {
    if es != [] {
      var n := Lead(es);
      OrderedTail(es, n);
      OldestOfAll(es[n..]);
      assert es == es[..n] + es[n..];
    }
  }

  lemma OrderedTail(es: seq<Entry>, n: nat)
    requires Ordered(es) && n <= |es|
    ensures Ordered(es[n..])
  {
  }

  /** If versions order blocks, the deleting scan removes exactly the oldest block. */
  lemma {:induction false} CleanIsFrom(es: seq<Entry>, oldest: nat)
    requires Ordered(es) && NoneOlder(es, oldest)
    ensures Clean(es, oldest) == From(es, oldest + 1)
    decreases |es|
  {
    if es != [] {
      if es[0].index == oldest {
        OrderedTail(es, 1);
        CleanIsFrom(es[1..], oldest);
      } else {
        OrderedTail(es, Lead(es));
        CleanIsFrom(es[Lead(es)..], oldest);
        assert es[0] in es;
        LaterFront(es, Lead(es), es[0].index, oldest + 1);
      }
    }
  }

  lemma LaterFront(es: seq<Entry>, k: nat, first: nat, n: nat)
    requires k <= |es| && n <= first && NoneOlder(es[..k], first)
    ensures From(es, n) == es[..k] + From(es[k..], n)
  {
    FromAll(es[..k], n);
    FromConcat(es[..k], es[k..], n);
    assert es == es[..k] + es[k..];
  }

  // ------------------------------------------------------------- reading a bucket

  function OfInstance(es: seq<Entry>, id: InstanceID): (r: seq<Entry>)
  {
    if es == [] then []
    else if es[0].id == id then [es[0]] + OfInstance(es[1..], id)
    else OfInstance(es[1..], id)
  }

  lemma {:induction false} OfInstanceConcat(a: seq<Entry>, b: seq<Entry>, id: InstanceID)
    ensures OfInstance(a + b, id) == OfInstance(a, id) + OfInstance(b, id)
    decreases |a|
  {
    if a == [] {
      assert a + b == b;
    } else {
      assert (a + b)[1..] == a[1..] + b;
      OfInstanceConcat(a[1..], b, id);
    }
  }

  /** In a sorted bucket the entries of an instance are sorted by version. */
  lemma {:induction false} InstanceByVersion(es: seq<Entry>, id: InstanceID)
    requires Sorted(es)
    ensures forall j, k :: 0 <= j < k < |OfInstance(es, id)| ==>
      OfInstance(es, id)[j].version <= OfInstance(es, id)[k].version
    ensures forall e :: e in OfInstance(es, id) <==> e in es && e.id == id
    decreases |es|
  {
    if es != [] {
      InstanceByVersion(es[1..], id);
      assert es == [es[0]] + es[1..];
      if es[0].id == id {
        forall e | e in OfInstance(es[1..], id) ensures es[0].version <= e.version {
          var k :| 0 <= k < |es[1..]| && es[1..][k] == e;
          assert Order()(es[0], es[k + 1]);
          LessTotal(id, id);
        }
      }
    }
  }

  lemma {:induction false} OfOther(es: seq<Entry>, id: InstanceID)
    requires forall e :: e in es ==> e.id != id
    ensures OfInstance(es, id) == []
    decreases |es|
  {
    if es != [] {
      assert es[0] in es;
      OfOther(es[1..], id);
    }
  }

  /** Behind the entries of an instance there is none of them in a sorted bucket. */
  lemma Behind(es: seq<Entry>, id: InstanceID, k: nat)
    requires Sorted(es) && k < |es| && es[k].id != id && !Less(es[k].id, id)
    ensures forall e :: e in es[k..] ==> e.id != id
  {
    LessTotal(es[k].id, id);
    forall j | k < j < |es| ensures es[j].id != id {
      assert Order()(es[k], es[j]);
      LessTotal(es[k].id, es[j].id);
    }
  }

  method SeekInstance(es: seq<Entry>, id: InstanceID) returns (i: nat)
    ensures i == FirstOf(es, id)
  {
    SeekIsFirstOf(es, id);
    i := Seek(es, id);
  }

  method SeekPast(es: seq<Entry>, id: InstanceID) returns (i: nat)
    requires Regular(es)
    ensures i == Past(es, id)
  {
    SeekIsPast(es, id);
    i := Seek(es, KeyOfLast(id));
  }

  /** getAll: from the first entry of the instance on, as long as the key has its prefix. */
  method GetAll(es: seq<Entry>, id: InstanceID) returns (r: seq<Entry>)
    requires Sorted(es)
    ensures r == OfInstance(es, id)
  {
    var i := SeekInstance(es, id);
    NoneBeforeFirst(es, id);
    r := [];
    while i < |es| && es[i].id == id
      invariant 0 <= i <= |es| && r == OfInstance(es[..i], id)
      invariant i < |es| ==> !Less(es[i].id, id)
    {
      NextOfInstance(es, id, i);
      r := r + [es[i]];
      i := i + 1;
    }
    RestIsOther(es, id, i);
  }

  lemma NoneBeforeFirst(es: seq<Entry>, id: InstanceID)
    ensures OfInstance(es[..FirstOf(es, id)], id) == []
  {
    LessTotal(id, id);
    OfOther(es[..FirstOf(es, id)], id);
  }

  lemma RestIsOther(es: seq<Entry>, id: InstanceID, i: nat)
    requires Sorted(es) && i <= |es| && (i < |es| ==> es[i].id != id && !Less(es[i].id, id))
    ensures OfInstance(es[..i], id) == OfInstance(es, id)
  {
    if i < |es| {
      Behind(es, id, i);
    }
    OfOther(es[i..], id);
    OfInstanceConcat(es[..i], es[i..], id);
    assert es == es[..i] + es[i..];
  }

  lemma NextOfInstance(es: seq<Entry>, id: InstanceID, i: nat)
    requires Sorted(es) && i < |es| && es[i].id == id
    ensures OfInstance(es[..i + 1], id) == OfInstance(es[..i], id) + [es[i]]
    ensures i + 1 < |es| ==> !Less(es[i + 1].id, id)
  {
    assert es[..i + 1] == es[..i] + [es[i]];
    OfInstanceConcat(es[..i], [es[i]], id);
    assert OfInstance([es[i]], id) == [es[i]];
    if i + 1 < |es| {
      assert Order()(es[i], es[i + 1]);
      LessTotal(id, es[i + 1].id);
    }
  }

  /** getLast: seek behind the instance and step back. */
  method GetLast(es: seq<Entry>, id: InstanceID) returns (r: Option<Entry>)
    requires Sorted(es) && Regular(es)
    ensures r == None <==> forall e :: e in es ==> e.id != id
    ensures r.Some? ==> r.value in es && r.value.id == id
    ensures r.Some? ==> forall e :: e in es && e.id == id ==> e.version <= r.value.version
  {
    var i := SeekPast(es, id);
    LastBeforePast(es, id);
    if i == 0 || es[i - 1].id != id {
      return None;
    }
    assert es[i - 1] in es;
    r := Some(es[i - 1]);
  }

  lemma LastBeforePast(es: seq<Entry>, id: InstanceID)
    requires Sorted(es)
    ensures forall e :: e in es && e.id == id ==> LastAt(es, e, Past(es, id))
  {
    forall e | e in es && e.id == id ensures LastAt(es, e, Past(es, id)) {
      var p :| 0 <= p < |es| && es[p] == e;
      StepBack(es, id, p);
    }
  }

  /** The entry before position `i` is of the same instance and no older. */
  ghost predicate LastAt(es: seq<Entry>, e: Entry, i: nat) {
    0 < i <= |es| && es[i - 1].id == e.id && e.version <= es[i - 1].version
  }

  lemma StepBack(es: seq<Entry>, id: InstanceID, p: nat)
    requires Sorted(es) && p < |es| && es[p].id == id
    ensures LastAt(es, es[p], Past(es, id))
  {
    var i := Past(es, id);
    if p < i - 1 {
      assert Order()(es[p], es[i - 1]);
      LessTotal(id, es[i - 1].id);
    }
  }
}
