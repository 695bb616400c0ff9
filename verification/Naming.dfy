/** The naming contract: names for instances, in a linked list that never loses one. */
module Naming {
  import opened Types

  /** The ID the list ends with. */
  function ZeroID(): (id: InstanceID)
  {
    seq(ID_LENGTH, _ => 0)
  }

  datatype Entry = Entry(id: InstanceID, prev: InstanceID, removed: bool)

  /** The naming instance's pointer, and the entries it ever created. */
  datatype State = State(latest: InstanceID, entries: map<InstanceID, Entry>)

  /** A command names an instance; `darc` is the darc the trie has for it, None if there is
      no such instance. */
  datatype Command =
    | Add(id: InstanceID, darc: Option<Bytes>, name: Bytes)
    | Remove(id: InstanceID, darc: Option<Bytes>, name: Bytes)
    | Unknown

  /** SHA-256, or any other function. */
  type Digest = Bytes -> InstanceID

  function Preimage(darc: Bytes, name: Bytes): (b: Bytes)
  {
    darc + ['/' as int as byte] + name
  }

  function KeyOf(h: Digest, darc: Bytes, name: Bytes): (k: InstanceID)
  {
    h(Preimage(darc, name))
  }

  /** Two names under darcs of the same length, on which the digest does not collide, share a
      key only if they are the same. */
  lemma KeysApart(h: Digest, d: Bytes, n: Bytes, d': Bytes, n': Bytes)
    requires |d| == |d'|
    requires h(Preimage(d, n)) == h(Preimage(d', n')) ==> Preimage(d, n) == Preimage(d', n')
    ensures KeyOf(h, d, n) == KeyOf(h, d', n') <==> d == d' && n == n'
  {
    if KeyOf(h, d, n) == KeyOf(h, d', n') {
      var a, b := Preimage(d, n), Preimage(d', n');
      assert a[..|d|] == d && b[..|d|] == d';
      assert a[|d| + 1..] == n && b[|d| + 1..] == n';
    }
  }

  /** Under darcs of different lengths other names can have the same preimage. */
  lemma KeysShared(h: Digest, d: Bytes, n: Bytes, m: Bytes)
    ensures KeyOf(h, d, Preimage(n, m)) == KeyOf(h, Preimage(d, n), m)
  {
    assert Preimage(d, Preimage(n, m)) == Preimage(Preimage(d, n), m);
  }

  /** The command is an add (a remove) that gets as far as looking up its key. */
  predicate Adds(h: Digest, c: Command, key: InstanceID) {
    c.Add? && c.darc.Some? && c.name != [] && KeyOf(h, c.darc.value, c.name) == key
  }

  predicate Removes(h: Digest, c: Command, key: InstanceID) {
    c.Remove? && c.darc.Some? && c.name != [] && KeyOf(h, c.darc.value, c.name) == key
  }

  function Spawn(): (s: State)
  {
    State(ZeroID(), map[])
  }

  /** Invoke, and the state changes it returns applied; None is an error. */
  function Invoke(h: Digest, s: State, c: Command): (r: Option<State>)
  {
    match c
    case Add(id, darc, name) =>
      if darc.None? || name == [] then None
      else
        var key := KeyOf(h, darc.value, name);
        if key in s.entries then None
        else Some(State(key, s.entries[key := Entry(id, s.latest, false)]))
    case Remove(_, darc, name) =>
      if darc.None? || name == [] then None
      else
        var key := KeyOf(h, darc.value, name);
        if key !in s.entries || s.entries[key].removed then None
        else Some(s.(entries := s.entries[key := s.entries[key].(removed := true)]))
    case Unknown => None
  }

  function Step(h: Digest, s: State, c: Command): (r: State)
  {
    match Invoke(h, s, c)
    case Some(next) => next
    case None => s
  }

  /** The contract after a run of commands; a refused one leaves it as it was. */
  function Run(h: Digest, cs: seq<Command>): (s: State)
  {
    if cs == [] then Spawn() else Step(h, Run(h, cs[..|cs| - 1]), cs[|cs| - 1])
  }

  /** ResolveInstanceID. */
  function Resolve(h: Digest, s: State, darc: Bytes, name: Bytes): (r: Option<InstanceID>)
  {
    var key := KeyOf(h, darc, name);
    if darc == [] || key !in s.entries || s.entries[key].removed then None else Some(s.entries[key].id)
  }

  // -------------------------------------------------------------- what a run means

  /** Position of the first add for the key; the number of commands if there is none. */
  function FirstAdd(h: Digest, cs: seq<Command>, key: InstanceID): (i: nat)
    ensures i <= |cs|
    ensures forall j :: 0 <= j < i ==> !Adds(h, cs[j], key)
    ensures i < |cs| ==> Adds(h, cs[i], key)
  {
    if cs == [] || Adds(h, cs[0], key) then 0 else 1 + FirstAdd(h, cs[1..], key)
  }

  ghost predicate RemovedLater(h: Digest, cs: seq<Command>, key: InstanceID) {
    exists j :: FirstAdd(h, cs, key) < j < |cs| && Removes(h, cs[j], key)
  }

  lemma FirstAddSnoc(h: Digest, cs: seq<Command>, c: Command, key: InstanceID)
    ensures
      var i, j := FirstAdd(h, cs, key), FirstAdd(h, cs + [c], key);
      j == if i < |cs| then i else if Adds(h, c, key) then i else i + 1
  {
    var i, j := FirstAdd(h, cs, key), FirstAdd(h, cs + [c], key);
    assert forall k :: 0 <= k < |cs| ==> (cs + [c])[k] == cs[k];
    assert (cs + [c])[|cs|] == c;
    assert j > i ==> !Adds(h, (cs + [c])[i], key);
  }

  lemma RemovedLaterSnoc(h: Digest, cs: seq<Command>, c: Command, key: InstanceID)
    ensures RemovedLater(h, cs + [c], key) <==>
      RemovedLater(h, cs, key) || (FirstAdd(h, cs, key) < |cs| && Removes(h, c, key))
  {
    FirstAddSnoc(h, cs, c, key);
    var i := FirstAdd(h, cs, key);
    assert forall k :: 0 <= k < |cs| ==> (cs + [c])[k] == cs[k];
    if RemovedLater(h, cs, key) {
      var j :| i < j < |cs| && Removes(h, cs[j], key);
      assert Removes(h, (cs + [c])[j], key);
    }
    if i < |cs| && Removes(h, c, key) {
      assert Removes(h, (cs + [c])[|cs|], key);
    }
  }

  /** The entry of a key, read off the commands. */
  ghost predicate EntryOf(h: Digest, cs: seq<Command>, key: InstanceID, e: Option<Entry>) {
    var i := FirstAdd(h, cs, key);
    if i == |cs| then e.None?
    else e.Some? && e.value.id == cs[i].id && (e.value.removed <==> RemovedLater(h, cs, key))
  }

  ghost function At(s: State, key: InstanceID): (e: Option<Entry>)
  {
    if key in s.entries then Some(s.entries[key]) else None
  }

  lemma {:induction false} RunEntries(h: Digest, cs: seq<Command>, key: InstanceID)
    ensures EntryOf(h, cs, key, At(Run(h, cs), key))
    decreases |cs|
  {
    if cs != [] {
      var front, c := cs[..|cs| - 1], cs[|cs| - 1];
      assert cs == front + [c];
      RunEntries(h, front, key);
      FirstAddSnoc(h, front, c, key);
      RemovedLaterSnoc(h, front, c, key);
      StepAt(h, Run(h, front), c, key);
    }
  }

  /** What a command does to the entry of a key. */
  lemma StepAt(h: Digest, s: State, c: Command, key: InstanceID)
    ensures
      var e, e' := At(s, key), At(Step(h, s, c), key);
      if e.None? && Adds(h, c, key) then e' == Some(Entry(c.id, s.latest, false))
      else if e.Some? && Removes(h, c, key) then e' == Some(e.value.(removed := true))
      else e' == e
  {
  }

  /** A name resolves exactly if it was added and not removed since, and to the instance it
      was first added for, however often it was added or removed again. */
  lemma ResolveExactly(h: Digest, cs: seq<Command>, darc: Bytes, name: Bytes)
    requires darc != []
    ensures
      var key := KeyOf(h, darc, name);
      var i := FirstAdd(h, cs, key);
      Resolve(h, Run(h, cs), darc, name) ==
        if i < |cs| && !RemovedLater(h, cs, key) then Some(cs[i].id) else None
  {
    RunEntries(h, cs, KeyOf(h, darc, name));
  }

  /** In particular: a new name that is added resolves to its instance, and not any more once
      it is removed. */
  lemma AddThenRemove(h: Digest, cs: seq<Command>, id: InstanceID, darc: Bytes, name: Bytes, other: InstanceID)
    requires darc != [] && name != []
    requires forall i :: 0 <= i < |cs| && cs[i].Add? && cs[i].darc.Some? ==> h(Preimage(cs[i].darc.value, cs[i].name)) != h(Preimage(darc, name))
    ensures Resolve(h, Run(h, cs), darc, name) == None
    ensures Resolve(h, Run(h, cs + [Add(id, Some(darc), name)]), darc, name) == Some(id)
    ensures Resolve(h, Run(h, cs + [Add(id, Some(darc), name)] + [Command.Remove(other, Some(darc), name)]), darc, name) == None
  {
    var key := KeyOf(h, darc, name);
    var add, remove := Add(id, Some(darc), name), Command.Remove(other, Some(darc), name);
    ResolveExactly(h, cs, darc, name);
    FirstAddSnoc(h, cs, add, key);
    RemovedLaterSnoc(h, cs, add, key);
    ResolveExactly(h, cs + [add], darc, name);
    assert (cs + [add])[|cs|] == add;
    FirstAddSnoc(h, cs + [add], remove, key);
    RemovedLaterSnoc(h, cs + [add], remove, key);
    ResolveExactly(h, cs + [add] + [remove], darc, name);
  }

  /** Once removed, a name stays removed over every continuation of the run. */
  lemma RemovedForever(h: Digest, cs: seq<Command>, more: seq<Command>, darc: Bytes, name: Bytes)
    requires RemovedLater(h, cs, KeyOf(h, darc, name))
    ensures Resolve(h, Run(h, cs + more), darc, name) == None
  {
    RemovedStays(h, cs, more, KeyOf(h, darc, name));
    RunEntries(h, cs + more, KeyOf(h, darc, name));
  }

  lemma {:induction false} RemovedStays(h: Digest, cs: seq<Command>, more: seq<Command>, key: InstanceID)
    requires RemovedLater(h, cs, key)
    ensures RemovedLater(h, cs + more, key)
    decreases |more|
  {
    if more == [] {
      assert cs + more == cs;
    } else {
      var front, c := more[..|more| - 1], more[|more| - 1];
      RemovedStays(h, cs, front, key);
      RemovedLaterSnoc(h, cs + front, c, key);
      assert cs + front + [c] == cs + more;
    }
  }

  // ------------------------------------------------------------------ the list

  /** The keys that were added, the latest first. */
  function Added(h: Digest, cs: seq<Command>): (ks: seq<InstanceID>)
  {
    if cs == [] then []
    else
      var front, c := cs[..|cs| - 1], cs[|cs| - 1];
      if c.Add? && c.darc.Some? && c.name != [] && FirstAdd(h, front, KeyOf(h, c.darc.value, c.name)) == |front|
      then [KeyOf(h, c.darc.value, c.name)] + Added(h, front)
      else Added(h, front)
  }

  /** From `from`, the links visit exactly these keys, in this order, and end at zero. */
  ghost predicate Visits(entries: map<InstanceID, Entry>, from: InstanceID, ks: seq<InstanceID>)
    decreases |ks|
  {
    if ks == [] then from == ZeroID()
    else
      && from == ks[0] != ZeroID()
      && from in entries
      && Visits(entries, entries[from].prev, ks[1..])
  }

  ghost predicate NoRepeat(ks: seq<InstanceID>) {
    forall i, j :: 0 <= i < j < |ks| ==> ks[i] != ks[j]
  }

  /** The links only matter for the keys they visit. */
  lemma {:induction false} VisitsFrame(a: map<InstanceID, Entry>, b: map<InstanceID, Entry>, from: InstanceID, ks: seq<InstanceID>)
    requires Visits(a, from, ks)
    requires forall k :: k in ks ==> k in a ==> k in b && a[k].prev == b[k].prev
    ensures Visits(b, from, ks)
    decreases |ks|
  {
    if ks != [] {
      assert from in ks;
      VisitsFrame(a, b, a[from].prev, ks[1..]);
    }
  }

  /** The list from the contract's pointer visits every entry once. */
  ghost predicate Listed(s: State, ks: seq<InstanceID>) {
    && Visits(s.entries, s.latest, ks)
    && NoRepeat(ks)
    && (forall k :: k in s.entries <==> k in ks)
  }

  /** The command adds a new name. */
  predicate AddsNew(h: Digest, s: State, c: Command) {
    c.Add? && c.darc.Some? && c.name != [] && KeyOf(h, c.darc.value, c.name) !in s.entries
  }

  lemma StepListed(h: Digest, s: State, c: Command, ks: seq<InstanceID>)
    requires Listed(s, ks) && (AddsNew(h, s, c) ==> KeyOf(h, c.darc.value, c.name) != ZeroID())
    ensures Listed(Step(h, s, c), if AddsNew(h, s, c) then [KeyOf(h, c.darc.value, c.name)] + ks else ks)
  {
    if AddsNew(h, s, c) {
      var key := KeyOf(h, c.darc.value, c.name);
      ListOneMore(s, ks, key, Entry(c.id, s.latest, false));
    } else {
      VisitsFrame(s.entries, Step(h, s, c).entries, s.latest, ks);
    }
  }

  /** A new entry that points to the latest one goes to the front of the list. */
  lemma ListOneMore(s: State, ks: seq<InstanceID>, key: InstanceID, e: Entry)
    requires Listed(s, ks) && key !in s.entries && key != ZeroID() && e.prev == s.latest
    ensures Listed(State(key, s.entries[key := e]), [key] + ks)
  {
    var entries := s.entries[key := e];
    VisitsFrame(s.entries, entries, s.latest, ks);
    assert ([key] + ks)[1..] == ks;
  }

  lemma {:induction false} VisitsNoZero(entries: map<InstanceID, Entry>, from: InstanceID, ks: seq<InstanceID>)
    requires Visits(entries, from, ks)
    ensures ZeroID() !in ks
    decreases |ks|
  {
    if ks != [] {
      VisitsNoZero(entries, entries[from].prev, ks[1..]);
      assert ks == [ks[0]] + ks[1..];
    }
  }

  /** After every run the list visits every name that was ever added, removed or not, the
      latest first and once each, and nothing else, exactly if none of them hashed to the ID
      that ends the list. */
  lemma {:induction false} ListsEveryName(h: Digest, cs: seq<Command>)
    ensures Listed(Run(h, cs), Added(h, cs)) <==> ZeroID() !in Added(h, cs)
    decreases |cs|
  {
    if Listed(Run(h, cs), Added(h, cs)) {
      VisitsNoZero(Run(h, cs).entries, Run(h, cs).latest, Added(h, cs));
    } else if cs != [] && ZeroID() !in Added(h, cs) {
      var front, c := cs[..|cs| - 1], cs[|cs| - 1];
      assert forall k :: k in Added(h, front) ==> k in Added(h, cs);
      ListsEveryName(h, front);
      if c.Add? && c.darc.Some? {
        RunEntries(h, front, KeyOf(h, c.darc.value, c.name));
      }
      StepListed(h, Run(h, front), c, Added(h, front));
    }
  }

  /** A key is in the list exactly if some command added it. */
  lemma {:induction false} AddedExactly(h: Digest, cs: seq<Command>, key: InstanceID)
    ensures key in Added(h, cs) <==> exists i :: 0 <= i < |cs| && Adds(h, cs[i], key)
    decreases |cs|
  {
    if cs != [] {
      var front, c := cs[..|cs| - 1], cs[|cs| - 1];
      AddedExactly(h, front, key);
      assert forall i :: 0 <= i < |front| ==> front[i] == cs[i];
      if Adds(h, c, key) {
        assert Adds(h, cs[|front|], key);
        var i := FirstAdd(h, front, key);
        assert i < |front| ==> Adds(h, front[i], key);
      }
    }
  }
}
