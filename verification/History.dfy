/** Storing the history of executed blocks: a node whose storage refuses a block stops, so it
    matters exactly when the version numbers that the engine gives leave two changes of a
    block with the same key. */
module History {
  import opened Types
  import opened Merkle
  import opened Ledger
  import opened Storage
  import Counters
  import Versions
  import StateChanges

  /** The entries of a block's change list, each encoded with its position. */
  function Encoded(encode: (StateChange, nat) -> Bytes, scs: seq<StateChange>): (r: seq<StateChanges.Change>)
    ensures |r| == |scs|
  {
    seq(|scs|, i requires 0 <= i < |scs| => StateChanges.Change(scs[i].id, scs[i].version, encode(scs[i], i)))
  }

  /** A block on a state, with distinct signers, no generated instruction and no
      wrap-around. */
  ghost predicate Plain(env: Env, ids: set<string>, info: BlockInfo, t: Tree, txs: seq<TxResult>) {
    && Ready(env, t) && Counters.CountersApart(env, ids)
    && (forall tx :: tx in txs ==> Versions.Signs(tx.instrs, ids))
    && Versions.NoneGenerates(Block(env, info, t, txs).changes)
    && Versions.Room(env, ids, t, |Block(env, info, t, txs).changes|)
  }

  lemma FreshIsUnique(encode: (StateChange, nat) -> Bytes, scs: seq<StateChange>, es: seq<Entry>, index: BlockIndex)
    requires forall e :: e in es ==> e.index < index
    ensures StateChanges.Fresh(es, index, Encoded(encode, scs), |scs|) <==> Versions.UniqueKeys(scs)
  {
    var changes := Encoded(encode, scs);
    forall k | 0 <= k < |scs| ensures StateChanges.Stores(es, index, changes[k]) {
      var id: InstanceID := scs[k].id;
      assert changes[k].id == id;
      forall i | 0 <= i < |es| ensures es[i].index != index {
        assert es[i] in es;
      }
    }
    if StateChanges.Fresh(es, index, changes, |scs|) {
      forall i, j | 0 <= i < j < |scs| ensures scs[i].id != scs[j].id || scs[i].version != scs[j].version {
        assert changes[i].id != changes[j].id || changes[i].version != changes[j].version;
      }
    }
  }

  lemma UsualChanges(env: Env, ids: set<string>, info: BlockInfo, t: Tree, txs: seq<TxResult>, encode: (StateChange, nat) -> Bytes)
    requires Plain(env, ids, info, t, txs) && forall sc, n :: encode(sc, n) != []
    ensures StateChanges.Usual(Encoded(encode, Block(env, info, t, txs).changes))
  {
    var scs := Block(env, info, t, txs).changes;
    var changes := Encoded(encode, scs);
    forall c | c in changes ensures c.version < MAX_VERSION && c.value != [] {
      var i :| 0 <= i < |changes| && changes[i] == c;
      Versions.VersionsBelow(env, ids, info, t, txs, i);
    }
  }

  /** The end of updateTrieCallback: append stores all changes of a new block exactly if the
      lives of each instance fit, and otherwise none. */
  method StoreHistory(st: StateChanges.StateChangeStorage, chain: ChainID, index: BlockIndex, scs: seq<StateChange>,
                      encode: (StateChange, nat) -> Bytes,
                      ghost env: Env, ghost ids: set<string>, ghost info: BlockInfo, ghost t: Tree, ghost txs: seq<TxResult>)
    returns (ok: bool)
    requires st.Ok() && forall e :: e in StateChanges.Lookup(st.chains, chain) ==> e.index < index
    requires Plain(env, ids, info, t, txs) && scs == Block(env, info, t, txs).changes
    requires forall sc, n :: encode(sc, n) != []
    modifies st
    ensures st.Ok()
    ensures ok <==> Versions.EachFits(env, ids, info, t, txs)
    ensures ok ==> forall i :: 0 <= i < |scs| ==>
      Entry(scs[i].id, scs[i].version, index, encode(scs[i], i)) in StateChanges.Lookup(st.chains, chain)
  {
    var changes := Encoded(encode, scs);
    UsualChanges(env, ids, info, t, txs, encode);
    ghost var cleaned;
    ghost var before := st.chains;
    ok, cleaned := st.Append(chain, index, changes);
    StateChanges.EvictedTakes(before, cleaned, st.maxSize, chain);
    FreshIsUnique(encode, scs, StateChanges.Lookup(cleaned, chain), index);
    Versions.BlockKeysExactly(env, ids, info, t, txs);
    if ok {
      forall i | 0 <= i < |scs|
        ensures Entry(scs[i].id, scs[i].version, index, encode(scs[i], i)) in StateChanges.Lookup(st.chains, chain)
      {
        var e := Entry(scs[i].id, scs[i].version, index, encode(scs[i], i));
        assert StateChanges.StoredAs(e, index, changes[i]);
      }
    }
  }
}
