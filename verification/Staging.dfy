/** Staging copies of the global state and the verified store.

    A staging trie answers reads from an overlay and computes its root by replaying
    its instruction list on a scratch copy of the source. The two agree: at every
    moment it stands for one tree, `Staged`, which `Commit` then installs. */
module Staging {
  import opened Types
  import opened Merkle
  import opened Batch
  import TrieStore

  class StagingTrie {
    const source: TrieStore.Trie
    var overlay: map<InstanceID, Body>
    var deleted: set<InstanceID>
    var instrs: seq<Write>

    /** The tree this staging trie stands for. */
    ghost function Staged(): (t: Tree)
      requires source.Ok()
      reads this, source
    {
      WriteAll(source.cfg, source.tree, instrs)
    }

    ghost predicate Ok()
      reads this, source
    {
      && source.Ok()
      && overlay.Keys !! deleted
      && Contents(Staged()) == (Contents(source.tree) - deleted) + overlay
    }

    constructor (source: TrieStore.Trie)
      requires source.Ok()
      ensures Ok() && this.source == source && Staged() == source.tree && instrs == []
    {
      this.source := source;
      overlay, deleted, instrs := map[], {}, [];
      new;
      assert (Contents(source.tree) - {}) + map[] == Contents(source.tree);
    }

    method Clone() returns (copy: StagingTrie)
      requires Ok()
      ensures fresh(copy) && copy.Ok() && copy.source == source && copy.Staged() == Staged()
    {
      copy := new StagingTrie(source);
      copy.overlay, copy.deleted, copy.instrs := overlay, deleted, instrs;
    }

    method Get(key: InstanceID) returns (v: Option<Body>)
      requires Ok()
      ensures v == GetKey(source.cfg, Staged(), key)
    {
      if key in deleted {
        return None;
      }
      if key in overlay {
        return Some(overlay[key]);
      }
      v := source.Get(key);
    }

    method Set(key: InstanceID, value: Body)
      requires Ok()
      modifies this
      ensures Ok() && Staged() == SetKey(source.cfg, old(Staged()), key, value)
    {
      SetView(Contents(source.tree), overlay, deleted, key, value);
      deleted := deleted - {key};
      overlay := overlay[key := value];
      assert (instrs + [Put(key, value)])[..|instrs|] == instrs;
      instrs := instrs + [Put(key, value)];
    }

    method Delete(key: InstanceID)
      requires Ok()
      modifies this
      ensures Ok() && Staged() == DelKey(source.cfg, old(Staged()), key)
    {
      DropView(Contents(source.tree), overlay, deleted, key);
      deleted := deleted + {key};
      overlay := overlay - {key};
      assert (instrs + [Drop(key)])[..|instrs|] == instrs;
      instrs := instrs + [Drop(key)];
    }

    /** An unknown operation stops the batch and what came before it stays. */
    method Batch(ops: seq<Op>) returns (ok: bool)
      requires Ok()
      modifies this
      ensures Ok() && Staged() == WriteAll(source.cfg, old(Staged()), WritesOf(ops))
      ensures ok <==> Unknown !in ops
    {
      var i := 0;
      ghost var start := Staged();
      assert ops[0..] == ops;
      while i < |ops|
        invariant 0 <= i <= |ops| && Ok()
        invariant Unknown !in ops[..i]
        invariant WriteAll(source.cfg, start, WritesOf(ops)) == WriteAll(source.cfg, Staged(), WritesOf(ops[i..]))
      {
        WritesStep(source.cfg, Staged(), ops, i);
        match ops[i] {
          case Unknown => return false;
          case Nop =>
          case Apply(w) =>
            match w {
              case Put(key, value) => Set(key, value);
              case Drop(key) => Delete(key);
            }
        }
        i := i + 1;
      }
      ok := true;
    }

    /** GetRoot: a dry run of the pending instructions on a copy of the bucket. */
    method GetRoot() returns (root: Digest)
      requires Ok()
      ensures root == Hash(source.cfg.nonce, Staged())
    {
      var scratch := new TrieStore.Trie.Copy(source);
      scratch.Replay(instrs);
      root := scratch.root;
    }

    method Commit()
      requires Ok()
      modifies this, source
      ensures Ok() && source.tree == old(Staged()) && Staged() == old(Staged())
    {
      source.Replay(instrs);
      overlay, deleted, instrs := map[], {}, [];
      assert (Contents(source.tree) - {}) + map[] == Contents(source.tree);
    }
  }

  /** stateTrie: the persistent trie with the block index and protocol version that
      its database holds as metadata. */
  class StateTrie {
    var trie: TrieStore.Trie
    var index: int
    var version: int

    ghost predicate Ok()
      reads this, trie
    {
      trie.Ok()
    }

    constructor (cfg: Config)
      requires Collisionless(cfg)
      ensures Ok() && trie.cfg == cfg && trie.tree == NewTrie() && index == -1
    {
      trie := new TrieStore.Trie(cfg);
      index, version := -1, 0;
    }

    /** VerifiedStoreAll runs in one database transaction: a batch error or another
        root than the expected one leaves tree, index and version untouched. */
    method VerifiedStoreAll(ops: seq<Op>, index: int, version: int, expected: Option<Digest>) returns (ok: bool)
      requires Ok()
      modifies this
      ensures Ok() && trie.cfg == old(trie.cfg)
      ensures
        var t := WriteAll(trie.cfg, old(trie.tree), WritesOf(ops));
        && (ok <==> Unknown !in ops && (expected.Some? ==> expected.value == Hash(trie.cfg.nonce, t)))
        && (ok ==> trie.tree == t && this.index == index && this.version == version)
      ensures !ok ==> trie == old(trie) && trie.tree == old(trie.tree)
                      && this.index == old(this.index) && this.version == old(this.version)
    {
      var tx := new TrieStore.Trie.Copy(trie);
      var batch := new StagingTrie(tx);
      ok := batch.Batch(ops);
      if !ok {
        return;
      }
      batch.Commit();
      if expected.Some? && tx.root != expected.value {
        return false;
      }
      trie := tx;
      this.index, this.version := index, version;
    }
  }

  lemma SetView<K, V>(base: map<K, V>, overlay: map<K, V>, deleted: set<K>, key: K, value: V)
    ensures ((base - deleted) + overlay)[key := value] == (base - (deleted - {key})) + overlay[key := value]
  {
  }

  lemma DropView<K, V>(base: map<K, V>, overlay: map<K, V>, deleted: set<K>, key: K)
    ensures ((base - deleted) + overlay) - {key} == (base - (deleted + {key})) + (overlay - {key})
  {
  }
}
