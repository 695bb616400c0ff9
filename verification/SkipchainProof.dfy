/** The proof a client gets: an inclusion proof in the trie and a path of forward links
    from a block it trusts to the block that holds the trie root. */
module SkipchainProof {
  import opened Types
  import opened Merkle
  import InclusionProof

  type BlockID = Bytes

  /** A roster, by its ID. */
  type Roster = Bytes

  datatype ForwardLink = ForwardLink(from: BlockID, to: BlockID, newRoster: Option<Roster>, msg: Bytes, sig: Bytes)

  datatype Header = Header(trieRoot: Option<Digest>)

  /** What the hash of a block covers; the header is None if it does not decode. */
  datatype Fixed = Fixed(index: nat, roster: Option<Roster>, scheme: nat, header: Option<Header>)

  datatype Block = Block(fixed: Fixed, hash: BlockID, links: seq<ForwardLink>)

  type DB = map<BlockID, Block>

  /** The cryptography: the hash of a block, the hash of a link, and whether a signature on
      a message verifies for a roster in a scheme. */
  datatype Crypto = Crypto(
    blockHash: Fixed -> BlockID,
    linkHash: (BlockID, BlockID, Option<Roster>) -> Bytes,
    check: (nat, Bytes, Bytes, Roster) -> bool)

  datatype Proof = Proof(inclusion: InclusionProof.Proof, links: seq<ForwardLink>, latest: Block)

  /** ForwardLink.VerifyWithScheme. */
  predicate Signed(c: Crypto, l: ForwardLink, roster: Roster, scheme: nat) {
    l.msg == c.linkHash(l.from, l.to, l.newRoster) && c.check(scheme, l.msg, l.sig, roster)
  }

  // ------------------------------------------------------------------ making one

  datatype Choice = Take(height: nat) | Missing | Inconsistent | Stuck

  /** The inner loop of NewProof, over the links below level `n` from the highest down. */
  function Choose(db: DB, b: Block, index: nat, n: nat): (c: Choice)
    requires n <= |b.links|
    ensures c.Take? ==> c.height < n && b.links[c.height].to in db
    ensures c.Take? ==> b.fixed.index < db[b.links[c.height].to].fixed.index <= index
  {
    if n == 0 then Stuck
    else
      var to := b.links[n - 1].to;
      if to !in db then if n == 1 then Missing else Choose(db, b, index, n - 1)
      else if db[to].fixed.index <= b.fixed.index then Inconsistent
      else if db[to].fixed.index <= index then Take(n - 1)
      else Choose(db, b, index, n - 1)
  }

  method ChooseLink(db: DB, b: Block, index: nat) returns (c: Choice)
    ensures c == Choose(db, b, index, |b.links|)
  {
    var n := |b.links|;
    while n > 0
      invariant 0 <= n <= |b.links|
      invariant Choose(db, b, index, n) == Choose(db, b, index, |b.links|)
    {
      var to := b.links[n - 1].to;
      if to !in db {
        if n == 1 {
          return Missing;
        }
      } else if db[to].fixed.index <= b.fixed.index {
        return Inconsistent;
      } else if db[to].fixed.index <= index {
        return Take(n - 1);
      }
      n := n - 1;
    }
    c := Stuck;
  }

  /** The loop makes no progress exactly if the lowest link leads to a stored block and
      every stored target is beyond the trie. */
  lemma {:induction false} StuckExactly(db: DB, b: Block, index: nat, n: nat)
    requires 0 < n <= |b.links| && b.fixed.index < index
    ensures Choose(db, b, index, n) == Stuck <==>
      b.links[0].to in db && forall h :: 0 <= h < n && b.links[h].to in db ==> db[b.links[h].to].fixed.index > index
    decreases n
  {
    if n > 1 {
      StuckExactly(db, b, index, n - 1);
    }
  }

  /** A link is taken only if every higher one is missing or leads beyond the trie. */
  lemma {:induction false} HighestTaken(db: DB, b: Block, index: nat, n: nat)
    requires n <= |b.links| && Choose(db, b, index, n).Take?
    ensures forall h :: Choose(db, b, index, n).height < h < n && b.links[h].to in db ==>
      db[b.links[h].to].fixed.index > index
    decreases n
  {
    if n > 0 && Choose(db, b, index, n) != Take(n - 1) {
      HighestTaken(db, b, index, n - 1);
    }
  }

  /** No block below the trie index gets the loop stuck. */
  ghost predicate NeverStuck(db: DB, index: nat) {
    forall id :: id in db && db[id].links != [] && db[id].fixed.index < index ==>
      Choose(db, db[id], index, |db[id].links|) != Stuck
  }

  ghost predicate LevelZero(db: DB) {
    forall id :: id in db && db[id].links != [] && db[id].links[0].to in db ==>
      db[db[id].links[0].to].fixed.index == db[id].fixed.index + 1
  }

  lemma LevelZeroNeverStuck(db: DB, index: nat)
    requires LevelZero(db)
    ensures NeverStuck(db, index)
  {
    forall id | id in db && db[id].links != [] && db[id].fixed.index < index
      ensures Choose(db, db[id], index, |db[id].links|) != Stuck
    {
      StuckExactly(db, db[id], index, |db[id].links|);
    }
  }

  datatype Walked = Path(links: seq<ForwardLink>, end: Block) | NoPath(reason: Choice)

  /** The outer loop of NewProof. */
  function Walk(db: DB, b: Block, index: nat): (r: Walked)
    requires b in db.Values && NeverStuck(db, index)
    decreases index - b.fixed.index
  {
    if b.links == [] || b.fixed.index >= index then Path([], b)
    else
      match Choose(db, b, index, |b.links|)
      case Take(h) =>
        var rest := Walk(db, db[b.links[h].to], index);
        if rest.Path? then rest.(links := [b.links[h]] + rest.links) else rest
      case other => NoPath(other)
  }

  /** The proof along a path; its first link stands for the block the client trusts. */
  function Assemble(inclusion: InclusionProof.Proof, id: BlockID, roster: Option<Roster>, index: nat, w: Walked): (r: Result)
  {
    if w.NoPath? then Failed(w.reason)
    else if w.end.fixed.index != index then WrongIndex
    else Ok(Proof(inclusion, [ForwardLink([], id, roster, [], [])] + w.links, w.end))
  }

  datatype Result = Ok(proof: Proof) | NoSkipchain | Failed(reason: Choice) | WrongIndex

  method NewProof(db: DB, inclusion: InclusionProof.Proof, index: nat, id: BlockID) returns (r: Result)
    requires NeverStuck(db, index)
    ensures r.NoSkipchain? <==> id !in db
    ensures id in db ==> r == Assemble(inclusion, id, db[id].fixed.roster, index, Walk(db, db[id], index))
  {
    if id !in db {
      return NoSkipchain;
    }
    var b := db[id];
    var first := ForwardLink([], id, b.fixed.roster, [], []);
    var links := [];
    while b.links != [] && b.fixed.index < index
      invariant b in db.Values
      invariant Walk(db, db[id], index) == Onward(links, Walk(db, b, index))
      decreases index - b.fixed.index
    {
      var c := ChooseLink(db, b, index);
      if !c.Take? {
        return Failed(c);
      }
      var link := b.links[c.height];
      links := links + [link];
      b := db[link.to];
    }
    if b.fixed.index != index {
      return WrongIndex;
    }
    assert links + [] == links;
    r := Ok(Proof(inclusion, [first] + links, b));
  }

  ghost function Onward(links: seq<ForwardLink>, w: Walked): (r: Walked)
  {
    if w.Path? then w.(links := links + w.links) else w
  }

  // --------------------------------------------------------------- verifying one

  datatype Verdict = Valid | BadHeader | BadTrieRoot | MissingLinks | Malformed | BadSkipchain | BadHash

  /** Where the links lead from block `id` and its roster, if each of them starts at the
      block reached so far and is signed by the roster in force there. */
  function Follow(c: Crypto, links: seq<ForwardLink>, id: BlockID, roster: Roster, scheme: nat): (r: Option<BlockID>)
  {
    if links == [] then Some(id)
    else
      var l := links[0];
      if !Signed(c, l, roster, scheme) || l.from != id then None
      else Follow(c, links[1..], l.to, if l.newRoster.Some? then l.newRoster.value else roster, scheme)
  }

  /** What a verification answers, given the roster and the ID of the first block. */
  function Judge(c: Crypto, p: Proof, roster: Option<Roster>, id: BlockID): (v: Verdict)
  {
    if p.latest.fixed.header.None? then BadHeader
    else if InclusionProof.GetRoot(p.inclusion) != p.latest.fixed.header.value.trieRoot then BadTrieRoot
    else if p.links == [] then MissingLinks
    else if roster.None? then Malformed
    else
      match Follow(c, p.links[1..], id, roster.value, p.latest.fixed.scheme)
      case None => BadSkipchain
      case Some(last) => if c.blockHash(p.latest.fixed) != last then BadHash else Valid
  }

  /** Proof.Verify: the first link only brings the roster of the block it starts at. */
  method Verify(c: Crypto, p: Proof, sbID: BlockID) returns (v: Verdict)
    ensures v == Judge(c, p, if p.links == [] then None else p.links[0].newRoster, sbID)
  {
    if p.latest.fixed.header.None? {
      return BadHeader;
    }
    if InclusionProof.GetRoot(p.inclusion) != p.latest.fixed.header.value.trieRoot {
      return BadTrieRoot;
    }
    if p.links == [] {
      return MissingLinks;
    }
    if p.links[0].newRoster.None? {
      return Malformed;
    }
    var scheme := p.latest.fixed.scheme;
    var publics := p.links[0].newRoster.value;
    var id := sbID;
    var todo := p.links[1..];
    while todo != []
      invariant Follow(c, p.links[1..], sbID, p.links[0].newRoster.value, scheme) == Follow(c, todo, id, publics, scheme)
      decreases |todo|
    {
      var l := todo[0];
      if !Signed(c, l, publics, scheme) {
        return BadSkipchain;
      }
      if l.from != id {
        return BadSkipchain;
      }
      id := l.to;
      if l.newRoster.Some? {
        publics := l.newRoster.value;
      }
      todo := todo[1..];
    }
    v := if c.blockHash(p.latest.fixed) != id then BadHash else Valid;
  }

  method VerifyFromBlock(c: Crypto, p: Proof, trusted: Block) returns (v: Verdict)
    ensures v == Judge(c, p, trusted.fixed.roster, trusted.hash)
  {
    var q := p;
    if p.links != [] {
      q := p.(links := p.links[0 := p.links[0].(newRoster := trusted.fixed.roster)]);
      assert q.links[1..] == p.links[1..];
    }
    v := Verify(c, q, trusted.hash);
  }

  // ------------------------------------------------------------------ round trip

  /** Block `t` comes after block `b`, and has the new roster if there is one. */
  ghost predicate Continues(b: Block, newRoster: Option<Roster>, t: Block) {
    t.fixed.roster == (if newRoster.Some? then newRoster else b.fixed.roster) && b.fixed.index < t.fixed.index
  }

  /** The link leads from block `b` to block `t`, and the roster of `b` signed the hash of the
      link. */
  ghost predicate Links(c: Crypto, b: Block, l: ForwardLink, t: Block, scheme: nat) {
    && l.from == b.hash && l.msg == c.linkHash(l.from, l.to, l.newRoster)
    && b.fixed.roster.Some? && c.check(scheme, c.linkHash(l.from, l.to, l.newRoster), l.sig, b.fixed.roster.value)
    && Continues(b, l.newRoster, t)
  }

  ghost predicate WellFormed(c: Crypto, db: DB, scheme: nat) {
    && LevelZero(db)
    && forall id :: id in db ==>
         && db[id].hash == id == c.blockHash(db[id].fixed)
         && db[id].fixed.roster.Some?
         && db[id].fixed.scheme == scheme
         && forall l :: l in db[id].links && l.to in db ==> Links(c, db[id], l, db[l.to], scheme)
  }

  lemma {:induction false} WalkFollows(c: Crypto, db: DB, scheme: nat, b: Block, index: nat)
    requires WellFormed(c, db, scheme) && NeverStuck(db, index)
    requires b.hash in db && db[b.hash] == b && Walk(db, b, index).Path?
    ensures
      var w := Walk(db, b, index);
      && Follow(c, w.links, b.hash, b.fixed.roster.value, scheme) == Some(w.end.hash)
      && w.end.hash in db && db[w.end.hash] == w.end
    decreases index - b.fixed.index
  {
    if b.links != [] && b.fixed.index < index {
      var l := b.links[Choose(db, b, index, |b.links|).height];
      assert l in b.links;
      WalkFollows(c, db, scheme, db[l.to], index);
      assert Walk(db, b, index).links[1..] == Walk(db, db[l.to], index).links;
    }
  }

  /** A proof made on a well-formed skipchain ends at the block of the trie, and a client
      accepts it exactly if that block has the trie's root, whether it knows the first block
      or takes its roster from the proof. */
  lemma NewProofVerifies(c: Crypto, db: DB, scheme: nat, id: BlockID, index: nat, inclusion: InclusionProof.Proof)
    requires WellFormed(c, db, scheme) && NeverStuck(db, index) && id in db
    requires Assemble(inclusion, id, db[id].fixed.roster, index, Walk(db, db[id], index)).Ok?
    ensures
      var p := Assemble(inclusion, id, db[id].fixed.roster, index, Walk(db, db[id], index)).proof;
      && p.latest.hash in db && db[p.latest.hash] == p.latest && p.latest.fixed.index == index
      && p.links != [] && p.links[0].to == id && p.inclusion == inclusion
      && Judge(c, p, p.links[0].newRoster, id) == Judge(c, p, db[id].fixed.roster, id)
      && (Judge(c, p, db[id].fixed.roster, id) == Valid <==>
            p.latest.fixed.header.Some? && p.latest.fixed.header.value.trieRoot == InclusionProof.GetRoot(inclusion))
  {
    var w := Walk(db, db[id], index);
    WalkFollows(c, db, scheme, db[id], index);
    var links := [ForwardLink([], id, db[id].fixed.roster, [], [])] + w.links;
    assert links[1..] == w.links;
  }

  /** The blocks from `a` to `t` of a chain are stored, and every stored link between them
      stays on the chain. */
  ghost predicate Complete(db: DB, chain: seq<BlockID>, a: nat, t: nat) {
    && a <= t < |chain|
    && forall i :: a <= i <= t ==>
         && chain[i] in db
         && db[chain[i]].fixed.index == i
         && (i < t ==> db[chain[i]].links != [] && db[chain[i]].links[0].to == chain[i + 1])
         && forall l :: l in db[chain[i]].links && l.to in db && db[l.to].fixed.index <= t ==>
              l.to == chain[db[l.to].fixed.index]
  }

  /** With these blocks stored the proof reaches the trie's block, whatever is missing
      beyond or among the higher links. */
  lemma {:induction false} WalkArrives(c: Crypto, db: DB, scheme: nat, chain: seq<BlockID>, a: nat, t: nat)
    requires WellFormed(c, db, scheme) && NeverStuck(db, t) && Complete(db, chain, a, t)
    ensures Walk(db, db[chain[a]], t).Path? && Walk(db, db[chain[a]], t).end == db[chain[t]]
    decreases t - a
  {
    var b := db[chain[a]];
    if a < t {
      assert chain[a + 1] in db;
      NoError(c, db, scheme, b, t, |b.links|);
      var l := b.links[Choose(db, b, t, |b.links|).height];
      assert l in b.links;
      WalkArrives(c, db, scheme, chain, db[l.to].fixed.index, t);
    }
  }

  lemma {:induction false} NoError(c: Crypto, db: DB, scheme: nat, b: Block, index: nat, n: nat)
    requires WellFormed(c, db, scheme) && b.hash in db && db[b.hash] == b && b.fixed.index < index
    requires 0 < n <= |b.links| && b.links[0].to in db
    ensures Choose(db, b, index, n).Take?
    decreases n
  {
    assert b.links[n - 1] in b.links;
    if n > 1 {
      NoError(c, db, scheme, b, index, n - 1);
    }
  }

  // ------------------------------------------------------------------- soundness

  /** The rosters of the stored blocks only sign links to stored blocks that continue them. */
  ghost predicate Honest(c: Crypto, db: DB) {
    forall id, to, newRoster, sig, scheme ::
      id in db && db[id].fixed.roster.Some? && c.check(scheme, c.linkHash(id, to, newRoster), sig, db[id].fixed.roster.value) ==>
        to in db && Continues(db[id], newRoster, db[to])
  }

  ghost predicate BlocksHashed(c: Crypto, db: DB) {
    forall id :: id in db ==> db[id].hash == id == c.blockHash(db[id].fixed) && db[id].fixed.roster.Some?
  }

  /** The block has not the hash of another one that is stored. */
  ghost predicate NoCollision(c: Crypto, db: DB, f: Fixed) {
    c.blockHash(f) in db ==> db[c.blockHash(f)].fixed == f
  }

  lemma {:induction false} FollowStays(c: Crypto, db: DB, links: seq<ForwardLink>, id: BlockID, scheme: nat)
    requires Honest(c, db) && BlocksHashed(c, db) && id in db
    requires Follow(c, links, id, db[id].fixed.roster.value, scheme).Some?
    ensures
      var end := Follow(c, links, id, db[id].fixed.roster.value, scheme).value;
      end in db && db[end].fixed.index >= db[id].fixed.index + |links|
    decreases |links|
  {
    if links != [] {
      var l := links[0];
      assert c.check(scheme, c.linkHash(id, l.to, l.newRoster), l.sig, db[id].fixed.roster.value);
      FollowStays(c, db, links[1..], l.to, scheme);
    }
  }

  /** Any proof a client accepts from a stored block ends at a stored block that is at least
      as many blocks later as the proof has links, and shows that block's trie root. */
  lemma VerifySound(c: Crypto, db: DB, p: Proof, trusted: Block)
    requires Honest(c, db) && BlocksHashed(c, db) && trusted.hash in db && db[trusted.hash] == trusted
    requires Judge(c, p, trusted.fixed.roster, trusted.hash) == Valid && NoCollision(c, db, p.latest.fixed)
    ensures
      var id := c.blockHash(p.latest.fixed);
      && id in db && db[id].fixed == p.latest.fixed
      && db[id].fixed.index >= trusted.fixed.index + |p.links| - 1
      && db[id].fixed.header.Some? && db[id].fixed.header.value.trieRoot == InclusionProof.GetRoot(p.inclusion)
  {
    FollowStays(c, db, p.links[1..], trusted.hash, p.latest.fixed.scheme);
  }

  /** Every stored block has the root of the state after it. */
  ghost predicate HoldsRoots(cfg: Config, db: DB, states: map<BlockID, Tree>) {
    forall id :: id in db ==>
      && id in states && ValidTrie(cfg, states[id])
      && db[id].fixed.header == Some(Header(Some(Hash(cfg.nonce, states[id]))))
  }

  /** So what a client reads from an accepted proof is what the state of that block
      holds. */
  lemma StateSound(c: Crypto, db: DB, p: Proof, trusted: Block, cfg: Config, states: map<BlockID, Tree>, key: InstanceID)
    requires Honest(c, db) && BlocksHashed(c, db) && trusted.hash in db && db[trusted.hash] == trusted
    requires Judge(c, p, trusted.fixed.roster, trusted.hash) == Valid && NoCollision(c, db, p.latest.fixed)
    requires Collisionless(cfg) && HoldsRoots(cfg, db, states)
    ensures
      var id := c.blockHash(p.latest.fixed);
      var v := InclusionProof.Verdict(cfg.bits(key), p.inclusion, key);
      && id in states
      && (v == InclusionProof.Present ==>
            key in Contents(states[id]) && p.inclusion.leaf.Some? && Contents(states[id])[key] == p.inclusion.leaf.value.2)
      && (v == InclusionProof.Absent ==> key !in Contents(states[id]))
  {
    VerifySound(c, db, p, trusted);
    InclusionProof.Sound(cfg, states[c.blockHash(p.latest.fixed)], p.inclusion, key);
  }

  /** And where the blocks are stored, a client can read the state of the newest one: the
      proof for a key is made, accepted, and answers what that state holds. */
  lemma StateComplete(c: Crypto, db: DB, scheme: nat, chain: seq<BlockID>, a: nat, t: nat,
                      cfg: Config, states: map<BlockID, Tree>, key: InstanceID)
    requires WellFormed(c, db, scheme) && NeverStuck(db, t) && Complete(db, chain, a, t)
    requires Collisionless(cfg) && HoldsRoots(cfg, db, states)
    ensures
      var state := states[chain[t]];
      var inclusion := (assert cfg.bits(key)[..0] == []; InclusionProof.GetProof(cfg, state, key, 0));
      var r := Assemble(inclusion, chain[a], db[chain[a]].fixed.roster, t, Walk(db, db[chain[a]], t));
      && r.Ok? && r.proof.latest == db[chain[t]] && Judge(c, r.proof, db[chain[a]].fixed.roster, chain[a]) == Valid
      && InclusionProof.Verdict(cfg.bits(key), r.proof.inclusion, key)
         == if key in Contents(state) then InclusionProof.Present else InclusionProof.Absent
  {
    var state := states[chain[t]];
    assert cfg.bits(key)[..0] == [];
    var inclusion := InclusionProof.GetProof(cfg, state, key, 0);
    WalkArrives(c, db, scheme, chain, a, t);
    NewProofVerifies(c, db, scheme, chain[a], t, inclusion);
    InclusionProof.Complete(cfg, state, key);
  }
}
