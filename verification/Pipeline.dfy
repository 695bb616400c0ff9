/** The leader's transaction pipeline as a state machine: the leader loop with its queue
    and its one-slot channel, and the worker that takes blocks out of the channel.

    In every run without an upgrade request, whatever the interleaving, no transaction is
    lost, doubled or reordered, and the blocks carry what running all transactions one
    after the other gives. */
module Pipeline {
  import opened Types
  import opened Merkle
  import opened Ledger

  type Hash = Bytes

  /** proposedTransactions, without the version of an upgrade block. */
  datatype Proposed = Proposed(sst: Tree, scs: seq<StateChange>, txs: seq<TxResult>)

  datatype Limits = Limits(hashOf: Instructions -> Hash, size: seq<TxResult> -> nat, blockSize: nat, maxTxHashes: nat)

  function Txs(results: seq<TxResult>): (txs: seq<Instructions>)
    ensures |txs| == |results|
  {
    seq(|results|, i requires 0 <= i < |results| => results[i].instrs)
  }

  // --------------------------------------------------------------- deduplication

  function Hashes(l: Limits, txs: seq<Instructions>): (hs: seq<Hash>)
    ensures |hs| == |txs|
  {
    seq(|txs|, i requires 0 <= i < |txs| => l.hashOf(txs[i]))
  }

  function LastHashes(hs: seq<Hash>, max: nat): (r: seq<Hash>)
  {
    if |hs| > max then hs[|hs| - max..] else hs
  }

  /** The input without every transaction whose hash is among the last `maxTxHashes` that
      were kept before it. */
  ghost function Keep(l: Limits, input: seq<Instructions>): (kept: seq<Instructions>)
    decreases |input|
  {
    if input == [] then []
    else
      var n := |input| - 1;
      var kept := Keep(l, input[..n]);
      if l.hashOf(input[n]) in LastHashes(Hashes(l, kept), l.maxTxHashes) then kept else kept + [input[n]]
  }

  /** Equal hashes are never kept within the window. */
  lemma {:induction false} KeptFarApart(l: Limits, input: seq<Instructions>, i: nat, j: nat)
    requires i < j < |Keep(l, input)| && j - i <= l.maxTxHashes
    ensures l.hashOf(Keep(l, input)[i]) != l.hashOf(Keep(l, input)[j])
    decreases |input|
  {
    var n := |input| - 1;
    var kept := Keep(l, input[..n]);
    if j < |kept| {
      KeptFarApart(l, input[..n], i, j);
    } else {
      var hs := Hashes(l, kept);
      var window := LastHashes(hs, l.maxTxHashes);
      assert window[i - (|hs| - |window|)] == hs[i];
    }
  }

  /** One of the last `max` hashes is this one. */
  ghost predicate Recent(hs: seq<Hash>, max: nat, h: Hash) {
    exists j :: 0 <= j < |hs| && j >= |hs| - max && hs[j] == h
  }

  lemma LastHashesExactly(hs: seq<Hash>, max: nat, h: Hash)
    ensures h in LastHashes(hs, max) <==> Recent(hs, max, h)
  {
    var window := LastHashes(hs, max);
    var k := |hs| - |window|;
    assert forall i :: 0 <= i < |window| ==> window[i] == hs[k + i];
    if Recent(hs, max, h) {
      var j :| 0 <= j < |hs| && j >= |hs| - max && hs[j] == h;
      assert window[j - k] == h;
    }
  }

  /** A transaction is dropped exactly if one of the last `maxTxHashes` that were kept has the
      same hash. */
  lemma {:induction false} DropsExactly(l: Limits, input: seq<Instructions>, tx: Instructions)
    ensures Keep(l, input + [tx]) ==
      if Recent(Hashes(l, Keep(l, input)), l.maxTxHashes, l.hashOf(tx)) then Keep(l, input) else Keep(l, input) + [tx]
  {
    KeepNext(l, input, tx);
    LastHashesExactly(Hashes(l, Keep(l, input)), l.maxTxHashes, l.hashOf(tx));
  }

  /** The scan of the leader loop over the known hashes. */
  method IsKnown(known: seq<Hash>, h: Hash) returns (found: bool)
    ensures found <==> h in known
  {
    for i := 0 to |known|
      invariant h !in known[..i]
    {
      if known[i] == h {
        return true;
      }
    }
    assert known[..|known|] == known;
    found := false;
  }

  /** The hashes the leader remembers after this input. */
  ghost function Window(l: Limits, input: seq<Instructions>): (hs: seq<Hash>)
  {
    LastHashes(Hashes(l, Keep(l, input)), l.maxTxHashes)
  }

  /** The duplicate check on a new transaction, and the hashes remembered after it. */
  method Remember(l: Limits, txHashes: seq<Hash>, tx: Instructions, ghost input: seq<Instructions>)
      returns (known: bool, hashes: seq<Hash>)
    requires txHashes == Window(l, input)
    ensures Keep(l, input + [tx]) == if known then Keep(l, input) else Keep(l, input) + [tx]
    ensures hashes == Window(l, input + [tx])
  {
    var h := l.hashOf(tx);
    known := IsKnown(txHashes, h);
    KeepNext(l, input, tx);
    WindowNext(l, Keep(l, input), tx);
    hashes := txHashes;
    if !known {
      hashes := hashes + [h];
      if |hashes| > l.maxTxHashes {
        hashes := hashes[|hashes| - l.maxTxHashes..];
      }
    }
  }

  // ------------------------------------------------------------------ filling a block

  ghost predicate Fits(l: Limits, txs: seq<TxResult>) {
    txs == [] || l.size(txs) <= l.blockSize
  }

  function AddOne(p: Processor, cur: Proposed, tx: Instructions): (r: Proposed)
  {
    var o := p(cur.sst, tx);
    if o.Accepted? then Proposed(o.state, cur.scs + o.changes, cur.txs + [TxResult(tx, true)])
    else cur.(txs := cur.txs + [TxResult(tx, false)])
  }

  /** addTransactions: from the front of the queue, as long as the block is not too big. */
  function Fill(l: Limits, p: Processor, cur: Proposed, queue: seq<Instructions>): (r: (Proposed, seq<Instructions>))
    decreases |queue|
  {
    if queue == [] then (cur, queue)
    else
      var next := AddOne(p, cur, queue[0]);
      if l.size(next.txs) > l.blockSize then (cur, queue) else Fill(l, p, next, queue[1..])
  }

  method AddTransactions(l: Limits, p: Processor, cur: Proposed, queue: seq<Instructions>)
      returns (r: Proposed, rest: seq<Instructions>)
    ensures (r, rest) == Fill(l, p, cur, queue)
  {
    r, rest := cur, queue;
    while |rest| > 0
      invariant Fill(l, p, cur, queue) == Fill(l, p, r, rest)
      decreases |rest|
    {
      var tx := rest[0];
      var o := p(r.sst, tx);
      var txRes := TxResult(tx, o.Accepted?);
      if l.size(r.txs + [txRes]) > l.blockSize {
        break;
      }
      if o.Accepted? {
        r := r.(sst := o.state, scs := r.scs + o.changes);
      }
      r := r.(txs := r.txs + [txRes]);
      rest := rest[1..];
    }
  }

  /** A transaction and the processor that was current when it was executed: that one
      reads version and timestamp of the latest block, which changes over time. */
  datatype Executed = Executed(tx: Instructions, p: Processor)

  /** All transactions one after the other, from the initial state. */
  ghost function Sequential(base: Tree, done: seq<Executed>): (r: BlockResult)
    ensures |r.txOut| == |done|
    decreases |done|
  {
    if done == [] then BlockResult([], [], base)
    else
      var n := |done| - 1;
      Next(done[n].p, Sequential(base, done[..n]), TxResult(done[n].tx, false))
  }

  function Unflagged(done: seq<Executed>): (r: seq<TxResult>)
    ensures |r| == |done|
  {
    seq(|done|, i requires 0 <= i < |done| => TxResult(done[i].tx, false))
  }

  /** With one processor throughout this is the block that a follower computes. */
  lemma {:induction false} SequentialIsBlock(base: Tree, done: seq<Executed>, p: Processor)
    requires forall i :: 0 <= i < |done| ==> done[i].p == p
    ensures Sequential(base, done) == RunBlock(p, base, Unflagged(done))
    decreases |done|
  {
    if done != [] {
      var n := |done| - 1;
      SequentialIsBlock(base, done[..n], p);
      assert Unflagged(done)[..n] == Unflagged(done[..n]);
    }
  }

  /** The prefix of the run that a proposal stands for: `before` has already left. */
  ghost predicate Extends(base: Tree, done: seq<Executed>, before: BlockResult, cur: Proposed) {
    var s := Sequential(base, done);
    s.txOut == before.txOut + cur.txs && s.changes == before.changes + cur.scs && s.state == cur.sst
  }

  lemma AddOneExtends(base: Tree, done: seq<Executed>, before: BlockResult, cur: Proposed, p: Processor, tx: Instructions)
    requires Extends(base, done, before, cur)
    ensures Extends(base, done + [Executed(tx, p)], before, AddOne(p, cur, tx))
  {
    var done' := done + [Executed(tx, p)];
    assert done'[..|done|] == done;
    var o := p(cur.sst, tx);
    var flag := TxResult(tx, o.Accepted?);
    assert (before.txOut + cur.txs) + [flag] == before.txOut + (cur.txs + [flag]);
    if o.Accepted? {
      assert (before.changes + cur.scs) + o.changes == before.changes + (cur.scs + o.changes);
    }
  }

  /** These transactions, all executed with the same processor. */
  function By(p: Processor, txs: seq<Instructions>): (done: seq<Executed>)
    ensures |done| == |txs|
  {
    seq(|txs|, i requires 0 <= i < |txs| => Executed(txs[i], p))
  }

  /** One turn: the block is filled from the front of the queue, and what was taken from there
      was executed with the processor of this turn. */
  ghost predicate Turned(l: Limits, p: Processor, b: Proposed, queue: seq<Instructions>, done: seq<Executed>,
                         b': Proposed, queue': seq<Instructions>, done': seq<Executed>) {
    && (b', queue') == Fill(l, p, b, queue) && Full(l, p, b', queue')
    && |queue'| <= |queue|
    && done' == done + By(p, queue[..|queue| - |queue'|])
  }

  lemma TurnedOneMore(l: Limits, p: Processor, cur: Proposed, queue: seq<Instructions>, done: seq<Executed>, done': seq<Executed>)
    requires queue != [] && l.size(AddOne(p, cur, queue[0]).txs) <= l.blockSize
    requires
      var next, more := AddOne(p, cur, queue[0]), done + [Executed(queue[0], p)];
      var (cur', queue') := Fill(l, p, next, queue[1..]);
      Turned(l, p, next, queue[1..], more, cur', queue', done')
    ensures
      var (cur', queue') := Fill(l, p, cur, queue);
      Turned(l, p, cur, queue, done, cur', queue', done')
  {
    OneMoreBy(p, done, queue, |queue[1..]| - |Fill(l, p, AddOne(p, cur, queue[0]), queue[1..]).1|);
  }

  /** Filling a block executes a prefix of the queue and keeps the rest: nothing is lost,
      the block fits, and the run goes on where it was, with the given processor. */
  lemma {:induction false} FillExtends(l: Limits, p: Processor, cur: Proposed, queue: seq<Instructions>,
                                       base: Tree, done: seq<Executed>, before: BlockResult) returns (done': seq<Executed>)
    requires Extends(base, done, before, cur) && Fits(l, cur.txs)
    ensures
      var (cur', queue') := Fill(l, p, cur, queue);
      && Turned(l, p, cur, queue, done, cur', queue', done')
      && Extends(base, done', before, cur') && Fits(l, cur'.txs)
      && Txs(cur'.txs) + queue' == Txs(cur.txs) + queue
      && (cur'.txs == [] ==> cur' == cur)
    decreases |queue|
  {
    done' := done;
    FillsUp(l, p, cur, queue);
    if queue == [] || l.size(AddOne(p, cur, queue[0]).txs) > l.blockSize {
      assert queue[..0] == [] && done + By(p, []) == done;
    } else {
      var next := AddOne(p, cur, queue[0]);
      AddOneExtends(base, done, before, cur, p, queue[0]);
      done' := FillExtends(l, p, next, queue[1..], base, done + [Executed(queue[0], p)], before);
      TurnedOneMore(l, p, cur, queue, done, done');
      AddOneTxs(p, cur, queue);
    }
  }

  lemma AddOneTxs(p: Processor, cur: Proposed, queue: seq<Instructions>)
    requires queue != []
    ensures Txs(AddOne(p, cur, queue[0]).txs) + queue[1..] == Txs(cur.txs) + queue
  {
    var next := AddOne(p, cur, queue[0]);
    assert Txs(next.txs) == Txs(cur.txs) + [queue[0]];
  }

  lemma OneMoreBy(p: Processor, done: seq<Executed>, queue: seq<Instructions>, k: nat)
    requires queue != [] && k <= |queue[1..]|
    ensures done + [Executed(queue[0], p)] + By(p, queue[1..][..k]) == done + By(p, queue[..k + 1])
  {
  }

  // ----------------------------------------------------------- with one processor

  /** What has left and what waits carry the results of the block that is made of the first
      transactions that were kept, one after the other. */
  ghost predicate RanWith(p: Processor, base: Tree, kept: seq<Instructions>, proposed: seq<Proposed>, pending: Proposed) {
    var txs, scs := Together(proposed).0 + pending.txs, Together(proposed).1 + pending.scs;
    && |txs| <= |kept|
    && RunBlock(p, base, Unflagged(By(p, kept[..|txs|]))) == BlockResult(txs, scs, pending.sst)
  }

  lemma {:induction false} SequentialTxs(base: Tree, done: seq<Executed>)
    ensures forall i :: 0 <= i < |done| ==> Sequential(base, done).txOut[i].instrs == done[i].tx
    decreases |done|
  {
    if done != [] {
      SequentialTxs(base, done[..|done| - 1]);
    }
  }

  lemma OneProcessor(l: Limits, base: Tree, kept: seq<Instructions>, proposed: seq<Proposed>, done: seq<Executed>,
                     pending: Proposed, queue: seq<Instructions>, p: Processor)
    requires Sound(l, base, kept, proposed, done, pending, queue)
    requires forall i :: 0 <= i < |done| ==> done[i].p == p
    ensures RanWith(p, base, kept, proposed, pending)
  {
    var txs := Together(proposed).0 + pending.txs;
    SequentialIsBlock(base, done, p);
    SequentialTxs(base, done);
    assert Txs(txs) == Txs(Together(proposed).0) + Txs(pending.txs);
    assert kept[..|txs|] == Txs(txs);
    assert By(p, kept[..|txs|]) == done;
  }

  /** Nothing is left in the queue, or the next transaction does not fit in the block. */
  ghost predicate Full(l: Limits, p: Processor, b: Proposed, queue: seq<Instructions>) {
    queue == [] || l.size(b.txs + [TxResult(queue[0], p(b.sst, queue[0]).Accepted?)]) > l.blockSize
  }

  /** Filling does not stop before. */
  lemma {:induction false} FillsUp(l: Limits, p: Processor, cur: Proposed, queue: seq<Instructions>)
    ensures var (cur', queue') := Fill(l, p, cur, queue); Full(l, p, cur', queue')
    decreases |queue|
  {
    if queue != [] && l.size(AddOne(p, cur, queue[0]).txs) <= l.blockSize {
      FillsUp(l, p, AddOne(p, cur, queue[0]), queue[1..]);
    }
  }

  /** A transaction that does not even fit in an empty block stays at the front of the
      queue, with everything behind it. */
  lemma OversizeBlocksQueue(l: Limits, p: Processor, cur: Proposed, queue: seq<Instructions>)
    requires cur.txs == [] && queue != []
    requires forall accepted :: l.size([TxResult(queue[0], accepted)]) > l.blockSize
    ensures Fill(l, p, cur, queue) == (cur, queue)
  {
    var o := p(cur.sst, queue[0]);
    assert [] + [TxResult(queue[0], o.Accepted?)] == [TxResult(queue[0], o.Accepted?)];
  }

  // -------------------------------------------------------------------- the machine

  datatype Event =
    | Receive(tx: Instructions, p: Processor)
    | BlockSent(p: Processor)
    | Take

  ghost function Received(events: seq<Event>): (txs: seq<Instructions>)
    decreases |events|
  {
    if events == [] then []
    else
      var n := |events| - 1;
      if events[n].Receive? then Received(events[..n]) + [events[n].tx] else Received(events[..n])
  }

  /** Each transaction was executed with the processor of the event in whose turn it was
      taken from the queue. */
  ghost predicate Parted(events: seq<Event>, done: seq<Executed>)
    decreases |events|
  {
    if events == [] then done == []
    else
      var n := |events| - 1;
      exists m: nat :: m <= |done| && Parted(events[..n], done[..m]) && AllOf(events[n], done[m..])
  }

  ghost predicate AllOf(e: Event, done: seq<Executed>) {
    if e.Take? then done == [] else forall i :: 0 <= i < |done| ==> done[i].p == e.p
  }

  ghost predicate Carry(events: seq<Event>, p: Processor) {
    forall i :: 0 <= i < |events| ==> events[i].Take? || events[i].p == p
  }

  lemma PartedNext(events: seq<Event>, e: Event, done: seq<Executed>, more: seq<Executed>)
    requires Parted(events, done) && AllOf(e, more)
    ensures Parted(events + [e], done + more)
  {
    assert (events + [e])[..|events|] == events;
    assert (done + more)[..|done|] == done && (done + more)[|done|..] == more;
  }

  lemma {:induction false} PartedCarries(events: seq<Event>, done: seq<Executed>, p: Processor)
    requires Parted(events, done) && Carry(events, p)
    ensures forall i :: 0 <= i < |done| ==> done[i].p == p
    decreases |events|
  {
    if events != [] {
      var n := |events| - 1;
      var m: nat :| m <= |done| && Parted(events[..n], done[..m]) && AllOf(events[n], done[m..]);
      PartedCarries(events[..n], done[..m], p);
      forall i | 0 <= i < |done| ensures done[i].p == p {
        if i < m {
          assert done[i] == done[..m][i];
        } else {
          assert done[i] == done[m..][i - m];
        }
      }
    }
  }

  /** The blocks that the worker has taken, as one result. */
  ghost function Together(blocks: seq<Proposed>): (r: (seq<TxResult>, seq<StateChange>))
    decreases |blocks|
  {
    if blocks == [] then ([], [])
    else
      var n := |blocks| - 1;
      var (txs, scs) := Together(blocks[..n]);
      (txs + blocks[n].txs, scs + blocks[n].scs)
  }

  /** The block in the channel, or else the empty proposal the leader holds. */
  ghost function Pending(newBlock: Option<Proposed>, current: Proposed): (b: Proposed)
  {
    if newBlock.Some? then newBlock.value else current
  }

  ghost function Out(base: Tree, blocks: seq<Proposed>): (r: BlockResult)
  {
    BlockResult(Together(blocks).0, Together(blocks).1, base)
  }

  /** What has left, what waits in the channel and what is queued is all that was kept, in
      the order in which it came. */
  ghost predicate Conserved(proposed: seq<Proposed>, pending: Proposed, queue: seq<Instructions>, kept: seq<Instructions>) {
    Txs(Together(proposed).0) + Txs(pending.txs) + queue == kept
  }

  /** The blocks that have left are not empty and fit, so does the pending one, nothing that
      was kept is lost, and the pending block continues the sequential run. */
  ghost predicate Sound(l: Limits, base: Tree, kept: seq<Instructions>, proposed: seq<Proposed>, done: seq<Executed>,
                        pending: Proposed, queue: seq<Instructions>) {
    && (forall b :: b in proposed ==> b.txs != [] && Fits(l, b.txs))
    && Fits(l, pending.txs)
    && Conserved(proposed, pending, queue, kept)
    && Extends(base, done, Out(base, proposed), pending)
  }

  class TxPipeline {
    const l: Limits
    var txHashes: seq<Hash>
    var txQueue: seq<Instructions>
    var current: Proposed
    var newBlock: Option<Proposed>

    ghost const base: Tree
    ghost var input: seq<Instructions>
    ghost var proposed: seq<Proposed>
    ghost var done: seq<Executed>

    ghost predicate Ok()
      reads this
    {
      && txHashes == Window(l, input)
      && current.txs == [] && current.scs == []
      && (newBlock.Some? ==> newBlock.value.txs != [] && newBlock.value.sst == current.sst)
      && Sound(l, base, Keep(l, input), proposed, done, Pending(newBlock, current), txQueue)
    }

    constructor (l: Limits, base: Tree)
      ensures Ok() && input == [] && proposed == [] && newBlock == None && txQueue == [] && done == []
      ensures this.l == l && this.base == base
    {
      this.l, this.base := l, base;
      txHashes, txQueue, current, newBlock := [], [], Proposed(base, [], []), None;
      input, proposed, done := [], [], [];
    }

    /** A transaction arrives: a known one is dropped, any other is queued. */
    method ReceiveTx(tx: Instructions, p: Processor)
      requires Ok()
      modifies this
      ensures Ok() && input == old(input) + [tx] && proposed == old(proposed)
      ensures
        if l.hashOf(tx) in old(txHashes) then
          txQueue == old(txQueue) && done == old(done) && Pending(newBlock, current) == old(Pending(newBlock, current))
        else
          Turned(l, p, old(Pending(newBlock, current)), old(txQueue) + [tx], old(done), Pending(newBlock, current), txQueue, done)
    {
      var queued := Enqueue(tx);
      if queued {
        Propose(p);
      }
    }

    method Enqueue(tx: Instructions) returns (queued: bool)
      requires Ok()
      modifies this`txHashes, this`txQueue, this`input
      ensures Ok() && input == old(input) + [tx]
      ensures queued <==> l.hashOf(tx) !in old(txHashes)
      ensures txQueue == if queued then old(txQueue) + [tx] else old(txQueue)
    {
      var known, hashes := Remember(l, txHashes, tx, input);
      EnqueueKeeps(l, base, Keep(l, input), proposed, done, Pending(newBlock, current), txQueue, tx);
      input := input + [tx];
      if known {
        return false;
      }
      txHashes := hashes;
      txQueue := txQueue + [tx];
      queued := true;
    }

    /** The second half of a turn: take the waiting block back, fill it up, and put it
        into the channel again. */
    method Propose(p: Processor)
      requires Ok()
      modifies this
      ensures Ok() && input == old(input) && proposed == old(proposed)
      ensures Turned(l, p, old(Pending(newBlock, current)), old(txQueue), old(done), Pending(newBlock, current), txQueue, done)
    {
      var block := current;
      if newBlock.Some? {
        block, newBlock := newBlock.value, None;
      }
      var filled;
      filled, txQueue, done := FillUp(l, p, block, txQueue, base, Keep(l, input), proposed, done);
      if filled.txs != [] {
        Send(filled);
      }
      current := Proposed(filled.sst, [], []);
      assert Pending(newBlock, current) == filled;
    }

    /** Sending on the channel with one slot: it is empty whenever the leader sends, so
        the leader never waits. */
    method Send(b: Proposed)
      requires newBlock == None
      modifies this`newBlock
      ensures newBlock == Some(b)
    {
      newBlock := Some(b);
    }

    /** The worker takes the waiting block, if there is one, and proposes it. */
    method TakeBlock()
      requires Ok()
      modifies this`newBlock, this`proposed
      ensures Ok() && input == old(input)
      ensures Pending(newBlock, current).txs == [] && Pending(newBlock, current).sst == old(Pending(newBlock, current)).sst
      ensures proposed == if old(newBlock).Some? then old(proposed) + [old(newBlock).value] else old(proposed)
      ensures newBlock == None
    {
      if newBlock.Some? {
        TakeKeeps(l, base, Keep(l, input), proposed, done, newBlock.value, txQueue);
        proposed := proposed + [newBlock.value];
        newBlock := None;
      }
    }

    method Turn(e: Event, ghost events: seq<Event>)
      requires Ok() && input == Received(events) && Parted(events, done)
      modifies this
      ensures Ok() && input == Received(events + [e]) && Parted(events + [e], done)
    {
      assert (events + [e])[..|events|] == events;
      ghost var before := done;
      match e {
        case Receive(tx, p) => ReceiveTx(tx, p);
        case BlockSent(p) => Propose(p);
        case Take => TakeBlock();
      }
      ghost var more := done[|before|..];
      assert done == before + more && AllOf(e, more);
      PartedNext(events, e, before, more);
    }

    /** Any interleaving of arriving transactions, sent blocks and the worker. If the
        processor does not change meanwhile, the blocks carry what running the transactions
        one after the other gives. */
    method Run(events: seq<Event>)
      requires Ok() && input == [] && done == []
      modifies this
      ensures Ok() && input == Received(events) && Parted(events, done)
      ensures Txs(Together(proposed).0) + Txs(Pending(newBlock, current).txs) + txQueue == Keep(l, input)
      ensures forall b :: b in proposed + [Pending(newBlock, current)] && b.txs != [] ==> l.size(b.txs) <= l.blockSize
      ensures forall p :: Carry(events, p) ==> RanWith(p, base, Keep(l, input), proposed, Pending(newBlock, current))
    {
      var i := 0;
      while i < |events|
        invariant 0 <= i <= |events| && Ok() && input == Received(events[..i]) && Parted(events[..i], done)
      {
        Turn(events[i], events[..i]);
        assert events[..i] + [events[i]] == events[..i + 1];
        i := i + 1;
      }
      assert events[..i] == events;
      forall p | Carry(events, p) ensures RanWith(p, base, Keep(l, input), proposed, Pending(newBlock, current)) {
        PartedCarries(events, done, p);
        OneProcessor(l, base, Keep(l, input), proposed, done, Pending(newBlock, current), txQueue, p);
      }
    }
  }

  lemma EnqueueKeeps(l: Limits, base: Tree, kept: seq<Instructions>, proposed: seq<Proposed>, done: seq<Executed>,
                     b: Proposed, queue: seq<Instructions>, tx: Instructions)
    requires Sound(l, base, kept, proposed, done, b, queue)
    ensures Sound(l, base, kept + [tx], proposed, done, b, queue + [tx])
  {
    var front := Txs(Together(proposed).0) + Txs(b.txs);
    assert front + (queue + [tx]) == (front + queue) + [tx];
  }

  method FillUp(l: Limits, p: Processor, b: Proposed, queue: seq<Instructions>,
                ghost base: Tree, ghost kept: seq<Instructions>, ghost proposed: seq<Proposed>, ghost done: seq<Executed>)
      returns (b': Proposed, queue': seq<Instructions>, ghost done': seq<Executed>)
    requires Sound(l, base, kept, proposed, done, b, queue)
    requires b.txs == [] ==> b.scs == []
    ensures Turned(l, p, b, queue, done, b', queue', done')
    ensures Sound(l, base, kept, proposed, done', b', queue')
    ensures b'.txs == [] ==> b' == Proposed(b'.sst, [], [])
  {
    done' := ProposeKeeps(l, p, base, kept, proposed, done, b, queue);
    b', queue' := AddTransactions(l, p, b, queue);
  }

  /** Filling the pending block keeps all this, whether anything fits or not. */
  lemma ProposeKeeps(l: Limits, p: Processor, base: Tree, kept: seq<Instructions>, proposed: seq<Proposed>,
                     done: seq<Executed>, b: Proposed, queue: seq<Instructions>) returns (done': seq<Executed>)
    requires Sound(l, base, kept, proposed, done, b, queue)
    requires b.txs == [] ==> b.scs == []
    ensures
      var (b', queue') := Fill(l, p, b, queue);
      && Turned(l, p, b, queue, done, b', queue', done')
      && Sound(l, base, kept, proposed, done', b', queue')
      && (b'.txs == [] ==> b' == Proposed(b'.sst, [], []))
  {
    done' := FillExtends(l, p, b, queue, base, done, Out(base, proposed));
    var (b', queue') := Fill(l, p, b, queue);
    StillConserved(proposed, b, queue, b', queue', kept);
  }

  lemma StillConserved(proposed: seq<Proposed>, b: Proposed, queue: seq<Instructions>,
                       b': Proposed, queue': seq<Instructions>, kept: seq<Instructions>)
    requires Conserved(proposed, b, queue, kept) && Txs(b'.txs) + queue' == Txs(b.txs) + queue
    ensures Conserved(proposed, b', queue', kept)
  {
    var front := Txs(Together(proposed).0);
    assert front + Txs(b'.txs) + queue' == front + (Txs(b'.txs) + queue');
    assert front + Txs(b.txs) + queue == front + (Txs(b.txs) + queue);
  }

  /** Taking the waiting block moves it to the proposed ones and changes nothing else. */
  lemma TakeKeeps(l: Limits, base: Tree, kept: seq<Instructions>, proposed: seq<Proposed>, done: seq<Executed>,
                  b: Proposed, queue: seq<Instructions>)
    requires Sound(l, base, kept, proposed, done, b, queue) && b.txs != []
    ensures Sound(l, base, kept, proposed + [b], done, Proposed(b.sst, [], []), queue)
  {
    assert (proposed + [b])[..|proposed|] == proposed;
    var (txs, scs) := Together(proposed);
    assert Together(proposed + [b]) == (txs + b.txs, scs + b.scs);
    assert Txs(txs + b.txs) == Txs(txs) + Txs(b.txs) && Txs([]) == [];
    assert txs + b.txs + [] == txs + b.txs && scs + b.scs + [] == scs + b.scs;
    assert Txs(txs + b.txs) + [] == Txs(txs) + Txs(b.txs);
  }

  lemma KeepNext(l: Limits, input: seq<Instructions>, tx: Instructions)
    ensures Keep(l, input + [tx]) ==
      if l.hashOf(tx) in LastHashes(Hashes(l, Keep(l, input)), l.maxTxHashes) then Keep(l, input)
      else Keep(l, input) + [tx]
  {
    assert (input + [tx])[..|input|] == input;
  }

  lemma WindowNext(l: Limits, kept: seq<Instructions>, tx: Instructions)
    ensures
      var hs := LastHashes(Hashes(l, kept), l.maxTxHashes) + [l.hashOf(tx)];
      LastHashes(hs, l.maxTxHashes) == LastHashes(Hashes(l, kept + [tx]), l.maxTxHashes)
  {
    assert Hashes(l, kept + [tx]) == Hashes(l, kept) + [l.hashOf(tx)];
  }
}
