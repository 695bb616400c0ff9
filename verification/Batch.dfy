/** Lists of trie operations, as the tries' Batch takes them. */
module Batch {
  import opened Merkle

  /** What Batch is given: a set or del, a Nop, or an unknown operation. */
  datatype Op = Apply(w: Write) | Nop | Unknown

  /** The writes of a batch up to its first unknown operation. */
  function WritesOf(ops: seq<Op>): (ws: seq<Write>)
  {
    if ops == [] || ops[0].Unknown? then []
    else if ops[0].Nop? then WritesOf(ops[1..])
    else [ops[0].w] + WritesOf(ops[1..])
  }

  lemma {:induction false} WriteAllConcat(cfg: Config, t: Tree, ws: seq<Write>, more: seq<Write>)
    requires Collisionless(cfg) && ValidTrie(cfg, t)
    ensures WriteAll(cfg, t, ws + more) == WriteAll(cfg, WriteAll(cfg, t, ws), more)
    decreases |more|
  {
    if more == [] {
      assert ws + more == ws;
    } else {
      var n := |more| - 1;
      assert (ws + more)[..|ws + more| - 1] == ws + more[..n];
      WriteAllConcat(cfg, t, ws, more[..n]);
    }
  }

  /** One operation of a batch, and the ones after it. */
  lemma WritesStep(cfg: Config, t: Tree, ops: seq<Op>, i: nat)
    requires Collisionless(cfg) && ValidTrie(cfg, t) && i < |ops|
    ensures WriteAll(cfg, t, WritesOf(ops[i..])) ==
      match ops[i]
      case Unknown => t
      case Nop => WriteAll(cfg, t, WritesOf(ops[i + 1..]))
      case Apply(w) => WriteAll(cfg, Write1(cfg, t, w), WritesOf(ops[i + 1..]))
  {
    assert ops[i..][0] == ops[i] && ops[i..][1..] == ops[i + 1..];
    if ops[i].Apply? {
      var w := ops[i].w;
      WriteAllConcat(cfg, t, [w], WritesOf(ops[i + 1..]));
      assert [w][..0] == [];
      assert WriteAll(cfg, t, [w]) == Write1(cfg, t, w);
    }
  }
}
