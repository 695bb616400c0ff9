/** What the hash of an instruction commits to, field by field. Together with Ledger.InvokeAlike
    this says which transactions a header and the state change cache tell apart. */
module Hashing {
  import opened Types
  import opened Encoding
  import opened Ledger

  /** A Go string: every character is a byte. */
  predicate ByteString(s: string) {
    forall i :: 0 <= i < |s| ==> s[i] as int < 256
  }

  predicate Encodable(b: Bytes) {
    |b| < TWO_TO_THE_64
  }

  predicate EncodableArguments(args: Arguments) {
    forall i :: 0 <= i < |args| ==> ByteString(args[i].0) && |args[i].0| < TWO_TO_THE_64 && Encodable(args[i].1)
  }

  lemma RawExactly(a: string, b: string)
    requires ByteString(a) && ByteString(b)
    ensures Raw(a) == Raw(b) <==> a == b
  {
    if Raw(a) == Raw(b) {
      assert |a| == |Raw(a)| == |b|;
      forall i | 0 <= i < |a| ensures a[i] == b[i] {
        assert Raw(a)[i] == Raw(b)[i];
      }
    }
  }

  lemma Encode8Exactly(m: uint64, n: uint64)
    ensures EncodeLE(m, 8) == EncodeLE(n, 8) <==> m == n
  {
    Pow256Of8();
    LERoundTrip(m, 8);
    LERoundTrip(n, 8);
  }

  lemma FrontExactly(a: Bytes, b: Bytes, x: Bytes, y: Bytes)
    requires |a| == |b|
    ensures a + x == b + y <==> a == b && x == y
  {
    if a + x == b + y {
      assert a == (a + x)[..|a|] && b == (b + y)[..|a|];
      assert x == (a + x)[|a|..] && y == (b + y)[|a|..];
    }
  }

  /** What is written with its length can be read back. */
  lemma PrefixedExactly(a: Bytes, b: Bytes, x: Bytes, y: Bytes)
    requires Encodable(a) && Encodable(b)
    ensures WithLength(a) + x == WithLength(b) + y <==> a == b && x == y
  {
    var m, n := EncodeLE(|a|, 8), EncodeLE(|b|, 8);
    Regroup(m, a, x);
    Regroup(n, b, y);
    FrontExactly(m, n, a + x, b + y);
    Encode8Exactly(|a|, |b|);
    if |a| == |b| {
      FrontExactly(a, b, x, y);
    }
  }

  lemma ArgumentNext(args: Arguments)
    requires args != []
    ensures ArgumentBytes(args) == WithLength(Raw(args[0].0)) + (WithLength(args[0].1) + ArgumentBytes(args[1..]))
    ensures ArgumentBytes(args) != []
  {
    Regroup(WithLength(Raw(args[0].0)), WithLength(args[0].1), ArgumentBytes(args[1..]));
  }

  lemma Regroup(a: Bytes, b: Bytes, c: Bytes)
    ensures a + b + c == a + (b + c)
  {
  }

  lemma {:induction false} ArgumentsExactly(a: Arguments, b: Arguments)
    requires EncodableArguments(a) && EncodableArguments(b)
    ensures ArgumentBytes(a) == ArgumentBytes(b) <==> a == b
    decreases |a|
  {
    if a != [] && b != [] {
      ArgumentNext(a);
      ArgumentNext(b);
      var x, y := WithLength(a[0].1) + ArgumentBytes(a[1..]), WithLength(b[0].1) + ArgumentBytes(b[1..]);
      PrefixedExactly(Raw(a[0].0), Raw(b[0].0), x, y);
      RawExactly(a[0].0, b[0].0);
      PrefixedExactly(a[0].1, b[0].1, ArgumentBytes(a[1..]), ArgumentBytes(b[1..]));
      ArgumentsExactly(a[1..], b[1..]);
      HeadTail(a, b);
    } else if a != [] {
      ArgumentNext(a);
    } else if b != [] {
      ArgumentNext(b);
    }
  }

  lemma HeadTail<T>(a: seq<T>, b: seq<T>)
    requires a != [] && b != []
    ensures a == b <==> a[0] == b[0] && a[1..] == b[1..]
  {
    assert a == [a[0]] + a[1..] && b == [b[0]] + b[1..];
  }

  lemma {:induction false} CountersExactly(a: seq<uint64>, b: seq<uint64>)
    ensures CounterBytes(a) == CounterBytes(b) <==> a == b
    decreases |a|
  {
    if a != [] && b != [] {
      FrontExactly(EncodeLE(a[0], 8), EncodeLE(b[0], 8), CounterBytes(a[1..]), CounterBytes(b[1..]));
      Encode8Exactly(a[0], b[0]);
      CountersExactly(a[1..], b[1..]);
      HeadTail(a, b);
    }
  }

  lemma {:induction false} PublicsExactly(a: seq<Bytes>, b: seq<Bytes>)
    requires forall i :: 0 <= i < |a| ==> Encodable(a[i])
    requires forall i :: 0 <= i < |b| ==> Encodable(b[i])
    ensures PublicBytes(a) == PublicBytes(b) <==> a == b
    decreases |a|
  {
    if a != [] && b != [] {
      PrefixedExactly(a[0], b[0], PublicBytes(a[1..]), PublicBytes(b[1..]));
      PublicsExactly(a[1..], b[1..]);
      HeadTail(a, b);
    }
  }

  // -------------------------------------------------------------- the instructions

  /** The hashed bytes with one part between the rest. */
  lemma SplitPreimage(version: int, i: Instruction, front: Bytes, part: Bytes, back: Bytes)
    requires PayloadBytes(version, i.payload) == front + part + back
    ensures Preimage(version, i) == (i.id + front) + part + (back + CounterBytes(i.counters) + PublicBytes(i.publics))
  {
    var counters, publics := CounterBytes(i.counters), PublicBytes(i.publics);
    assert i.id + (front + part + back) + counters + publics == (i.id + front) + part + (back + counters + publics);
  }

  /** Everything but the arguments is the same: so are the hashes exactly if the arguments
      are, names and values. */
  lemma SpawnAlike(version: int, i: Instruction, j: Instruction)
    requires i.payload.Spawn? && j.payload.Spawn? && i.payload.contractID == j.payload.contractID
    requires i.id == j.id && i.counters == j.counters && i.publics == j.publics
    requires EncodableArguments(i.payload.args) && EncodableArguments(j.payload.args)
    ensures Preimage(version, i) == Preimage(version, j) <==> i.payload.args == j.payload.args
  {
    var front := [0] + Raw(i.payload.contractID);
    var a, b := ArgumentBytes(i.payload.args), ArgumentBytes(j.payload.args);
    assert front + a + [] == [0] + Raw(i.payload.contractID) + a && front + b + [] == [0] + Raw(j.payload.contractID) + b;
    SplitPreimage(version, i, front, a, []);
    SplitPreimage(version, j, front, b, []);
    SameMiddle(i.id + front, a, b, [] + CounterBytes(i.counters) + PublicBytes(i.publics));
    ArgumentsExactly(i.payload.args, j.payload.args);
  }

  lemma SpawnContract(version: int, i: Instruction, j: Instruction)
    requires i.payload.Spawn? && j.payload.Spawn? && i.payload.args == j.payload.args
    requires i.id == j.id && i.counters == j.counters && i.publics == j.publics
    requires ByteString(i.payload.contractID) && ByteString(j.payload.contractID)
    ensures Preimage(version, i) == Preimage(version, j) <==> i.payload.contractID == j.payload.contractID
  {
    var front: Bytes, back := [0], ArgumentBytes(i.payload.args);
    SplitPreimage(version, i, front, Raw(i.payload.contractID), back);
    SplitPreimage(version, j, front, Raw(j.payload.contractID), back);
    SameMiddle(i.id + front, Raw(i.payload.contractID), Raw(j.payload.contractID),
               back + CounterBytes(i.counters) + PublicBytes(i.publics));
    RawExactly(i.payload.contractID, j.payload.contractID);
  }

  lemma InvokeArguments(version: int, i: Instruction, j: Instruction)
    requires i.payload.Invoke? && j.payload.Invoke?
    requires i.payload.contractID == j.payload.contractID && i.payload.command == j.payload.command
    requires i.id == j.id && i.counters == j.counters && i.publics == j.publics
    requires EncodableArguments(i.payload.args) && EncodableArguments(j.payload.args)
    ensures Preimage(version, i) == Preimage(version, j) <==> i.payload.args == j.payload.args
  {
    var front := [1] + Label(version, i.payload);
    var a, b := ArgumentBytes(i.payload.args), ArgumentBytes(j.payload.args);
    assert Label(version, i.payload) == Label(version, j.payload);
    assert front + a + [] == [1] + Label(version, i.payload) + a && front + b + [] == [1] + Label(version, j.payload) + b;
    SplitPreimage(version, i, front, a, []);
    SplitPreimage(version, j, front, b, []);
    SameMiddle(i.id + front, a, b, [] + CounterBytes(i.counters) + PublicBytes(i.publics));
    ArgumentsExactly(i.payload.args, j.payload.args);
  }

  /** What an invocation is called with: contract ID and command in one, or the contract ID
      alone before version 1. */
  function Called(version: int, p: Payload): (s: string)
    requires p.Invoke?
  {
    if version < 1 then p.contractID else p.contractID + p.command
  }

  lemma RawConcat(a: string, b: string)
    ensures Raw(a + b) == Raw(a) + Raw(b)
  {
  }

  lemma InvokeCalled(version: int, i: Instruction, j: Instruction)
    requires i.payload.Invoke? && j.payload.Invoke? && i.payload.args == j.payload.args
    requires i.id == j.id && i.counters == j.counters && i.publics == j.publics
    requires ByteString(i.payload.contractID) && ByteString(i.payload.command)
    requires ByteString(j.payload.contractID) && ByteString(j.payload.command)
    ensures Preimage(version, i) == Preimage(version, j) <==> Called(version, i.payload) == Called(version, j.payload)
  {
    InvokeAlike(version, i, j);
    RawConcat(i.payload.contractID, i.payload.command);
    RawConcat(j.payload.contractID, j.payload.command);
    RawExactly(Called(version, i.payload), Called(version, j.payload));
  }

  /** The arguments of a delete are not hashed, its contract ID is. */
  lemma DeleteAlike(version: int, i: Instruction, j: Instruction)
    requires i.payload.Delete? && j.payload.Delete?
    requires i.id == j.id && i.counters == j.counters && i.publics == j.publics
    requires ByteString(i.payload.contractID) && ByteString(j.payload.contractID)
    ensures Preimage(version, i) == Preimage(version, j) <==> i.payload.contractID == j.payload.contractID
  {
    var a, b := Raw(i.payload.contractID), Raw(j.payload.contractID);
    assert [2] + a == [2] + a + [] && [2] + b == [2] + b + [];
    SplitPreimage(version, i, [2], a, []);
    SplitPreimage(version, j, [2], b, []);
    SameMiddle(i.id + [2], a, b, [] + CounterBytes(i.counters) + PublicBytes(i.publics));
    RawExactly(i.payload.contractID, j.payload.contractID);
  }

  /** Instructions on different instances, or of different kinds, do not hash alike. */
  lemma KindsApart(version: int, i: Instruction, j: Instruction)
    requires !i.payload.NoPayload? && !j.payload.NoPayload? && Preimage(version, i) == Preimage(version, j)
    ensures i.id == j.id
    ensures i.payload.Spawn? <==> j.payload.Spawn?
    ensures i.payload.Invoke? <==> j.payload.Invoke?
  {
    var x, y := Preimage(version, i), Preimage(version, j);
    assert x[..32] == i.id && y[..32] == j.id;
    assert x[32] == PayloadBytes(version, i.payload)[0] && y[32] == PayloadBytes(version, j.payload)[0];
  }

  lemma CountersAlike(version: int, i: Instruction, j: Instruction)
    requires i.id == j.id && i.payload == j.payload && i.publics == j.publics
    ensures Preimage(version, i) == Preimage(version, j) <==> i.counters == j.counters
  {
    var front := i.id + PayloadBytes(version, i.payload);
    SameMiddle(front, CounterBytes(i.counters), CounterBytes(j.counters), PublicBytes(i.publics));
    CountersExactly(i.counters, j.counters);
  }

  lemma PublicsAlike(version: int, i: Instruction, j: Instruction)
    requires i.id == j.id && i.payload == j.payload && i.counters == j.counters
    requires forall k :: 0 <= k < |i.publics| ==> Encodable(i.publics[k])
    requires forall k :: 0 <= k < |j.publics| ==> Encodable(j.publics[k])
    ensures Preimage(version, i) == Preimage(version, j) <==> i.publics == j.publics
  {
    var front := i.id + PayloadBytes(version, i.payload) + CounterBytes(i.counters);
    FrontExactly(front, front, PublicBytes(i.publics), PublicBytes(j.publics));
    PublicsExactly(i.publics, j.publics);
  }
}
