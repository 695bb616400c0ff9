/** Values shared by the models: byte strings, instance identifiers and the body
    that the global state stores for every instance. */
module Types {
  newtype byte = x: int | 0 <= x < 256

  type Bytes = seq<byte>

  const ID_LENGTH := 32

  /** InstanceID is a fixed-size array of 32 bytes. */
  type InstanceID = b: Bytes | |b| == ID_LENGTH witness seq(ID_LENGTH, _ => 0)

  const TWO_TO_THE_64 := 0x1_0000_0000_0000_0000

  type uint64 = n: int | 0 <= n < TWO_TO_THE_64

  /** Unsigned 64-bit increment, with the wrap-around of Go's `+`. */
  function Next64(n: uint64): (r: uint64)
  {
    if n + 1 == TWO_TO_THE_64 then 0 else n + 1
  }

  datatype Option<+T> = None | Some(value: T)

  datatype StateAction = Create | Update | Remove | GenerateInstruction | InvalidAction

  /** StateChangeBody: what the trie holds under the key of an instance. */
  datatype Body = Body(action: StateAction, contractID: string, value: Bytes, version: uint64, darcID: Bytes)
}
