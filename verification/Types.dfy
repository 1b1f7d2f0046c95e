/** Names shared by every module: bytes, keys, and the two unrelated number spaces of the engine. */
module Types {
  type Byte = x: int | 0 <= x < 256
  type Bytes = seq<Byte>
  datatype Key = Key(bytes: Bytes)
  datatype Value = Value(data: Bytes)

  // Owner of uncommitted versions; the generator hands out 1, 2, 3, ...
  type TxnId = nat
  // Position of a commit in the WAL and the LSM tree; 0 is never a commit.
  type SeqNo = nat

  datatype Option<+T> = None | Some(value: T)

  // What one write does to a key.
  datatype Payload = Put(value: Value) | Delete
}
