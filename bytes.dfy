/** Bytes, file paths, and Node's `Buffer.concat`. */
module Bytes {

  type byte = x: int | 0 <= x < 256

  type Bytes = seq<byte>

  /** A file-system path, as the string Node is given. */
  type Path = string

  /** `Buffer.concat(chunks)`: the chunks laid end to end, in order. */
  function Concat(chunks: seq<Bytes>): (r: Bytes)
    decreases |chunks|
  {
    if |chunks| == 0 then [] else Concat(chunks[..|chunks| - 1]) + chunks[|chunks| - 1]
  }

  /** Appending one more chunk appends its bytes. */
  lemma ConcatSnoc(chunks: seq<Bytes>, c: Bytes)
    ensures Concat(chunks + [c]) == Concat(chunks) + c
  {
    assert (chunks + [c])[..|chunks|] == chunks;
  }
}
