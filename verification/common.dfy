/**
 Definitions shared by the two halves of the model: the byte type the file
 handles and stream chunks carry, an optional value, and concatenation of a
 sequence of chunks.
 */
module Common {

  /** One octet of a Node `Buffer`. Bit-vector so that `!b` is the bitwise inversion. */
  type byte = bv8

  datatype Option<+T> = None | Some(value: T)

  /** The concatenation of a sequence of chunks, in order. */
  function Flatten<T>(chunks: seq<seq<T>>): (r: seq<T>)
    ensures |chunks| == 0 ==> r == []
    decreases |chunks|
  {
    if |chunks| == 0 then [] else chunks[0] + Flatten(chunks[1..])
  }

  /** Flattening distributes over concatenation of the chunk sequences. */
  lemma {:induction false} FlattenAppend<T>(a: seq<seq<T>>, b: seq<seq<T>>)
    ensures Flatten(a + b) == Flatten(a) + Flatten(b)
    decreases |a|
  {
    if |a| == 0 {
      assert a + b == b;
    } else {
      assert (a + b)[1..] == a[1..] + b;
      FlattenAppend(a[1..], b);
    }
  }

  /** `n` copies of `x`. */
  function Repeat<T>(x: T, n: nat): (r: seq<T>)
    ensures |r| == n
    ensures forall i :: 0 <= i < n ==> r[i] == x
  {
    seq(n, _ => x)
  }
}
