/** Bytes, and sequences of them. */
module Bytes {
  type Byte = b: nat | b < 256

  type Data = seq<Byte>

  function Flatten(chunks: seq<Data>): Data {
    if chunks == [] then [] else chunks[0] + Flatten(chunks[1..])
  }

  function Sum(s: seq<nat>): nat {
    if s == [] then 0 else s[0] + Sum(s[1..])
  }

  lemma FlattenAppend(a: seq<Data>, b: seq<Data>)
    ensures Flatten(a + b) == Flatten(a) + Flatten(b)
  {
    if a == [] {
      assert a + b == b;
    } else {
      assert (a + b)[1..] == a[1..] + b;
      FlattenAppend(a[1..], b);
      assert Flatten(a + b) == a[0] + (Flatten(a[1..]) + Flatten(b));
    }
  }

  lemma FlattenOne(chunk: Data)
    ensures Flatten([chunk]) == chunk
  {
    assert chunk + [] == chunk;
  }
}
