/** The mutable byte buffer both the splitter and the secret holder own, and its eraser. */
module ByteArrays {
  import opened Sequences

  type Bytes = seq<bv8>

  function Zeros(n: nat): (s: Bytes)
    ensures |s| == n && AllZero(s)
  {
    Repeat(0, n)
  }

  /** The byte of value n, as bytes([n]) makes it. */
  function Byte(n: nat): bv8
    requires n < 256
  {
    if n == 0 then 0 else Byte(n - 1) + 1
  }

  lemma Successor(b: bv8)
    requires b < 255
    ensures (b + 1) as int == b as int + 1
  {}

  lemma {:induction false} ByteValue(n: nat)
    requires n < 256
    ensures Byte(n) as int == n
  {
    if n > 0 {
      ByteValue(n - 1);
      Successor(Byte(n - 1));
    }
  }

  ghost predicate AllZero(s: Bytes) {
    forall i | 0 <= i < |s| :: s[i] == 0
  }

  class ByteArray {
    var bytes: Bytes

    constructor (initial: Bytes)
      ensures bytes == initial
    {
      bytes := initial;
    }

    method Extend(more: Bytes)
      modifies this
      ensures bytes == old(bytes) + more
    {
      bytes := bytes + more;
    }

    /** Overwrites the first n bytes in place, as an eraser interrupted after n bytes would. */
    method ErasePrefix(n: nat)
      requires n <= |bytes|
      modifies this
      ensures |bytes| == |old(bytes)| && AllZero(bytes[..n]) && bytes[n..] == old(bytes[n..])
    {
      for i := 0 to n
        invariant |bytes| == |old(bytes)| && AllZero(bytes[..i]) && bytes[i..] == old(bytes[i..])
      {
        bytes := bytes[i := 0];
      }
    }

    /** Overwrites every byte in place; the buffer keeps its length. */
    method Erase()
      modifies this
      ensures |bytes| == |old(bytes)| && AllZero(bytes)
    {
      ErasePrefix(|bytes|);
      assert bytes[..|bytes|] == bytes;
    }
  }

  /** A read-only view of the first `length` bytes of a buffer it does not own. */
  datatype MemoryView = MemoryView(owner: ByteArray, length: nat) {
    ghost predicate Valid()
      reads owner
    {
      length <= |owner.bytes|
    }

    function Content(): Bytes
      requires Valid()
      reads owner
    {
      owner.bytes[..length]
    }
  }
}
