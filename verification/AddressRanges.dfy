/** Blocks of addresses in another process's memory, and reading them. */
module AddressRanges {
  import opened Bytes

  datatype AddressRange = AddressRange(start: nat, end: nat) {

    predicate Valid() {
      start <= end
    }

    function Size(): nat
      requires Valid()
    {
      end - start
    }
  }

  /** The `n` bytes of memory from address `a` on. */
  function MemoryAt(memory: nat -> byte, a: nat, n: nat): (bs: seq<byte>)
    ensures |bs| == n && forall i :: 0 <= i < n ==> bs[i] == memory(a + i)
  {
    seq<byte>(n, i requires 0 <= i < n => memory(a + i))
  }

  /**
    * Another process's memory as one scan sees it, and which process it is. Reading a range either fills
    * the slice completely or fails, and a failed read may have overwritten any prefix of the slice.
    */
  datatype Reader = Reader(
    process: nat,
    memory: nat -> byte,
    fails: AddressRange -> bool,
    junk: AddressRange -> seq<byte>)
  {
    /** The first `n` bytes of memory from address `a` on. */
    function Read(a: nat, n: nat): (bs: seq<byte>)
      ensures |bs| == n && forall i :: 0 <= i < n ==> bs[i] == memory(a + i)
    {
      MemoryAt(memory, a, n)
    }

    /** What a read of `range` leaves in a slice that held `before`. */
    function Fill(range: AddressRange, before: seq<byte>): (after: seq<byte>)
      requires range.Valid() && |before| == range.Size()
      ensures |after| == |before|
      ensures !fails(range) ==> after == Read(range.start, range.Size())
    {
      if !fails(range) then
        Read(range.start, range.Size())
      else
        var written := junk(range);
        if |written| <= |before| then written + before[|written|..] else written[..|before|]
    }
  }
}
