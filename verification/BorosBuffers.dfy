/** A byte buffer that eats its own tail: the last bytes of the tail become the head. */
module BorosBuffers {
  import opened Bytes

  class Boros {
    const buf: array<byte>
    const headSize: nat
    const tailSize: nat

    predicate Valid() {
      && headSize <= tailSize
      && buf.Length == headSize + tailSize
    }

    /** An all-zero buffer. */
    constructor (headSize: nat, tailSize: nat)
      requires headSize <= tailSize
      ensures Valid() && fresh(buf)
      ensures this.headSize == headSize && this.tailSize == tailSize
      ensures buf[..] == Zeros(headSize + tailSize)
    {
      this.headSize := headSize;
      this.tailSize := tailSize;
      var zeros := new byte[headSize + tailSize](i => 0);
      this.buf := zeros;
      new;
      assert buf[..] == Zeros(headSize + tailSize);
    }

    /** An all-zero head followed by the given tail. */
    constructor From(headSize: nat, tail: seq<byte>)
      requires headSize <= |tail|
      ensures Valid() && fresh(buf)
      ensures this.headSize == headSize && this.tailSize == |tail|
      ensures buf[..] == Zeros(headSize) + tail
    {
      this.headSize := headSize;
      this.tailSize := |tail|;
      var bytes := Zeros(headSize) + tail;
      var joined := new byte[|bytes|](i requires 0 <= i < |bytes| => bytes[i]);
      this.buf := joined;
      new;
      assert buf[..] == bytes;
    }

    function Size(): nat {
      headSize + tailSize
    }

    function Full(): seq<byte>
      reads buf
    {
      buf[..]
    }

    function Head(): seq<byte>
      requires Valid()
      reads buf
    {
      buf[..headSize]
    }

    function Init(): seq<byte>
      requires Valid()
      reads buf
    {
      buf[..Size() - headSize]
    }

    function Tail(): (tail: seq<byte>)
      requires Valid()
      reads buf
      ensures |tail| == tailSize && Full() == Head() + tail
    {
      buf[headSize..]
    }

    function Last(): (last: seq<byte>)
      requires Valid()
      reads buf
      ensures |last| == headSize && last == Tail()[tailSize - headSize..] && Full() == Init() + last
    {
      buf[Size() - headSize..]
    }

    /** Writes through the mutable view of the tail's first bytes. */
    method WriteTail(bytes: seq<byte>)
      requires Valid() && |bytes| <= tailSize
      modifies buf
      ensures Head() == old(Head())
      ensures Tail() == bytes + old(Tail())[|bytes|..]
    {
      forall i | 0 <= i < |bytes| {
        buf[headSize + i] := bytes[i];
      }
    }

    /** Copies the last bytes of the tail to the head. Doing it again changes nothing. */
    method SwallowTail()
      requires Valid()
      modifies buf
      ensures Head() == old(Last())
      ensures Tail() == old(Tail()) && Last() == Head()
    {
      forall i | 0 <= i < headSize {
        buf[i] := buf[tailSize + i];
      }
    }
  }
}
