/** The growable byte buffer of common/buffer: two indices into an array that grows, compacts in place
    and resets when it runs empty.

    A buffer has two abstract views. `Contents` is the byte queue that a caller sees. `Shape` is the
    storage a caller does not see: the array's size and the two indices. */
module Buffers {
  import opened Bytes

  datatype Layout = Layout(size: nat, reader: nat, writer: nat) {

    /** The second conjunct is what the reset on empty achieves. */
    predicate Valid() {
      reader <= writer <= size && (reader == writer ==> reader == 0)
    }

    function Readable(): int {
      writer - reader
    }

    function Writeable(): int {
      size - writer
    }

    function Retrieve(n: nat): Layout {
      if n < Readable() then this.(reader := reader + n) else this.(reader := 0, writer := 0)
    }

    /** Space for `n` more bytes is made by moving the readable bytes to the front. */
    predicate Compacts(n: nat) {
      Writeable() < n <= Writeable() + reader
    }

    function EnsureWriteable(n: nat): Layout
      requires Valid()
    {
      if n <= Writeable() then this
      else if Compacts(n) then Layout(size, 0, writer - reader)
      else this.(size := writer + n)
    }

    function Append(n: nat): Layout
      requires Valid()
    {
      var l := EnsureWriteable(n);
      l.(writer := l.writer + n)
    }

    /** `Append` with the two assignments in the order in which the repository has them: `readerIndex_` is
        already zero when it is subtracted from `writerIndex_`. `None` is the failing assertion. */
    function AppendAsWritten(n: nat): Option<Layout> {
      if n <= Writeable() then Some(this.(writer := writer + n))
      else if Writeable() + reader < n then Some(Layout(writer + n, reader, writer + n))
      else
        var moved := Layout(size, 0, writer - 0);
        if moved.Readable() == Readable() then Some(moved.(writer := moved.writer + n)) else None
    }

    lemma AppendKeepsValid(n: nat)
      requires Valid()
      ensures Append(n).Valid() && Append(n).Readable() == Readable() + n
      ensures Append(n).size >= size
      ensures Append(n).size > size ==> size < Readable() + n && Append(n).size == writer + n
    {
    }

    /** Two retrievals are one of the joint length, also when the first empties the buffer. */
    lemma RetrieveTwice(m: nat, n: nat)
      requires Valid() && m + n <= Readable()
      ensures Retrieve(m).Valid() && Retrieve(m).Readable() == Readable() - m
      ensures Retrieve(m).Retrieve(n) == Retrieve(m + n)
    {
    }

    /** The code as written meets the intent exactly when the compacting branch is not taken; taking it always
        fails the assertion. */
    lemma AsWrittenIsRightUnlessCompacting(n: nat)
      requires Valid()
      ensures AppendAsWritten(n) == (if Compacts(n) then None else Some(Append(n)))
    {
    }
  }

  /** `s` after its `n` elements from `lo` on were copied to its front. */
  function Moved(s: bytes, lo: nat, n: nat): bytes
    requires lo + n <= |s|
  {
    s[lo..lo + n] + s[n..]
  }

  lemma MovedNone(s: bytes, lo: nat)
    requires lo <= |s|
    ensures Moved(s, lo, 0) == s
  {
  }

  lemma MovedOne(s: bytes, lo: nat, n: nat)
    requires lo + n < |s|
    ensures |Moved(s, lo, n)| == |s| && Moved(s, lo, n)[lo + n] == s[lo + n]
    ensures Moved(s, lo, n)[n := s[lo + n]] == Moved(s, lo, n + 1)
  {
  }

  lemma MovedSlices(s: bytes, lo: nat, n: nat)
    requires lo + n <= |s|
    ensures Moved(s, lo, n)[..n] == s[lo..lo + n] && Moved(s, lo, n)[n..] == s[n..]
  {
  }

  class Buffer {
    var data: array<byte>
    var readerIndex: nat
    var writerIndex: nat

    ghost function Shape(): Layout
      reads this
    {
      Layout(data.Length, readerIndex, writerIndex)
    }

    ghost predicate Valid()
      reads this
    {
      Shape().Valid()
    }

    ghost function Contents(): bytes
      reads this, data
      requires Valid()
    {
      data[readerIndex..writerIndex]
    }

    constructor (initialSize: nat)
      ensures Valid() && fresh(data)
      ensures Contents() == [] && Shape() == Layout(initialSize, 0, 0)
    {
      data := new byte[initialSize];
      readerIndex, writerIndex := 0, 0;
    }

    function ReadableBytes(): (n: nat)
      reads this, data
      requires Valid()
      ensures n == |Contents()|
    {
      writerIndex - readerIndex
    }

    function WriteableBytes(): nat
      reads this
      requires Valid()
    {
      data.Length - writerIndex
    }

    function PrependableBytes(): nat
      reads this
    {
      readerIndex
    }

    method Swap(rhs: Buffer)
      requires Valid() && rhs.Valid()
      modifies this, rhs
      ensures Valid() && rhs.Valid()
      ensures data == old(rhs.data) && Shape() == old(rhs.Shape()) && Contents() == old(rhs.Contents())
      ensures rhs.data == old(data) && rhs.Shape() == old(Shape()) && rhs.Contents() == old(Contents())
    {
      data, rhs.data := rhs.data, data;
      readerIndex, rhs.readerIndex := rhs.readerIndex, readerIndex;
      writerIndex, rhs.writerIndex := rhs.writerIndex, writerIndex;
    }

    method RetrieveAll()
      modifies this`readerIndex, this`writerIndex
      ensures Valid() && Contents() == [] && Shape() == Layout(data.Length, 0, 0)
    {
      readerIndex := 0;
      writerIndex := 0;
    }

    method Retrieve(len: nat)
      requires Valid() && len <= ReadableBytes()
      modifies this`readerIndex, this`writerIndex
      ensures Valid() && Contents() == old(Contents())[len..]
      ensures Shape() == old(Shape()).Retrieve(len)
    {
      if len < ReadableBytes() {
        readerIndex := readerIndex + len;
      } else {
        RetrieveAll();
      }
    }

    method RetrieveAsString(len: nat) returns (ret: bytes)
      requires Valid() && len <= ReadableBytes()
      modifies this`readerIndex, this`writerIndex
      ensures Valid() && ret == old(Contents())[..len] && Contents() == old(Contents())[len..]
      ensures Shape() == old(Shape()).Retrieve(len)
    {
      ret := data[readerIndex..readerIndex + len];
      SliceOfSlice(data[..], readerIndex, writerIndex, 0, len);
      Retrieve(len);
    }

    /** Copies forward inside the array; source and destination may overlap because the destination comes first. */
    method CopyToFront(ghost was: bytes)
      requires Valid() && was == data[..]
      modifies data
      ensures data[..writerIndex - readerIndex] == was[readerIndex..writerIndex]
      ensures data[writerIndex - readerIndex..] == was[writerIndex - readerIndex..]
    {
      hide Moved;
      var i := 0;
      MovedNone(was, readerIndex);
      while i < writerIndex - readerIndex
        invariant 0 <= i <= writerIndex - readerIndex
        invariant data[..] == Moved(was, readerIndex, i)
      {
        MovedOne(was, readerIndex, i);
        data[i] := data[readerIndex + i];
        i := i + 1;
      }
      MovedSlices(was, readerIndex, i);
      assert data[..][..i] == data[..i] && data[..][i..] == data[i..];
    }

    /** `std::vector::resize`: a larger array that keeps the old elements. */
    method Resize(n: nat)
      requires data.Length <= n
      modifies this`data
      ensures fresh(data) && data.Length == n
      ensures forall i :: 0 <= i < old(data.Length) ==> data[i] == old(data[i])
    {
      var bigger := new byte[n];
      for i := 0 to data.Length
        modifies bigger
        invariant forall j :: 0 <= j < i ==> bigger[j] == data[j]
      {
        bigger[i] := data[i];
      }
      data := bigger;
    }

    method MakeSpace(len: nat)
      requires Valid() && WriteableBytes() < len
      modifies this, data
      ensures Valid() && (data == old(data) || fresh(data))
      ensures Contents() == old(Contents())
      ensures Shape() == old(Shape()).EnsureWriteable(len)
    {
      ghost var was := data[..];
      if WriteableBytes() + PrependableBytes() < len {
        Resize(writerIndex + len);
        assert data[readerIndex..writerIndex] == was[readerIndex..writerIndex];
      } else {
        var readable := ReadableBytes();
        CopyToFront(was);
        // The repository zeroes readerIndex_ first and so subtracts zero here; this is the order it intends.
        readerIndex, writerIndex := 0, readable;
      }
    }

    /** `makeSpace` with its statements exactly as the repository has them, reporting whether the assertion at its end
        holds. It fails whenever the method compacts: the buffer then holds the readable bytes and behind them as many
        stale bytes as were free at the front. The writer has not moved, so there is still too little room, and the
        assertion of `ensureWriableBytes` fails too. */
    method MakeSpaceAsWritten(len: nat) returns (assertion: bool)
      requires Valid() && WriteableBytes() < len
      modifies this, data
      ensures Valid() && (data == old(data) || fresh(data))
      ensures assertion <==> !old(Shape()).Compacts(len)
      ensures assertion ==> Contents() == old(Contents()) && Shape() == old(Shape()).EnsureWriteable(len)
      ensures !assertion ==>
                && data == old(data) && Shape() == Layout(data.Length, 0, old(writerIndex)) && WriteableBytes() < len
                && Contents() == old(Contents()) + old(data[writerIndex - readerIndex..writerIndex])
    {
      ghost var was := data[..];
      if WriteableBytes() + PrependableBytes() < len {
        Resize(writerIndex + len);
        assert data[readerIndex..writerIndex] == was[readerIndex..writerIndex];
        assertion := true;
      } else {
        var readable := ReadableBytes();
        CopyToFront(was);
        assert data[..writerIndex] == data[..readable] + data[readable..][..readerIndex];
        assert was[readable..][..readerIndex] == was[readable..writerIndex];
        readerIndex := 0;
        writerIndex := writerIndex - readerIndex;
        assertion := readable == ReadableBytes();
      }
    }

    method EnsureWriteableBytes(len: nat)
      requires Valid()
      modifies this, data
      ensures Valid() && (data == old(data) || fresh(data))
      ensures WriteableBytes() >= len
      ensures Contents() == old(Contents())
      ensures Shape() == old(Shape()).EnsureWriteable(len)
    {
      if WriteableBytes() < len {
        MakeSpace(len);
      }
    }

    /** `std::copy` to the first writable byte. */
    method CopyIn(src: bytes)
      requires writerIndex + |src| <= data.Length
      modifies data
      ensures data[..writerIndex] == old(data[..writerIndex])
      ensures data[writerIndex..writerIndex + |src|] == src
    {
      ghost var was := data[..writerIndex];
      for i := 0 to |src|
        modifies data
        invariant data[..writerIndex] == was
        invariant forall j :: 0 <= j < i ==> data[writerIndex + j] == src[j]
      {
        data[writerIndex + i] := src[i];
      }
    }

    method Append(src: bytes)
      requires Valid()
      modifies this, data
      ensures Valid() && (data == old(data) || fresh(data))
      ensures Contents() == old(Contents()) + src
      ensures Shape() == old(Shape()).Append(|src|)
    {
      hide Layout.EnsureWriteable;
      EnsureWriteableBytes(|src|);
      ghost var was := Contents();
      CopyIn(src);
      assert was == data[..writerIndex][readerIndex..];
      SliceSplits(data[..], readerIndex, writerIndex, writerIndex + |src|);
      writerIndex := writerIndex + |src|;
    }

    /** Copies `n` bytes from `peek() + i` without consuming them. */
    method PeekAt(i: nat, n: nat) returns (piece: bytes)
      requires Valid() && i + n <= ReadableBytes()
      ensures piece == Contents()[i..i + n]
    {
      piece := data[readerIndex + i..readerIndex + i + n];
      SliceOfSlice(data[..], readerIndex, writerIndex, i, n);
    }

    /** Four bytes in network order, read without consuming them. */
    method PeekUInt32() returns (n: uint32)
      requires Valid() && ReadableBytes() >= 4
      ensures n == FromBigEndian(Contents())
    {
      var word := data[readerIndex..readerIndex + 4];
      n := FromBigEndian(word);
    }

    method RetrieveUInt32()
      requires Valid() && ReadableBytes() >= 4
      modifies this`readerIndex, this`writerIndex
      ensures Valid() && Contents() == old(Contents())[4..]
      ensures Shape() == old(Shape()).Retrieve(4)
    {
      Retrieve(4);
    }

    method ReadUInt32() returns (n: uint32)
      requires Valid() && ReadableBytes() >= 4
      modifies this`readerIndex, this`writerIndex
      ensures Valid() && n == FromBigEndian(old(Contents())) && Contents() == old(Contents())[4..]
      ensures Shape() == old(Shape()).Retrieve(4)
    {
      n := PeekUInt32();
      RetrieveUInt32();
    }

    /** The four bytes are in network order, as `ReadUInt32` expects them. */
    method WriteUInt32(n: uint32)
      requires Valid()
      modifies this, data
      ensures Valid() && (data == old(data) || fresh(data))
      ensures Contents() == old(Contents()) + BigEndian(n)
      ensures Shape() == old(Shape()).Append(4)
    {
      Append(BigEndian(n));
    }
  }
}
