/** The list-of-chunks byte buffer (src/base/ByteArrayBuffer.cc) over byte arrays
    (src/base/ByteArray.cc): what it holds, seen as one flat sequence. */
module ByteBuffer {

  type Bytes = seq<bv8>

  const UINT_RANGE: nat := 0x1_0000_0000

  function Flat(chunks: seq<Bytes>): Bytes {
    if chunks == [] then [] else chunks[0] + Flat(chunks[1..])
  }

  lemma {:induction false} FlatAppend(a: seq<Bytes>, b: seq<Bytes>)
    ensures Flat(a + b) == Flat(a) + Flat(b)
  {
    if a == [] {
      assert a + b == b;
    } else {
      FlatAppend(a[1..], b);
      assert (a + b)[1..] == a[1..] + b && (a + b)[0] == a[0];
      assert Flat(a + b) == a[0] + Flat(a[1..] + b);
    }
  }

  // At most n bytes of s from offset off on.
  function Slice(s: Bytes, off: nat, n: nat): Bytes {
    if off >= |s| then [] else if off + n >= |s| then s[off..] else s[off..off + n]
  }

  // Reading on behind a chunk: either the chunk is skipped as a whole, or it gives what it has.
  lemma SliceAcross(a: Bytes, b: Bytes, off: nat, n: nat)
    ensures Slice(a + b, off, n) == if off >= |a| then Slice(b, off - |a|, n)
                                    else Slice(a, off, n) + Slice(b, 0, n - |Slice(a, off, n)|)
  {
    if off >= |a| {
      if off < |a + b| {
        assert (a + b)[off..] == b[off - |a|..];
      }
    } else if off + n >= |a| {
      assert |Slice(a, off, n)| == |a| - off;
      assert (a + b)[off..] == a[off..] + b;
    } else {
      assert (a + b)[off..off + n] == a[off..off + n];
    }
  }

  // A buffer after s was copied to position at.
  function Splice(buffer: Bytes, at: nat, s: Bytes): Bytes
    requires at + |s| <= |buffer|
  {
    buffer[..at] + s + buffer[at + |s|..]
  }

  lemma SpliceOn(buffer: Bytes, a: Bytes, b: Bytes)
    requires |a| + |b| <= |buffer|
    ensures Splice(Splice(buffer, 0, a), |a|, b) == Splice(buffer, 0, a + b)
  {
  }

  method Memcpy(dest: array<bv8>, at: nat, s: Bytes)
    requires at + |s| <= dest.Length
    modifies dest
    ensures dest[..] == Splice(old(dest[..]), at, s)
  {
    for i := 0 to |s|
      invariant forall j :: 0 <= j < dest.Length ==> dest[j] == if at <= j < at + i then s[j - at] else old(dest[j])
    {
      dest[at + i] := s[i];
    }
  }

  // How many bytes copyDataToBuffer takes from a chunk of this size: the length test adds in 32 bits.
  function Taken(size: nat, srcOffs: nat, length: nat): nat {
    if srcOffs >= size then 0
    else if (srcOffs + length) % UINT_RANGE > size then size - srcOffs
    else length
  }

  // It stays inside the chunk if and only if the offset is behind the chunk or offset plus length fit 32 bits;
  // otherwise it takes the whole length, past the end of the chunk.
  lemma TakenStaysInside(size: nat, srcOffs: nat, length: nat)
    requires size < UINT_RANGE && srcOffs < UINT_RANGE && length < UINT_RANGE
    ensures (Taken(size, srcOffs, length) == 0 || srcOffs + Taken(size, srcOffs, length) <= size)
            <==> srcOffs >= size || srcOffs + length < UINT_RANGE
    ensures srcOffs < size && srcOffs + length >= UINT_RANGE ==> Taken(size, srcOffs, length) == length
  {
    if srcOffs + length >= UINT_RANGE {
      assert (srcOffs + length) % UINT_RANGE == srcOffs + length - UINT_RANGE < srcOffs;
    }
  }

  method CopyDataToBuffer(data: Bytes, dest: array<bv8>, at: nat, length: nat, srcOffs: nat) returns (n: nat)
    requires at + length <= dest.Length && srcOffs + length < UINT_RANGE
    modifies dest
    ensures n == Taken(|data|, srcOffs, length) == |Slice(data, srcOffs, length)| <= length
    ensures dest[..] == Splice(old(dest[..]), at, Slice(data, srcOffs, length))
  {
    if srcOffs >= |data| {
      return 0;
    }
    n := length;
    if (srcOffs + length) % UINT_RANGE > |data| {
      n := |data| - srcOffs;
    }
    assert data[srcOffs..srcOffs + n] == Slice(data, srcOffs, length);
    Memcpy(dest, at, data[srcOffs..srcOffs + n]);
  }

  // What is read from chunk i, and where reading goes on: at the start of the next chunk, or, when
  // nothing was read, with the offset lowered by the chunk's size.
  lemma NextChunk(chunks: seq<Bytes>, i: nat, off: nat, n: nat)
    requires i < |chunks| && n > 0
    ensures var part := Slice(chunks[i], off, n);
            && |part| <= n && (part == [] ==> off >= |chunks[i]|)
            && Slice(Flat(chunks[i..]), off, n)
               == part + Slice(Flat(chunks[i + 1..]), if part == [] then off - |chunks[i]| else 0, n - |part|)
  {
    assert chunks[i..][0] == chunks[i] && chunks[i..][1..] == chunks[i + 1..];
    SliceAcross(chunks[i], Flat(chunks[i + 1..]), off, n);
  }

  lemma NothingLeft(chunks: seq<Bytes>, i: nat, off: nat, n: nat)
    requires i <= |chunks| && (n == 0 || i == |chunks|)
    ensures Slice(Flat(chunks[i..]), off, n) == []
  {
  }

  lemma SpliceNothing(buffer: Bytes)
    ensures Splice(buffer, 0, []) == buffer
  {
  }

  class ByteArrayBuffer {
    var dataList: seq<Bytes>
    var dataLength: nat
    ghost var pushed: Bytes
    ghost var removed: Bytes

    // Bytes pushed are the bytes removed followed by the content.
    ghost predicate Valid()
      reads this
    {
      && dataLength == |Flat(dataList)| && pushed == removed + Flat(dataList)
    }

    constructor ()
      ensures Valid() && Flat(dataList) == [] && pushed == []
    {
      dataList, dataLength, pushed, removed := [], 0, [], [];
    }

    method Push(chunk: Bytes)
      requires Valid()
      modifies this
      ensures Valid() && Flat(dataList) == old(Flat(dataList)) + chunk
      ensures pushed == old(pushed) + chunk && removed == old(removed)
    {
      FlatAppend(dataList, [chunk]);
      dataList, dataLength, pushed := dataList + [chunk], dataLength + |chunk|, pushed + chunk;
    }

    method GetBytesToBuffer(dest: array<bv8>, length: nat, srcOffs: nat) returns (copied: nat)
      requires Valid() && length <= dest.Length && srcOffs + length < UINT_RANGE
      modifies dest
      ensures copied == |Slice(Flat(dataList), srcOffs, length)|
      ensures dest[..] == Splice(old(dest[..]), 0, Slice(Flat(dataList), srcOffs, length))
    {
      hide Slice, Splice, Flat;
      copied := 0;
      var i, off := 0, srcOffs;
      ghost var all, got, buffer := Slice(Flat(dataList), srcOffs, length), [], dest[..];
      assert dataList[0..] == dataList && got + all == all;
      SpliceNothing(buffer);
      while copied < length && i < |dataList|
        invariant 0 <= i <= |dataList| && 0 <= off <= srcOffs
        invariant |got| == copied <= length && all == got + Slice(Flat(dataList[i..]), off, length - copied)
        invariant dest[..] == Splice(buffer, 0, got)
      {
        ghost var part := Slice(dataList[i], off, length - copied);
        NextChunk(dataList, i, off, length - copied);
        var cbytes := CopyDataToBuffer(dataList[i], dest, copied, length - copied, off);
        SpliceOn(buffer, got, part);
        got := got + part;
        if cbytes > 0 {
          copied, off := copied + cbytes, 0;
        } else {
          off := off - |dataList[i]|;
        }
        i := i + 1;
      }
      NothingLeft(dataList, i, off, length - copied);
      assert all == got;
    }

    // Drops the first bytes; more than the buffer holds is an error that changes nothing.
    method Drop(length: nat) returns (ok: bool)
      requires Valid()
      modifies this
      ensures Valid() && pushed == old(pushed)
      ensures ok <==> length <= |old(Flat(dataList))|
      ensures ok ==> Flat(dataList) == old(Flat(dataList))[length..] && removed == old(removed) + old(Flat(dataList))[..length]
      ensures !ok ==> dataList == old(dataList) && removed == old(removed)
    {
      if length > dataLength {
        return false;
      }
      var left := length;
      ghost var all := Flat(dataList);
      while left > 0
        invariant 0 <= left <= length <= |all| && Flat(dataList) == all[length - left..]
        invariant dataLength == |Flat(dataList)| && removed == old(removed) && pushed == old(pushed)
        decreases left, |dataList|
      {
        var size := |dataList[0]|;
        assert Flat(dataList) == dataList[0] + Flat(dataList[1..]);
        if size <= left {
          assert Flat(dataList)[size..] == Flat(dataList[1..]);
          dataList, dataLength, left := dataList[1..], dataLength - size, left - size;
        } else {
          assert ([dataList[0][left..]] + dataList[1..])[1..] == dataList[1..];
          assert Flat(dataList)[left..] == dataList[0][left..] + Flat(dataList[1..]);
          dataList, dataLength, left := [dataList[0][left..]] + dataList[1..], dataLength - left, 0;
        }
      }
      assert all == all[..length] + Flat(dataList);
      assert removed + all == (removed + all[..length]) + Flat(dataList);
      removed := removed + all[..length];
      ok := true;
    }

    method PopBytesToBuffer(dest: array<bv8>, length: nat) returns (n: nat)
      requires Valid() && length <= dest.Length && length < UINT_RANGE
      modifies this, dest
      ensures Valid() && pushed == old(pushed)
      ensures n == if length <= |old(Flat(dataList))| then length else |old(Flat(dataList))|
      ensures n <= dest.Length && dest[..] == old(Flat(dataList))[..n] + old(dest[..])[n..]
      ensures Flat(dataList) == old(Flat(dataList))[n..] && removed == old(removed) + old(Flat(dataList))[..n]
    {
      ghost var all := Flat(dataList);
      n := GetBytesToBuffer(dest, length, 0);
      assert Slice(all, 0, length) == all[..n];
      var _ := Drop(n);
    }

    method Clear()
      requires Valid()
      modifies this
      ensures Valid() && dataList == [] && dataLength == 0 && pushed == old(pushed) && removed == pushed
    {
      dataLength := 0;
      while dataList != []
        invariant dataLength == 0 && pushed == old(pushed)
        decreases |dataList|
      {
        dataList := dataList[1..];
      }
      removed := pushed;
    }
  }
}
