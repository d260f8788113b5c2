/** Bytes, and the handful of byte constants the codecs share. */
module Bytes {
  type byte = x: int | 0 <= x < 256
  type bytes = seq<byte>

  const CR: byte := 13
  const LF: byte := 10
  const CRLF: bytes := [CR, LF]

  /** Concatenation is associative: asserted by name where a proof is too busy to find it. */
  lemma Assoc<T>(a: seq<T>, b: seq<T>, c: seq<T>)
    ensures a + b + c == a + (b + c)
  {
  }

  lemma Cut<T>(s: seq<T>, n: nat)
    requires n <= |s|
    ensures s == s[..n] + s[n..]
  {
  }

  function Min(a: int, b: int): int { if a < b then a else b }
}

/** The push-pull buffer of src/pushpull.c: data enters at the read offset and leaves at
    the write offset; a buffer that is drained completely starts over at offset 0. */
module PushPull {
  import opened Bytes

  class PushPullBuffer {
    const buff: array<byte>
    var readOffset: nat
    var writeOffset: nat

    ghost predicate Valid()
      reads this
    {
      writeOffset <= readOffset <= buff.Length
    }

    /** An empty buffer has all of its room back. Reading, writing and moving keep this;
        removing data with `RemoveChunk` need not. */
    ghost predicate Settled()
      reads this
    {
      writeOffset == readOffset ==> readOffset == 0
    }

    ghost function Contents(): (s: bytes)
      requires Valid()
      reads this, buff
    {
      buff[writeOffset..readOffset]
    }

    function DataSize(): int
      reads this
    {
      readOffset - writeOffset
    }

    function Room(): int
      reads this
    {
      buff.Length - readOffset
    }

    constructor (size: nat)
      ensures Valid() && Settled() && Contents() == []
      ensures fresh(buff) && buff.Length == size && Room() == size
    {
      buff := new byte[size];
      readOffset, writeOffset := 0, 0;
    }

    /** CS_PP_readFromBuffer with a source: appends as much of `source` as there is room for. */
    method ReadFromBuffer(source: bytes) returns (n: nat, ghost taken: bytes, ghost rest: bytes)
      requires Valid()
      modifies this`readOffset, buff
      ensures Valid()
      ensures n == |taken| == Min(|source|, old(Room())) && source == taken + rest
      ensures Contents() == old(Contents()) + taken
      ensures Room() == old(Room()) - n
      ensures old(Settled()) ==> Settled()
    {
      if readOffset < buff.Length {
        n := |source|;
        if readOffset + |source| > buff.Length {
          n := buff.Length - readOffset;
        }
        forall i | 0 <= i < n {
          buff[readOffset + i] := source[i];
        }
        readOffset := readOffset + n;
      } else {
        n := 0;
      }
      taken, rest := source[..n], source[n..];
    }

    /** CS_PP_writeToBuffer: hands out the oldest `nBytes` bytes, or everything there is. */
    method WriteToBuffer(nBytes: nat) returns (out: bytes)
      requires Valid()
      modifies this`readOffset, this`writeOffset
      ensures Valid()
      ensures |out| == Min(nBytes, |old(Contents())|) && old(Contents()) == out + Contents()
      ensures Room() == if |out| > 0 && Contents() == [] then buff.Length else old(Room())
      ensures old(Settled()) ==> Settled()
    {
      if writeOffset < readOffset {
        var n := nBytes;
        if writeOffset + nBytes >= readOffset {
          n := readOffset - writeOffset;
        }
        out := buff[writeOffset..writeOffset + n];
        writeOffset := writeOffset + n;
        if writeOffset == readOffset {
          writeOffset, readOffset := 0, 0;
        }
      } else {
        out := [];
      }
    }

    /** The MOVE macro: slides the data behind `at + n` down to `at`. */
    method CloseGap(at: nat, n: nat)
      requires Valid() && at + n <= readOffset
      modifies buff
      ensures buff[..at] == old(buff[..at])
      ensures buff[at..readOffset - n] == old(buff[at + n..readOffset])
    {
      var out := at;
      while out + n < readOffset
        invariant at <= out <= readOffset - n
        invariant buff[..at] == old(buff[..at])
        invariant forall k :: at <= k < out ==> buff[k] == old(buff[k + n])
        invariant forall k :: out <= k < buff.Length ==> buff[k] == old(buff[k])
      {
        buff[out] := buff[out + n];
        out := out + 1;
      }
    }

    /** The BACKFILL macro: '%' over `n` bytes behind the data. */
    method Backfill(n: nat)
      requires Valid() && readOffset + n <= buff.Length
      modifies buff
      ensures buff[..readOffset] == old(buff[..readOffset])
    {
      var out := readOffset;
      while out < readOffset + n
        invariant readOffset <= out <= readOffset + n
        invariant buff[..readOffset] == old(buff[..readOffset])
      {
        buff[out] := 37;
        out := out + 1;
      }
    }

    /** CS_PP_removeChunk: cuts `nBytes` bytes out of the data at `offset`, closing the gap
        and filling the freed tail with '%'. Reports true when there is not that much data. */
    method RemoveChunk(offset: nat, nBytes: nat) returns (failed: bool)
      requires Valid()
      modifies this`readOffset, buff
      ensures Valid()
      ensures failed == (offset + nBytes > |old(Contents())|)
      ensures failed ==> Contents() == old(Contents())
      ensures !failed ==> Contents() == old(Contents())[..offset] + old(Contents())[offset + nBytes..]
      ensures !failed ==> Room() == old(Room()) + nBytes
    {
      if nBytes + offset > DataSize() {
        return true;
      }
      ghost var data := Contents();
      var at := writeOffset + offset;
      assert data[..offset] == buff[..at][writeOffset..];
      assert data[offset + nBytes..] == buff[at + nBytes..readOffset];
      CloseGap(at, nBytes);
      readOffset := readOffset - nBytes;
      ghost var kept := buff[..readOffset];
      assert kept[writeOffset..] == buff[..at][writeOffset..] + buff[at..readOffset];
      Backfill(nBytes);
      assert Contents() == kept[writeOffset..];
      return false;
    }

    /** CS_PP_makeRoom: slides the data down to offset 0. Reports true when there was nothing to gain. */
    method MakeRoom() returns (noGain: bool)
      requires Valid()
      modifies this, buff
      ensures Valid() && Contents() == old(Contents())
      ensures noGain == (old(writeOffset) == 0)
      ensures Room() == buff.Length - |Contents()|
    {
      var n := writeOffset;
      if n == 0 {
        return true;
      }
      forall i | 0 <= i < readOffset - n {
        buff[i] := buff[i + n];
      }
      writeOffset := 0;
      readOffset := readOffset - n;
      return false;
    }
  }

  /** CS_PP_moveBufferExplicit: moves the longest possible prefix of the source's data, at most
      `max` bytes of it, to the end of the destination. */
  method MoveBufferExplicit(source: PushPullBuffer, destination: PushPullBuffer, max: nat)
      returns (n: nat, ghost data: bytes)
    requires source.Valid() && destination.Valid()
    requires source != destination && source.buff != destination.buff
    modifies source`readOffset, source`writeOffset, destination`readOffset, destination.buff
    ensures source.Valid() && destination.Valid()
    ensures n == |data| == Min(max, Min(|old(source.Contents())|, old(destination.Room())))
    ensures old(source.Contents()) == data + source.Contents()
    ensures destination.Contents() == old(destination.Contents()) + data
    ensures destination.Room() == old(destination.Room()) - n
    ensures source.Room() == if n > 0 && source.Contents() == [] then source.buff.Length else old(source.Room())
    ensures old(source.Settled()) ==> source.Settled()
    ensures old(destination.Settled()) ==> destination.Settled()
  {
    data := [];
    var sourceSize := source.DataSize();
    if sourceSize == 0 { return 0, []; }
    var destinationSize := destination.Room();
    if destinationSize == 0 { return 0, []; }
    n := if sourceSize < destinationSize then sourceSize else destinationSize;
    if max < n { n := max; }
    var moved := source.buff[source.writeOffset..source.writeOffset + n];
    ghost var all := source.Contents();
    assert moved == all[..n];
    Cut(all, n);
    var _, taken, rest := destination.ReadFromBuffer(moved);
    assert rest == [] && moved + [] == moved;
    var out := source.WriteToBuffer(n);
    data := moved;
  }

  /** CS_PP_moveBuffer: moves as much as the destination can take. */
  method MoveBuffer(source: PushPullBuffer, destination: PushPullBuffer) returns (n: nat, ghost data: bytes)
    requires source.Valid() && destination.Valid()
    requires source != destination && source.buff != destination.buff
    modifies source`readOffset, source`writeOffset, destination`readOffset, destination.buff
    ensures source.Valid() && destination.Valid()
    ensures n == |data| == Min(|old(source.Contents())|, old(destination.Room()))
    ensures old(source.Contents()) == data + source.Contents()
    ensures destination.Contents() == old(destination.Contents()) + data
    ensures destination.Room() == old(destination.Room()) - n
    ensures source.Room() == if n > 0 && source.Contents() == [] then source.buff.Length else old(source.Room())
    ensures old(source.Settled()) ==> source.Settled()
    ensures old(destination.Settled()) ==> destination.Settled()
  {
    data := [];
    var sourceSize := source.DataSize();
    if sourceSize == 0 { return 0, []; }
    var destinationSize := destination.Room();
    if destinationSize == 0 { return 0, []; }
    n := if sourceSize < destinationSize then sourceSize else destinationSize;
    var moved := source.buff[source.writeOffset..source.writeOffset + n];
    ghost var all := source.Contents();
    assert moved == all[..n];
    Cut(all, n);
    var _, taken, rest := destination.ReadFromBuffer(moved);
    assert rest == [] && moved + [] == moved;
    var out := source.WriteToBuffer(n);
    data := moved;
  }
}
