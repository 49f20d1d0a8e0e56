/** The buffered writer: appended bytes collect in a 64 KB buffer that is written out when full. */
module FileWriters {
  import opened ByteStrings

  const BUFFER_SIZE := 65536

  /** Where the buffer stands after an append of `len` bytes: a buffer that fills up is written at once the
      first time and otherwise only when more bytes come. */
  function OffsetAfter(offset: nat, len: nat): nat
    requires offset <= 65536
  {
    if len == 0 then offset
    else if len < 65536 - offset then offset + len
    else Refilled(len - (65536 - offset))
  }

  function Refilled(n: nat): nat {
    if n == 0 then 0 else (n - 1) % 65536 + 1
  }

  lemma RefilledMore(m: nat, n: nat)
    requires 0 < n
    requires n <= BUFFER_SIZE - (if Refilled(m) == BUFFER_SIZE then 0 else Refilled(m))
    ensures Refilled(m + n) == n + if Refilled(m) == BUFFER_SIZE then 0 else Refilled(m)
  {
  }

  lemma RefilledStart()
    ensures Refilled(0) == 0
  {
  }

  class FileWriter {
    var bufferOffset: nat
    const buffer: array<byte>

    /** The bytes handed to `write` so far; a write is taken to be complete. */
    var file: Bytes

    ghost predicate Valid()
      reads this
    {
      buffer.Length == 65536 && bufferOffset <= 65536
    }

    /** Everything appended: what is on file, then what waits in the buffer. */
    ghost function Contents(): Bytes
      requires Valid()
      reads this, buffer
    {
      file + buffer[..bufferOffset]
    }

    constructor ()
      ensures Valid() && fresh(buffer) && file == [] && bufferOffset == 0
    {
      bufferOffset := 0;
      buffer := new byte[BUFFER_SIZE](_ => 0);
      file := [];
    }

    predicate IsBufferFull()
      reads this
    {
      bufferOffset == BUFFER_SIZE
    }

    /** `write(fd, buffer, len)`, then the buffer is empty. */
    method BufPersist(len: nat)
      requires Valid() && len == bufferOffset
      modifies this
      ensures Valid() && bufferOffset == 0 && Contents() == old(Contents()) == file
    {
      file := file + buffer[..len];
      bufferOffset := 0;
    }

    /** `memcpy(buffer + buffer_offset, data + data_offset, n)` and the offset moves on. */
    method Copy(data: Bytes, dataOffset: nat, n: nat)
      requires Valid() && dataOffset + n <= |data| && bufferOffset + n <= BUFFER_SIZE
      modifies this`bufferOffset, buffer
      ensures Valid() && bufferOffset == old(bufferOffset) + n
      ensures Contents() == old(Contents()) + data[dataOffset..dataOffset + n]
    {
      forall i | 0 <= i < n {
        buffer[bufferOffset + i] := data[dataOffset + i];
      }
      bufferOffset := bufferOffset + n;
      assert buffer[..bufferOffset] == old(buffer[..bufferOffset]) + data[dataOffset..dataOffset + n];
    }

    /** The loop of `Append`, after the buffer has been filled and written once. */
    method AppendRest(data: Bytes, from: nat)
      requires Valid() && from <= |data| && bufferOffset == 0
      modifies this, buffer
      ensures Valid() && Contents() == old(Contents()) + data[from..]
      ensures bufferOffset == Refilled(|data| - from)
    {
      RefilledStart();
      hide Refilled;
      var len, dataOffset := |data| - from, from;
      while len > 0
        invariant Valid() && 0 <= len && dataOffset + len == |data| && from <= dataOffset
        invariant Contents() == old(Contents()) + data[from..dataOffset]
        invariant bufferOffset == Refilled(dataOffset - from)
        decreases len, if IsBufferFull() then 1 else 0
      {
        if IsBufferFull() {
          BufPersist(BUFFER_SIZE);
        }
        var needCpy := if len < BUFFER_SIZE - bufferOffset then len else BUFFER_SIZE - bufferOffset;
        RefilledMore(dataOffset - from, needCpy);
        Copy(data, dataOffset, needCpy);
        assert data[from..dataOffset] + data[dataOffset..dataOffset + needCpy] == data[from..dataOffset + needCpy];
        dataOffset := dataOffset + needCpy;
        len := len - needCpy;
        if len == 0 {
          break;
        }
      }
      assert data[from..dataOffset] == data[from..];
    }

    /** Appends `data`, of any length, and writes the buffer out as often as it fills up. */
    method Append(data: Bytes, flush: bool := false)
      requires Valid()
      modifies this, buffer
      ensures Valid() && Contents() == old(Contents()) + data
      ensures flush && data != [] ==> file == Contents()
      ensures bufferOffset == if flush && data != [] then 0 else OffsetAfter(old(bufferOffset), |data|)
    {
      var len := |data|;
      if len == 0 {
        return;
      }
      var remainBufSize := BUFFER_SIZE - bufferOffset;
      if len < remainBufSize {
        Copy(data, 0, len);
        assert data[0..len] == data;
      } else {
        Copy(data, 0, remainBufSize);
        BufPersist(BUFFER_SIZE);
        AppendRest(data, remainBufSize);
        assert data[0..remainBufSize] + data[remainBufSize..] == data;
      }
      if flush {
        BufPersist(bufferOffset);
      }
    }

    method Flush()
      requires Valid()
      modifies this
      ensures Valid() && file == Contents() == old(Contents())
    {
      if bufferOffset > 0 {
        BufPersist(bufferOffset);
      }
    }
  }

  /** Any sequence of appends and flushes is one append of everything, and a last flush puts it on file. */
  method AppendAll(writer: FileWriter, chunks: seq<Bytes>, flushAfter: nat -> bool)
    requires writer.Valid()
    modifies writer, writer.buffer
    ensures writer.Valid()
    ensures writer.file == writer.Contents() == old(writer.Contents()) + Concat(chunks)
  {
    var i := 0;
    while i < |chunks|
      invariant 0 <= i <= |chunks| && writer.Valid()
      invariant writer.Contents() == old(writer.Contents()) + Concat(chunks[..i])
    {
      writer.Append(chunks[i]);
      if flushAfter(i) {
        writer.Flush();
      }
      assert chunks[..i + 1][..i] == chunks[..i];
      i := i + 1;
    }
    assert chunks[..i] == chunks;
    writer.Flush();
  }

  function Concat(chunks: seq<Bytes>): Bytes {
    if chunks == [] then [] else Concat(chunks[..|chunks| - 1]) + chunks[|chunks| - 1]
  }
}
