/** An open label file: its text, its read/write offset, and which of its operations fail.
    The failures stand for the I/O errors the operating system may report. */
module Files {
  import opened Errors

  /** Which operations of a handle fail. With `readFailsAfter == Some(n)` reading delivers
      at most n bytes and then fails. Writes are numbered from 0 over the handle's life; with
      `failWritesFrom == Some(k)` write k and every later one fail. */
  datatype Faults = Faults(seek: bool, readFailsAfter: Option<nat>, truncate: bool, failWritesFrom: Option<nat>, close: bool)

  const NoFaults := Faults(false, None, false, None, false)

  /** What reading from `offset` to the end delivers: the rest of the text, cut where a
      read fault strikes. */
  function Readable(content: string, offset: nat, faults: Faults): (data: string)
    ensures offset <= |content| && faults.readFailsAfter.None? ==> data == content[offset..]
    ensures offset <= |content| && faults.readFailsAfter.Some? ==>
      var n := faults.readFailsAfter.value;
      data == content[offset..if offset + n < |content| then offset + n else |content|]
    ensures offset > |content| ==> data == []
  {
    if offset > |content| then []
    else match faults.readFailsAfter
      case None => content[offset..]
      case Some(n) => content[offset..if offset + n < |content| then offset + n else |content|]
  }

  predicate WriteFails(faults: Faults, n: nat) {
    faults.failWritesFrom.Some? && n >= faults.failWritesFrom.value
  }

  /** `n` zero characters, the bytes a file reads as where it was never written. */
  function Zeros(n: nat): (r: string)
    ensures |r| == n && forall i :: 0 <= i < n ==> r[i] == 0 as char
  {
    if n == 0 then [] else Zeros(n - 1) + [0 as char]
  }

  /** The text after writing `s` at `offset`: the old text is overwritten from the offset
      on, and a gap left past the old end reads as zeros. */
  function Overwrite(content: string, offset: nat, s: string): (r: string)
    ensures |r| == if offset + |s| > |content| then offset + |s| else |content|
    ensures r[offset..offset + |s|] == s
    ensures forall i :: 0 <= i < |content| && !(offset <= i < offset + |s|) ==> r[i] == content[i]
    ensures forall i :: |content| <= i < offset ==> r[i] == 0 as char
  {
    var head := if offset <= |content| then content[..offset] else content + Zeros(offset - |content|);
    var tail := if offset + |s| <= |content| then content[offset + |s|..] else [];
    assert |head| == offset;
    head + s + tail
  }

  /** Writing at the end of the text appends. */
  lemma OverwriteAtEnd(content: string, s: string)
    ensures Overwrite(content, |content|, s) == content + s
  {
  }

  /** The text truncated or extended with zeros to `size`. */
  function Resize(content: string, size: nat): (r: string)
    ensures |r| == size
    ensures forall i :: 0 <= i < size && i < |content| ==> r[i] == content[i]
  {
    if size <= |content| then content[..size] else content + Zeros(size - |content|)
  }

  class File {
    var content: string
    var offset: nat
    var writes: nat
    var closed: bool
    /** Opened with O_APPEND: every write goes to the end. */
    const append: bool
    const faults: Faults

    constructor (content: string, append: bool, faults: Faults)
      ensures this.content == content && this.append == append && this.faults == faults
      ensures offset == 0 && writes == 0 && !closed
    {
      this.content := content;
      this.offset := 0;
      this.writes := 0;
      this.closed := false;
      this.append := append;
      this.faults := faults;
    }

    /** Seek(0, io.SeekStart). */
    method Rewind() returns (err: Option<Error>)
      modifies this
      ensures err == (if faults.seek then Some(Io(IoOp.Seek)) else None)
      ensures offset == (if faults.seek then old(offset) else 0)
      ensures content == old(content) && writes == old(writes) && closed == old(closed)
    {
      if faults.seek {
        return Some(Io(IoOp.Seek));
      }
      offset := 0;
      return None;
    }

    /** io.ReadAll: everything from the offset to the end, leaving the offset after what was
        read. A read fault returns what was read before it, with the error. */
    method ReadAll() returns (data: string, err: Option<Error>)
      modifies this
      ensures data == Readable(content, old(offset), faults)
      ensures err == (if faults.readFailsAfter.Some? then Some(Io(IoOp.Read)) else None)
      ensures offset == old(offset) + |data|
      ensures content == old(content) && writes == old(writes) && closed == old(closed)
    {
      data := Readable(content, offset, faults);
      offset := offset + |data|;
      err := if faults.readFailsAfter.Some? then Some(Io(IoOp.Read)) else None;
    }

    /** Truncate(size): the text is cut or extended with zeros; the offset is not moved. */
    method Truncate(size: nat) returns (err: Option<Error>)
      modifies this
      ensures err == (if faults.truncate then Some(Io(IoOp.Truncate)) else None)
      ensures content == (if faults.truncate then old(content) else Resize(old(content), size))
      ensures offset == old(offset) && writes == old(writes) && closed == old(closed)
    {
      if faults.truncate {
        return Some(Io(IoOp.Truncate));
      }
      content := Resize(content, size);
      return None;
    }

    /** WriteString: at the offset, or at the end for a handle opened with O_APPEND, the
        offset then following the written text. A failed write writes nothing. */
    method WriteString(s: string) returns (err: Option<Error>)
      modifies this
      ensures writes == old(writes) + 1 && closed == old(closed)
      ensures WriteFails(faults, old(writes)) ==>
        (err == Some(Io(IoOp.Write)) && content == old(content) && offset == old(offset))
      ensures !WriteFails(faults, old(writes)) && append ==>
        (err == None && content == old(content) + s && offset == |content|)
      ensures !WriteFails(faults, old(writes)) && !append ==>
        (err == None && content == Overwrite(old(content), old(offset), s) && offset == old(offset) + |s|)
    {
      var failed := WriteFails(faults, writes);
      writes := writes + 1;
      if failed {
        return Some(Io(IoOp.Write));
      }
      if append {
        content := content + s;
        offset := |content|;
      } else {
        content := Overwrite(content, offset, s);
        offset := offset + |s|;
      }
      return None;
    }

    method Close() returns (err: Option<Error>)
      modifies this
      ensures closed
      ensures err == (if faults.close then Some(Io(IoOp.Close)) else None)
      ensures content == old(content) && offset == old(offset) && writes == old(writes)
    {
      closed := true;
      err := if faults.close then Some(Io(IoOp.Close)) else None;
    }
  }
}
