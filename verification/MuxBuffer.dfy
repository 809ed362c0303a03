/** A fixed-size buffer with a valid stretch between two offsets, fed at the end and drained at the front. */
module MuxBuffer {
  import opened Sequences

  const BUF_SIZE: nat := 204800

  /** What a read call finds: end of file, an error, or available bytes. */
  datatype Input = Eof | Failed | Available(bytes: string)

  class FdData {
    var open: bool
    const buf: array<char>
    var dataBegin: int
    var dataEnd: int
    // All bytes that ever entered and left the buffer
    ghost var received: string
    ghost var removed: string

    /** The assertions of `check_fdd`, and that no byte is lost or added inside. */
    ghost predicate Valid()
      reads `dataBegin, `dataEnd, `received, `removed, buf
    {
      && buf.Length == BUF_SIZE
      && 0 <= dataBegin <= dataEnd <= BUF_SIZE
      && received == removed + buf[dataBegin..dataEnd]
    }

    ghost function Data(): (data: string)
      requires Valid()
      reads `dataBegin, `dataEnd, `received, `removed, buf
      ensures |data| == dataEnd - dataBegin
    {
      buf[dataBegin..dataEnd]
    }

    predicate IsEmpty()
      reads `dataBegin, `dataEnd
    {
      dataBegin == dataEnd
    }

    function Free(): int
      reads `dataEnd
    {
      BUF_SIZE - dataEnd
    }

    constructor (open: bool)
      ensures Valid() && fresh(buf) && this.open == open
      ensures dataBegin == dataEnd == 0 && received == removed == ""
    {
      this.open := open;
      buf := new char[BUF_SIZE];
      dataBegin, dataEnd := 0, 0;
      received, removed := "", "";
    }

    method MoveToFront()
      requires Valid()
      modifies `dataBegin, `dataEnd, buf
      ensures Valid() && dataBegin == 0 && Data() == old(Data())
    {
      ghost var data := Data();
      if dataBegin == dataEnd {
        dataBegin, dataEnd := 0, 0;
      } else {
        var diff := dataEnd - dataBegin;
        var begin := dataBegin;
        forall i | 0 <= i < diff {
          buf[i] := buf[begin + i];
        }
        dataBegin, dataEnd := 0, diff;
      }
      assert buf[dataBegin..dataEnd] == data;
    }

    /** `memcpy` behind the valid bytes. */
    method Put(bytes: string)
      requires Valid() && |bytes| <= Free()
      modifies `dataEnd, `received, buf
      ensures Valid() && Data() == old(Data()) + bytes && received == old(received) + bytes
      ensures dataEnd == old(dataEnd) + |bytes|
    {
      ghost var data := Data();
      var end := dataEnd;
      forall i | 0 <= i < |bytes| {
        buf[end + i] := bytes[i];
      }
      dataEnd := dataEnd + |bytes|;
      received := received + bytes;
      assert buf[dataBegin..dataEnd] == data + bytes;
      assert received == removed + data + bytes == removed + (data + bytes);
    }

    /** Drop `n` valid bytes at the front. */
    method Take(n: nat)
      requires Valid() && n <= |Data()|
      modifies `dataBegin, `removed
      ensures Valid() && Data() == old(Data())[n..] && removed == old(removed) + old(Data())[..n]
      ensures dataBegin == old(dataBegin) + n
    {
      ghost var data := Data();
      dataBegin := dataBegin + n;
      removed := removed + data[..n];
      assert data == data[..n] + data[n..];
      assert buf[dataBegin..dataEnd] == data[n..];
    }

    method Close()
      modifies `open
      ensures !open
    {
      open := false;
    }
  }

  /** The offset of the first `c` in `b[begin..end]`, or `end`. */
  method Find(b: array<char>, begin: nat, end: nat, c: char) returns (k: nat)
    requires begin <= end <= b.Length
    ensures begin <= k <= end && (k < end ==> b[k] == c)
    ensures forall i :: begin <= i < k ==> b[i] != c
  {
    k := begin;
    while k != end
      invariant begin <= k <= end
      invariant forall i :: begin <= i < k ==> b[i] != c
    {
      if b[k] == c {
        break;
      }
      k := k + 1;
    }
  }

  /** The part of `input` that one read call delivers into `room` bytes. */
  function Chunk(input: Input, room: int): string {
    if input.Available? && room > 0 then input.bytes[..Min(|input.bytes|, room)] else ""
  }

  /** One read into `fdd`, and a copy of what was read into `extra`. */
  method CopyToBuffer(ready: bool, input: Input, fdd: FdData, extra: FdData?)
    requires fdd.Valid() && (extra != null ==> extra.Valid() && extra != fdd && extra.buf != fdd.buf)
    modifies fdd`open, fdd`dataEnd, fdd`received, fdd.buf
    modifies if extra == null then {} else {extra, extra.buf}
    ensures fdd.Valid() && (extra != null ==> extra.Valid())
    ensures var room := if extra == null then old(fdd.Free()) else Min(old(fdd.Free()), old(extra.Free()));
            var chunk := if old(fdd.open) && ready then Chunk(input, room) else "";
            && fdd.Data() == old(fdd.Data()) + chunk && fdd.received == old(fdd.received) + chunk
            && (extra != null ==>
                extra.Data() == old(extra.Data()) + chunk && extra.received == old(extra.received) + chunk)
            && (fdd.open <==> old(fdd.open) && (ready ==> chunk != ""))
    ensures extra != null ==> extra.removed == old(extra.removed) && extra.dataBegin == old(extra.dataBegin)
  {
    if !fdd.open || !ready {
      return;
    }
    var room := fdd.Free();
    if extra != null {
      room := Min(room, extra.Free());
    }
    var chunk := Chunk(input, room);
    if chunk == "" {
      fdd.Close();
    } else {
      if extra != null {
        extra.Put(chunk);
      }
      fdd.Put(chunk);
    }
  }

  lemma InBounds(fdd: FdData)
    requires fdd.Valid()
    ensures 0 <= fdd.dataBegin <= fdd.dataEnd <= BUF_SIZE
  {
  }

  method MoveOne(from: FdData, to: FdData)
    requires from.Valid() && to.Valid() && from != to && from.buf != to.buf
    requires !from.IsEmpty() && to.Free() > 0
    modifies from`dataBegin, from`removed, to`dataEnd, to`received, to.buf
    ensures from.Valid() && to.Valid() && to.Free() == old(to.Free()) - 1 && from.Data() == old(from.Data())[1..]
    ensures to.received == old(to.received) + old(from.Data())[..1]
    ensures from.removed == old(from.removed) + old(from.Data())[..1]
  {
    ghost var data := from.Data();
    var c := from.buf[from.dataBegin];
    assert data[..1] == [c];
    to.Put([c]);
    from.Take(1);
  }

  /** Byte-wise copying as far as it fits. */
  method CopyThrough(from: FdData, to: FdData)
    requires from.Valid() && to.Valid() && from != to && from.buf != to.buf
    modifies from`dataBegin, from`dataEnd, from`removed, from.buf, to`dataEnd, to`received, to.buf
    ensures from.Valid() && to.Valid() && from.dataBegin == 0
    ensures var n := Min(old(to.Free()), |old(from.Data())|);
            && to.received == old(to.received) + old(from.Data())[..n]
            && from.removed == old(from.removed) + old(from.Data())[..n]
            && from.Data() == old(from.Data())[n..]
  {
    hide FdData.Valid, FdData.Data;
    InBounds(from);
    InBounds(to);
    var size := Min(to.Free(), from.dataEnd - from.dataBegin);
    ghost var data := from.Data();
    var i := 0;
    while i < size
      invariant 0 <= i <= size
      invariant from.Valid() && to.Valid()
      invariant from.Data() == data[i..] && to.Free() == old(to.Free()) - i
      invariant to.received == old(to.received) + data[..i] && from.removed == old(from.removed) + data[..i]
    {
      assert data[..i + 1] == data[..i] + [data[i]];
      MoveOne(from, to);
      i := i + 1;
    }
    from.MoveToFront();
  }

  /** The first `n` bytes have left. */
  ghost predicate Flushed(data: string, removed: string, nowData: string, nowRemoved: string, n: nat) {
    n <= |data| && nowData == data[n..] && nowRemoved == removed + data[..n]
  }

  /** One write call that accepts at most `accept` bytes; none at all is an error. */
  method CopyToFd(ready: bool, accept: int, fdd: FdData)
    requires fdd.Valid()
    modifies fdd`open, fdd`dataBegin, fdd`dataEnd, fdd`removed, fdd.buf
    ensures fdd.Valid()
    ensures var n := if old(fdd.open) && ready && accept > 0 then Min(accept, |old(fdd.Data())|) else 0;
            && Flushed(old(fdd.Data()), old(fdd.removed), fdd.Data(), fdd.removed, n) && old(fdd.removed) <= fdd.removed
            && (fdd.open <==> old(fdd.open) && (ready && old(fdd.Data()) != "" ==> accept > 0))
    ensures old(fdd.dataBegin) == 0 ==> fdd.dataBegin == 0
  {
    if !fdd.open || fdd.IsEmpty() || !ready {
      return;
    }
    var s := Min(accept, fdd.dataEnd - fdd.dataBegin);
    if s <= 0 {
      fdd.Close();
    } else {
      fdd.Take(s);
    }
    fdd.MoveToFront();
  }

  /** Taking `s` more bytes after `n`. */
  lemma Drained(data: string, was: string, n: nat, s: nat)
    requires n + s <= |data|
    ensures data[n..][s..] == data[n + s..] && was + data[..n] + data[n..][..s] == was + data[..n + s]
    ensures data[0..] == data && was + data[..0] == was
  {
    assert data[..n] + data[n..][..s] == data[..n + s];
  }

  /** Writes until the buffer is empty or a write fails; the k-th write accepts `accept(k)` bytes. */
  method CopyToTerm(ready: bool, accept: nat -> int, fdd: FdData) returns (ghost n: nat)
    requires fdd.Valid()
    modifies fdd`open, fdd`dataBegin, fdd`dataEnd, fdd`removed, fdd.buf
    ensures fdd.Valid()
    ensures Flushed(old(fdd.Data()), old(fdd.removed), fdd.Data(), fdd.removed, n) && old(fdd.removed) <= fdd.removed
    ensures old(fdd.open) && ready ==> fdd.Data() == "" || !fdd.open
    ensures (forall k: nat :: accept(k) > 0) ==> fdd.open == old(fdd.open)
    ensures old(fdd.dataBegin) == 0 ==> fdd.dataBegin == 0
    ensures !(old(fdd.open) && ready) ==> fdd.Data() == old(fdd.Data()) && fdd.open == old(fdd.open)
  {
    hide FdData.Valid, FdData.Data;
    ghost var data := fdd.Data();
    ghost var was := fdd.removed;
    n := 0;
    Drained(data, was, 0, 0);
    if !fdd.open || fdd.IsEmpty() || !ready {
      return;
    }
    var k := 0;
    while !fdd.IsEmpty()
      invariant fdd.Valid() && 0 <= n <= |data| && k >= 0
      invariant fdd.Data() == data[n..] && fdd.removed == was + data[..n] && fdd.open == old(fdd.open)
      decreases |data| - n
      modifies fdd`open, fdd`dataBegin, fdd`removed
    {
      var s := Min(accept(k), fdd.dataEnd - fdd.dataBegin);
      if s <= 0 {
        fdd.Close();
        break;
      }
      Drained(data, was, n, s);
      fdd.Take(s);
      k := k + 1;
      n := n + s;
    }
    fdd.MoveToFront();
  }
}
