/**
 tarWrite.c: the block writer that libtar calls, which collects blocks in a buffer, reports
 progress, and empties the buffer for good after the two end-of-archive blocks.
 */
module TarWrite {
  import opened Common

  const T_BLOCKSIZE: nat := 512
  const PTR_SIZE: nat := 8  // sizeof(char *), the factor in the allocation
  const INT_MAX: nat := 0x7fff_ffff

  /** What the writer's globals and its two file descriptors hold. */
  datatype Stream = Stream(size: nat, eot: int, buffered: Bytes, fd: Bytes, progress: seq<nat>)

  function NextEot(eot: int): int { if 0 <= eot < 2 then eot + 1 else eot }

  /** Whether this call empties the buffer. */
  predicate Flushes(s: Stream, data: Bytes) { s.size <= |s.buffered + data| || 2 <= NextEot(s.eot) }

  /** What write() transfers of `n` bytes: all of them, some, or none with an error. */
  function Transferred(n: nat, room: int): nat { if room < 0 then 0 else if room < n then room else n }

  predicate WriteSucceeds(n: nat, room: int) { n <= room }

  function Write(s: Stream, data: Bytes, room: int): Stream {
    var pending := s.buffered + data;
    var t := s.(eot := NextEot(s.eot), buffered := pending);
    if !Flushes(s, data) || pending == [] then t
    else if WriteSucceeds(|pending|, room)
    then t.(buffered := [], fd := s.fd + pending, progress := s.progress + [|pending|])
    else t.(buffered := [], fd := s.fd + pending[..Transferred(|pending|, room)])  // the rest is lost
  }

  function WriteResult(s: Stream, data: Bytes, room: int): int {
    var pending := s.buffered + data;
    if !Flushes(s, data) then |data|
    else if pending == [] then 0
    else if WriteSucceeds(|pending|, room) then |data|
    else -1
  }

  /**
   A call fails exactly if it loses bytes: then what has been written and buffered is cut short
   and no progress is reported. Otherwise it returns the size of the block, and a report of what
   left the buffer is made exactly if the call emptied it.
   */
  lemma FailsIffBytesAreLost(s: Stream, data: Bytes, room: int)
    ensures var t, r := Write(s, data, room), WriteResult(s, data, room);
            && (r == -1 <==> t.fd + t.buffered != s.fd + s.buffered + data)
            && (r == -1 ==>
                  && t.fd < s.fd + s.buffered + data && |t.fd| - |s.fd| == (if room < 0 then 0 else room)
                  && t.buffered == [] && t.progress == s.progress)
            && (r != -1 ==> r == |data|)
            && (r != -1 && t.fd != s.fd ==>
                  t.buffered == [] && t.progress == s.progress + [|s.buffered| + |data|])
            && (t.fd == s.fd ==> t.progress == s.progress)
  {
    var t, pending := Write(s, data, room), s.buffered + data;
    assert s.fd + s.buffered + data == s.fd + pending;
    if Flushes(s, data) && pending != [] {
      var k := Transferred(|pending|, room);
      if WriteSucceeds(|pending|, room) {
        assert |t.fd| == |s.fd| + |pending|;
      } else {
        assert |t.fd + t.buffered| == |s.fd| + k < |s.fd + pending|;
      }
    }
  }

  /** The unbuffered writer reports one whole block before it writes. */
  function WriteUnbuffered(s: Stream, data: Bytes): Stream {
    s.(fd := s.fd + data, progress := s.progress + [T_BLOCKSIZE])
  }

  class TarBuffer {
    var flush: int
    var eotCount: int
    var writeBuffer: array<byte>
    var bufferSize: nat
    var bufferLoc: nat
    var fd: Bytes
    var progPipe: seq<nat>

    predicate Valid()
      reads this
    {
      && flush == 0
      && bufferLoc < bufferSize && writeBuffer.Length == 8 * bufferSize <= INT_MAX
    }

    function Abstract(): Stream
      reads this, writeBuffer
      requires Valid()
    {
      Stream(bufferSize, eotCount, writeBuffer[..bufferLoc], fd, progPipe)
    }

    constructor (currentSize: nat, newBuffSize: nat)
      requires 0 < currentSize && PTR_SIZE * currentSize <= INT_MAX && PTR_SIZE * newBuffSize <= INT_MAX
      ensures Valid() && fresh(writeBuffer)
      ensures Abstract() == Stream(if newBuffSize != 0 then newBuffSize else currentSize, -1, [], [], [])
    {
      bufferSize := if newBuffSize != 0 then newBuffSize else currentSize;
      flush, eotCount, bufferLoc := 0, -1, 0;
      fd, progPipe := [], [];
      new;
      writeBuffer := new byte[PTR_SIZE * bufferSize];
    }

    /** memcpy to the end of what is buffered. */
    method Append(data: Bytes)
      requires bufferLoc + |data| <= writeBuffer.Length
      modifies this`bufferLoc, writeBuffer
      ensures bufferLoc == old(bufferLoc) + |data|
      ensures writeBuffer[..bufferLoc] == old(writeBuffer[..bufferLoc]) + data
    {
      var i := 0;
      while i < |data|
        invariant 0 <= i <= |data| && bufferLoc == old(bufferLoc)
        invariant writeBuffer[..bufferLoc + i] == old(writeBuffer[..bufferLoc]) + data[..i]
      {
        writeBuffer[bufferLoc + i] := data[i];
        i := i + 1;
      }
      bufferLoc := bufferLoc + |data|;
      assert data[..i] == data;
    }

    /**
     write_libtar_buffer. The caller's only duty is that the block fits behind what is buffered,
     which any block of up to 7 * bufferSize + 1 bytes does.
     */
    method WriteLibtarBuffer(data: Bytes, room: int) returns (ret: int)
      requires Valid() && |data| <= 7 * bufferSize + 1
      modifies this, writeBuffer
      ensures Valid() && writeBuffer == old(writeBuffer)
      ensures Abstract() == Write(old(Abstract()), data, room)
      ensures ret == WriteResult(old(Abstract()), data, room)
    {
      Append(data);
      if 0 <= eotCount && eotCount < 2 {
        eotCount := eotCount + 1;
      }
      if bufferSize <= bufferLoc || 2 <= eotCount {
        flush := 1;
      }
      if flush == 1 {
        flush := 0;
        if bufferLoc == 0 {
          return 0;
        }
        var pending := writeBuffer[..bufferLoc];
        var written := if room < 0 then -1 else Transferred(bufferLoc, room);
        if written != bufferLoc {
          fd := fd + pending[..Transferred(bufferLoc, room)];
          bufferLoc := 0;
          return -1;
        } else {
          fd := fd + pending;
          progPipe := progPipe + [bufferLoc];
          bufferLoc := 0;
          return |data|;
        }
      } else {
        return |data|;
      }
    }

    /** flush_libtar_buffer: from now on two more blocks are expected. */
    method FlushLibtarBuffer()
      requires Valid()
      modifies this`eotCount
      ensures Valid() && Abstract() == old(Abstract()).(eot := 0)
    {
      eotCount := 0;
    }

    method WriteLibtarNoBuffer(data: Bytes)
      requires Valid()
      modifies this`fd, this`progPipe
      ensures Valid() && Abstract() == WriteUnbuffered(old(Abstract()), data)
    {
      progPipe := progPipe + [T_BLOCKSIZE];
      fd := fd + data;
    }
  }

  // ---- Whole archives ----

  function Concat(blocks: seq<Bytes>): Bytes {
    if blocks == [] then [] else Concat(blocks[..|blocks| - 1]) + blocks[|blocks| - 1]
  }

  function Total(reports: seq<nat>): nat {
    if reports == [] then 0 else Total(reports[..|reports| - 1]) + reports[|reports| - 1]
  }

  /** A run of calls whose writes never come short. */
  function Feed(s: Stream, blocks: seq<Bytes>): Stream {
    if blocks == [] then s
    else
      var t := Feed(s, blocks[..|blocks| - 1]);
      Write(t, blocks[|blocks| - 1], |t.buffered| + |blocks[|blocks| - 1]|)
  }

  /**
   `t` comes after `s` and `data`: the bytes on the descriptor and in the buffer are those of `s`
   and `data`, the new reports add up to the new bytes on the descriptor, and the buffer is not
   full. Before the flush only full buffers were written.
   */
  ghost predicate Conserves(s: Stream, data: Bytes, t: Stream) {
    && t.fd + t.buffered == s.fd + s.buffered + data
    && |t.fd| - |s.fd| == Total(t.progress) - Total(s.progress)
    && t.size == s.size && |t.buffered| < t.size && s.progress <= t.progress
    && (s.eot < 0 ==> t.eot == s.eot && forall i | |s.progress| <= i < |t.progress| :: t.size <= t.progress[i])
  }

  lemma WriteConserves(s: Stream, data: Bytes)
    requires |s.buffered| < s.size
    ensures Conserves(s, data, Write(s, data, |s.buffered| + |data|))
  {
    var pending := s.buffered + data;
    assert (s.progress + [|pending|])[..|s.progress|] == s.progress;
    assert s.fd + pending == s.fd + s.buffered + data;
  }

  lemma ConservesTwice(s: Stream, a: Bytes, t: Stream, b: Bytes, u: Stream)
    requires Conserves(s, a, t) && Conserves(t, b, u)
    ensures Conserves(s, a + b, u)
  {
    assert s.fd + s.buffered + (a + b) == s.fd + s.buffered + a + b;
  }

  /** Nothing is lost, duplicated or reordered over any run of calls. */
  lemma {:induction false} FeedConserves(s: Stream, blocks: seq<Bytes>)
    requires |s.buffered| < s.size
    ensures Conserves(s, Concat(blocks), Feed(s, blocks))
  {
    if blocks == [] {
      assert s.fd + s.buffered + [] == s.fd + s.buffered;
    } else {
      hide Write, Conserves;
      var init, b := blocks[..|blocks| - 1], blocks[|blocks| - 1];
      FeedConserves(s, init);
      var t := Feed(s, init);
      NotFull(s, Concat(init), t);
      WriteConserves(t, b);
      ConservesTwice(s, Concat(init), t, b, Feed(s, blocks));
    }
  }

  lemma NotFull(s: Stream, data: Bytes, t: Stream)
    requires Conserves(s, data, t)
    ensures |t.buffered| < t.size
  {
  }

  lemma {:induction false} ConcatAppend(a: seq<Bytes>, b: seq<Bytes>)
    ensures Concat(a + b) == Concat(a) + Concat(b)
  {
    if b == [] {
      assert a + b == a;
    } else {
      assert (a + b)[..|a + b| - 1] == a + b[..|b| - 1];
      ConcatAppend(a, b[..|b| - 1]);
    }
  }

  /** Once two blocks have followed the flush, every call leaves the buffer empty. */
  lemma {:induction false} AfterEofNothingIsHeld(s: Stream, blocks: seq<Bytes>)
    requires s.eot == 0 && 2 <= |blocks|
    ensures Feed(s, blocks).eot == 2 && Feed(s, blocks).buffered == []
  {
    var init := blocks[..|blocks| - 1];
    if |blocks| == 2 {
      assert init[..0] == [];
      assert Feed(s, init).eot == 1;
    } else {
      AfterEofNothingIsHeld(s, init);
    }
  }

  // ---- The unbuffered writer ----

  function FeedUnbuffered(s: Stream, blocks: seq<Bytes>): Stream {
    if blocks == [] then s else WriteUnbuffered(FeedUnbuffered(s, blocks[..|blocks| - 1]), blocks[|blocks| - 1])
  }

  lemma {:induction false} UnbufferedRun(s: Stream, blocks: seq<Bytes>)
    requires s.fd == [] && s.progress == []
    ensures FeedUnbuffered(s, blocks).fd == Concat(blocks)
    ensures Total(FeedUnbuffered(s, blocks).progress) == T_BLOCKSIZE * |blocks|
  {
    if blocks != [] {
      var init := blocks[..|blocks| - 1];
      UnbufferedRun(s, init);
      var reports := FeedUnbuffered(s, init).progress;
      assert (reports + [T_BLOCKSIZE])[..|reports|] == reports;
    }
  }

  lemma {:induction false} FullBlocksLength(blocks: seq<Bytes>)
    requires forall b <- blocks :: |b| == 512
    ensures |Concat(blocks)| == 512 * |blocks|
  {
    if blocks != [] { FullBlocksLength(blocks[..|blocks| - 1]); }
  }

  /**
   A closed archive equals the unbuffered one: after the blocks of the archive, the flush and
   at least the two end-of-archive blocks, the descriptor holds what a run of the unbuffered
   writer over the same blocks would have put there, nothing is held back, and for whole blocks
   the reports of both writers add up to the same total.
   */
  lemma ArchiveIsComplete(s: Stream, blocks: seq<Bytes>, eof: seq<Bytes>)
    requires s.eot == -1 && 0 < s.size && s.buffered == [] && s.fd == [] && s.progress == [] && 2 <= |eof|
    ensures var t, u := Feed(Feed(s, blocks).(eot := 0), eof), FeedUnbuffered(s, blocks + eof);
            && t.fd == u.fd == Concat(blocks + eof) && t.buffered == []
            && Total(t.progress) == |t.fd|
            && ((forall b <- blocks + eof :: |b| == 512) ==> Total(t.progress) == Total(u.progress))
  {
    FeedConserves(s, blocks);
    var mid := Feed(s, blocks).(eot := 0);
    FeedConserves(mid, eof);
    AfterEofNothingIsHeld(mid, eof);
    ConcatAppend(blocks, eof);
    UnbufferedRun(s, blocks + eof);
    if forall b <- blocks + eof :: |b| == 512 { FullBlocksLength(blocks + eof); }
    var t := Feed(mid, eof);
    assert t.fd + [] == t.fd && [] + [] + Concat(blocks) == Concat(blocks);
  }

  /** With a single end-of-archive block the archive is complete only if that block happens to fill the buffer. */
  lemma OneEofBlockIff(s: Stream, blocks: seq<Bytes>, last: Bytes)
    requires s.eot == -1 && 0 < s.size && s.buffered == [] && s.fd == [] && s.progress == [] && last != []
    ensures Feed(Feed(s, blocks).(eot := 0), [last]).fd == Concat(blocks + [last]) <==>
            s.size <= |Feed(s, blocks).buffered + last|
  {
    FeedConserves(s, blocks);
    var mid := Feed(s, blocks).(eot := 0);
    FeedConserves(mid, [last]);
    ConcatAppend(blocks, [last]);
    var t := Feed(mid, [last]);
    assert [last][..0] == [] && Feed(mid, []) == mid;
    assert t.fd + [] == t.fd && [] + [] + Concat(blocks) == Concat(blocks);
  }

  // ---- The writer at work ----

  /** A write that does not come short has the effect of one step of Feed. */
  lemma FullWrite(s: Stream, data: Bytes, room: int)
    requires |s.buffered| + |data| <= room
    ensures Write(s, data, room) == Write(s, data, |s.buffered| + |data|) && WriteResult(s, data, room) == |data|
  {
  }

  /** Blocks go through the buffer one by one; no write comes short. */
  method WriteBlocks(buffer: TarBuffer, blocks: seq<Bytes>, room: int)
    requires buffer.Valid() && 8 * buffer.bufferSize <= room
    requires forall b <- blocks :: |b| <= 7 * buffer.bufferSize + 1
    modifies buffer, buffer.writeBuffer
    ensures buffer.Valid() && buffer.writeBuffer == old(buffer.writeBuffer)
    ensures buffer.Abstract() == Feed(old(buffer.Abstract()), blocks)
  {
    hide Write, WriteResult;
    var i := 0;
    while i < |blocks|
      invariant 0 <= i <= |blocks| && buffer.Valid() && buffer.writeBuffer == old(buffer.writeBuffer)
      invariant buffer.bufferSize == old(buffer.bufferSize)
      invariant buffer.Abstract() == Feed(old(buffer.Abstract()), blocks[..i])
    {
      FullWrite(buffer.Abstract(), blocks[i], room);
      WriteKeepsSize(buffer.Abstract(), blocks[i], room);
      var ret := buffer.WriteLibtarBuffer(blocks[i], room);
      assert blocks[..i + 1][..i] == blocks[..i];
      i := i + 1;
    }
    assert blocks[..i] == blocks;
  }

  lemma WriteKeepsSize(s: Stream, data: Bytes, room: int)
    ensures Write(s, data, room).size == s.size
  {
  }

  /** An archive from its first block to its end: the descriptor holds all blocks, and nothing is held back. */
  method WriteArchive(bufferSize: nat, blocks: seq<Bytes>, eof: seq<Bytes>, room: int) returns (fd: Bytes)
    requires 0 < bufferSize && 8 * bufferSize <= INT_MAX && 8 * bufferSize <= room && 2 <= |eof|
    requires forall b <- blocks + eof :: |b| <= 7 * bufferSize + 1
    ensures fd == Concat(blocks + eof)
  {
    hide Feed, Concat;
    var buffer := new TarBuffer(bufferSize, 0);
    ghost var s := buffer.Abstract();
    assert forall b <- blocks :: b in blocks + eof;
    assert forall b <- eof :: b in blocks + eof;
    FeedConserves(s, blocks);
    WriteBlocks(buffer, blocks, room);
    buffer.FlushLibtarBuffer();
    WriteBlocks(buffer, eof, room);
    ArchiveIsComplete(s, blocks, eof);
    fd := buffer.fd;
  }
}
