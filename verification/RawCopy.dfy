/** TWPartition::Raw_Read_Write: copying an image between a block device and a file. */
module RawCopy {
  import opened Common

  const RW_BLOCK_SIZE: nat := 1048576
  const MAX_ADB_READ: nat := 512

  /** A block device keeps its size; a file is truncated when it is opened for writing. */
  class Store {
    var bytes: Bytes
    const device: bool

    constructor (b: Bytes, d: bool)
      ensures bytes == b && device == d
    {
      bytes, device := b, d;
    }
  }

  /** What can go wrong, by the number of bytes copied so far; a write may take only some bytes of a block. */
  datatype Faults = Faults(read: nat -> bool, short: nat -> Option<nat>, cancel: nat -> bool)

  function Min(a: nat, b: nat): nat { if a < b then a else b }

  /** Nothing goes wrong with the block at `from`, after which `to` bytes are copied. */
  predicate BlockIsClear(f: Faults, from: nat, to: nat) { !f.read(from) && f.short(from).None? && !f.cancel(to) }

  /** Nothing goes wrong with any block from `from` on. */
  predicate AllClear(f: Faults, from: nat, total: nat, bs: nat)
    requires 0 < bs
    decreases total - from
  {
    from < total ==>
      var to := Min(from + bs, total);
      BlockIsClear(f, from, to) && AllClear(f, to, total, bs)
  }

  /** The progress reports from `from` on: the number of copied bytes after each block. */
  function Reports(from: nat, total: nat, bs: nat): seq<nat>
    requires 0 < bs
    decreases total - from
  {
    if total <= from then [] else
      var to := Min(from + bs, total);
      [to] + Reports(to, total, bs)
  }

  /** Report number `i` says that `i + 1` blocks were copied, and the last one that all bytes were. */
  lemma {:induction false} ReportsAt(from: nat, total: nat, bs: nat, i: nat)
    requires 0 < bs && i < |Reports(from, total, bs)|
    ensures Reports(from, total, bs)[i] == Min(from + (i + 1) * bs, total)
    ensures i == |Reports(from, total, bs)| - 1 <==> total <= from + (i + 1) * bs
    decreases total - from
  {
    var to := Min(from + bs, total);
    assert (i + 1) * bs == i * bs + bs;
    if 0 < i {
      ReportsAt(to, total, bs, i - 1);
      assert i * bs == (i - 1) * bs + bs;
    } else if to < total {
      assert Reports(to, total, bs) != [];
    }
  }

  /** The contents of a store after `n` bytes of `src` were written from its start. */
  function Overlaid(src: Bytes, before: Bytes, n: nat): Bytes
    requires n <= |src|
  {
    src[..n] + if n < |before| then before[n..] else []
  }

  /** Some first part of the source, of at most `total` bytes, over the old contents. */
  ghost predicate PartOf(src: Bytes, before: Bytes, after: Bytes, total: nat) {
    exists n :: 0 <= n <= total && n <= |src| && after == Overlaid(src, before, n)
  }

  lemma PartIs(src: Bytes, before: Bytes, n: nat, total: nat)
    requires n <= total && n <= |src|
    ensures PartOf(src, before, Overlaid(src, before, n), total)
  {
  }

  /** What opening for writing leaves. */
  function Opened(device: bool, before: Bytes): Bytes { if device then before else [] }

  /** The copy loop: as many whole blocks as fit, then the rest. A failed write may still reach further. */
  method CopyBlocks(src: Store, dest: Store, total: nat, rwBlockSize: nat, faults: Faults, ghost base: Bytes)
    returns (ret: bool, progress: seq<nat>, ghost reached: nat)
    requires src != dest && 0 < rwBlockSize && dest.bytes == Overlaid(src.bytes, base, 0)
    requires dest.device ==> |base| == |dest.bytes|
    modifies dest`bytes
    ensures reached <= total && reached <= |src.bytes| && dest.bytes == Overlaid(src.bytes, base, reached)
    ensures ret ==> reached == total && progress == Reports(0, total, rwBlockSize)
    ensures progress <= Reports(0, total, rwBlockSize)
    ensures dest.device ==> |dest.bytes| == |base|
    ensures ret <==> && total <= |src.bytes| && (dest.device ==> total <= |base|)
                     && AllClear(faults, 0, total, rwBlockSize)
  {
    hide Overlaid;
    ret, progress := false, [];
    var bs := rwBlockSize;
    var remain: nat := total;
    var copied: nat := 0;
    reached := 0;
    while 0 < remain
      invariant copied + remain == total && copied <= |src.bytes| && reached == copied
      invariant 0 < remain ==> bs == rwBlockSize
      invariant dest.bytes == Overlaid(src.bytes, base, copied)
      invariant dest.device ==> copied <= |base| == |dest.bytes|
      invariant Reports(0, total, rwBlockSize) == progress + Reports(copied, total, rwBlockSize)
      invariant AllClear(faults, 0, total, rwBlockSize) <==> AllClear(faults, copied, total, rwBlockSize)
      decreases remain
    {
      if remain < rwBlockSize {
        bs := remain;
      }
      var moved;
      moved, reached := MoveBlock(src, dest, copied, bs, faults, base);
      if !moved {
        return;
      }
      copied := copied + bs;
      remain := remain - bs;
      progress := progress + [copied];
      if faults.cancel(copied) {
        return;
      }
    }
    assert progress + [] == progress;
    ret := true;
  }

  /**
   Copies `total` bytes in blocks of 1 MiB, or of 512 bytes for adb. It succeeds exactly if the
   source has the bytes, they fit, and nothing goes wrong with any block. Whatever happens, what
   was written is a prefix of the source over the old contents; on success it is the whole image.
   The progress reports count the copied bytes, block by block.
   */
  method RawReadWrite(src: Store, dest: Store, total: nat, adb: bool, faults: Faults)
    returns (ret: bool, progress: seq<nat>)
    requires src != dest
    modifies dest`bytes
    ensures ret ==> total <= |src.bytes|
                    && dest.bytes == Overlaid(src.bytes, Opened(dest.device, old(dest.bytes)), total)
    ensures !ret ==> PartOf(src.bytes, Opened(dest.device, old(dest.bytes)), dest.bytes, total)
    ensures dest.device ==> |dest.bytes| == |old(dest.bytes)|
    ensures ret <==> && total <= |src.bytes| && (dest.device ==> total <= |old(dest.bytes)|)
                     && AllClear(faults, 0, total, if adb then 512 else 0x10_0000)
    ensures progress <= Reports(0, total, if adb then 512 else 0x10_0000)
    ensures ret ==> progress == Reports(0, total, if adb then 512 else 0x10_0000)
  {
    hide AllClear, Reports;
    ghost var base := Opened(dest.device, dest.bytes);
    if !dest.device {
      dest.bytes := [];
    }
    assert dest.bytes == Overlaid(src.bytes, base, 0);
    ghost var reached;
    ret, progress, reached := CopyBlocks(src, dest, total, if adb then MAX_ADB_READ else RW_BLOCK_SIZE, faults, base);
    PartIs(src.bytes, base, reached, total);
  }

  /** One read and one write; both must transfer the whole block, but a short write leaves its part behind. */
  method MoveBlock(src: Store, dest: Store, copied: nat, bs: nat, faults: Faults, ghost base: Bytes)
    returns (ok: bool, ghost reached: nat)
    requires src != dest && 0 < bs && copied <= |src.bytes| && dest.bytes == Overlaid(src.bytes, base, copied)
    requires dest.device ==> copied <= |base| == |dest.bytes|
    modifies dest`bytes
    ensures ok <==> !faults.read(copied) && faults.short(copied).None? && copied + bs <= |src.bytes|
                    && (dest.device ==> copied + bs <= |base|)
    ensures copied <= reached <= copied + bs && reached <= |src.bytes| && (ok ==> reached == copied + bs)
    ensures dest.bytes == Overlaid(src.bytes, base, reached)
    ensures dest.device ==> reached <= |base| == |dest.bytes|
  {
    hide Overlaid;
    reached := copied;
    if |src.bytes| < copied + bs || faults.read(copied) {
      return false, reached;
    }
    var buffer := src.bytes[copied..copied + bs];
    var n := bs;
    if dest.device {
      n := Min(n, |dest.bytes| - copied);  // the device ends here
    }
    if faults.short(copied).Some? {
      n := Min(n, Min(faults.short(copied).value, bs - 1));
    }
    OverlayGrows(src.bytes, base, copied, n);
    var tail := Min(copied + n, |dest.bytes|);
    assert buffer[..n] == src.bytes[copied..copied + n];
    dest.bytes := dest.bytes[..copied] + buffer[..n] + dest.bytes[tail..];
    return n == bs, copied + n;
  }

  lemma OverlayGrows(src: Bytes, before: Bytes, n: nat, bs: nat)
    requires n + bs <= |src|
    ensures var old_ := Overlaid(src, before, n);
            && n <= |old_|
            && Overlaid(src, before, n + bs) == old_[..n] + src[n..n + bs] + old_[Min(n + bs, |old_|)..]
            && (n + bs <= |before| ==> |Overlaid(src, before, n + bs)| == |before|)
  {
    var a := Overlaid(src, before, n);
    assert a[..n] == src[..n] && src[..n] + src[n..n + bs] == src[..n + bs];
    if n + bs < |before| {
      assert |a| == |before| && a[n + bs..] == before[n + bs..];
    }
  }

  /**
   Backing up a device and restoring the image later, onto any contents of at least that size,
   brings back exactly the backed-up bytes and leaves the rest of the device alone.
   */
  method BackupThenRestore(device: Store, image: Store, later: Bytes, backupSize: nat, f1: Faults, f2: Faults)
    returns (ok: bool)
    requires device != image && device.device && !image.device
    requires |later| == |device.bytes|
    modifies device`bytes, image`bytes
    ensures ok ==> backupSize <= |later| && device.bytes == old(device.bytes)[..backupSize] + later[backupSize..]
    ensures ok <==> && backupSize <= |later|
                    && AllClear(f1, 0, backupSize, 0x10_0000) && AllClear(f2, 0, backupSize, 0x10_0000)
  {
    hide AllClear;
    var progress;
    ok, progress := RawReadWrite(device, image, backupSize, false, f1);
    if ok {
      assert image.bytes == device.bytes[..backupSize];
      device.bytes := later;
      ok, progress := RawReadWrite(image, device, |image.bytes|, false, f2);
    }
  }
}
