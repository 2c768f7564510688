/** Reading and writing the encrypted NAND (`ctrNandRead`, `ctrNandWrite`). */
module CtrNand {
  import opened Bytes
  import opened Aes
  import opened Batches

  /** Cipher blocks per sector. */
  const PER_SECTOR := 32

  /** Sectors the bounce buffer of a write holds. */
  const CHUNK := 32

  /** By how much the counter is advanced for the absolute sector `s`; the product wraps at 32 bits. */
  function CounterOffset(s: u32): u32 {
    Wrap32(s * 0x200) / 16
  }

  /** The counter block that belongs to the first block of sector `s`. */
  function BaseCounter(ctr: Block, s: u32): Block {
    Counted(ctr, CounterOffset(s))
  }

  lemma OffsetOfSector(s: u32)
    ensures CounterOffset(s) == PER_SECTOR * (s % 0x80_0000)
  {
  }

  /** The counter of sector `s`: the NAND counter plus 32 for every sector, counted from the last multiple of 4 GiB. */
  lemma BaseCounterValue(ctr: Block, s: u32)
    ensures Value(BaseCounter(ctr, s), BIG_NORMAL) ==
      (Value(ctr, BIG_NORMAL) + PER_SECTOR * (s % 0x80_0000)) % TWO128
  {
    hide Value, FromNum;
    OffsetOfSector(s);
    FromNumValue((Value(ctr, BIG_NORMAL) + CounterOffset(s)) % TWO128);
  }

  /** The counter block that belongs to block `j` of a transfer that starts at sector `s`. */
  lemma CounterOfBlock(ctr: Block, s: u32, j: nat)
    ensures Counted(BaseCounter(ctr, s), j) ==
      FromNum((Value(ctr, BIG_NORMAL) + PER_SECTOR * (s % 0x80_0000) + j) % TWO128)
  {
    hide Value, FromNum, CounterOffset;
    OffsetOfSector(s);
    CountedTwice(ctr, CounterOffset(s), j);
  }

  /** A transfer combines every block with the encrypted counter of its own place. */
  lemma TransferBlocks(c: Cipher, ctr: Block, s: u32, p: seq<Block>)
    ensures forall j :: 0 <= j < |p| ==>
      Pass(c, Ctr, BaseCounter(ctr, s), p)[j] ==
        Xor(p[j], c.enc(FromNum((Value(ctr, BIG_NORMAL) + PER_SECTOR * (s % 0x80_0000) + j) % TWO128)))
  {
    hide Pass, Counted, Xor, BaseCounter, Value, FromNum;
    CtrPass(c, BaseCounter(ctr, s), p);
    forall j | 0 <= j < |p|
      ensures Counted(BaseCounter(ctr, s), j) ==
        FromNum((Value(ctr, BIG_NORMAL) + PER_SECTOR * (s % 0x80_0000) + j) % TWO128)
    {
      CounterOfBlock(ctr, s, j);
    }
  }

  /** What a transfer leaves in memory or on the device from block `at` on. */
  lemma StoredBlocks(m: seq<Block>, at: nat, c: Cipher, ctr: Block, s: u32, p: seq<Block>)
    requires at + |p| <= |m|
    ensures var r := Overwritten(m, at, Pass(c, Ctr, BaseCounter(ctr, s), p));
      forall j :: 0 <= j < |p| ==>
        r[at + j] ==
          Xor(p[j], c.enc(FromNum((Value(ctr, BIG_NORMAL) + PER_SECTOR * (s % 0x80_0000) + j) % TWO128)))
  {
    hide Pass, Xor, BaseCounter, Value, FromNum;
    TransferBlocks(c, ctr, s, p);
  }

  lemma ReadBlocks(out: seq<Block>, m: seq<Block>, c: Cipher, ctr: Block, s: u32, dev: seq<Block>, from: nat, n: nat)
    requires from + n <= |dev| && n <= |m|
    requires out == Overwritten(m, 0, Pass(c, Ctr, BaseCounter(ctr, s), dev[from..from + n]))
    ensures |out| == |m| && forall j :: 0 <= j < n ==>
      out[j] ==
        Xor(dev[from + j], c.enc(FromNum((Value(ctr, BIG_NORMAL) + PER_SECTOR * (s % 0x80_0000) + j) % TWO128)))
  {
    hide Pass, Overwritten, Xor, BaseCounter, Value, FromNum;
    var p := dev[from..from + n];
    StoredBlocks(m, 0, c, ctr, s, p);
    forall j | 0 <= j < n
      ensures out[j] ==
        Xor(dev[from + j], c.enc(FromNum((Value(ctr, BIG_NORMAL) + PER_SECTOR * (s % 0x80_0000) + j) % TWO128)))
    {
      assert p[j] == dev[from + j] && out[0 + j] == out[j];
    }
  }

  /** The sector of a chunk, as the source adds it up, does not wrap a second time. */
  lemma ChunkSector(sector: u32, fatStart: u32, done: nat)
    requires Wrap32(sector + fatStart) + done < 0x1_0000_0000
    ensures Wrap32(done + sector + fatStart) == Wrap32(sector + fatStart) + done
  {
  }

  lemma SumWraps(a: u32, b: u32, c: u32)
    ensures Wrap32(a + b) == (a + b) % 0x1_0000_0000
    ensures Wrap32(Wrap32(a + b) + c) == (a + c + b) % 0x1_0000_0000
  {
  }

  class Nand {
    const cipher: Cipher
    const nandCtr: Block
    const fatStart: u32
    const emuOffset: u32
    const onSysNand: bool
    const reliable: bool    // transfers inside a device never fail
    var nand: seq<Block>
    var sdcard: seq<Block>

    constructor (c: Cipher, ctr: Block, fat: u32, emu: u32, sys: bool, rel: bool, n: seq<Block>, sd: seq<Block>)
      ensures cipher == c && nandCtr == ctr && fatStart == fat && emuOffset == emu && onSysNand == sys
      ensures reliable == rel
      ensures nand == n && sdcard == sd
    {
      cipher, nandCtr, fatStart, emuOffset, onSysNand, reliable := c, ctr, fat, emu, sys, rel;
      nand, sdcard := n, sd;
    }

    /** The driver's sector reads: 0 on success. */
    method ReadSectors(dev: seq<Block>, s: u32, count: nat, out: array<Block>) returns (result: int)
      requires PER_SECTOR * count <= out.Length
      modifies out
      ensures result == 0 ==> PER_SECTOR * (s + count) <= |dev|
      ensures result == 0 ==> out[..] == Overwritten(old(out[..]), 0, dev[PER_SECTOR * s..PER_SECTOR * (s + count)])
      ensures reliable && PER_SECTOR * (s + count) <= |dev| ==> result == 0
    {
      var fault: bool := *;
      if (fault && !reliable) || PER_SECTOR * (s + count) > |dev| { return 1; }
      StoreAt(out, dev[PER_SECTOR * s..PER_SECTOR * (s + count)]);
      return 0;
    }

    /** The driver's sector writes; a failed one leaves the addressed sectors unknown. */
    method WriteSectors(s: u32, count: nat, data: seq<Block>) returns (result: int)
      requires |data| == PER_SECTOR * count
      modifies this`nand
      ensures |nand| == |old(nand)|
      ensures result == 0 ==> PER_SECTOR * (s + count) <= |nand| && nand == Overwritten(old(nand), PER_SECTOR * s, data)
      ensures forall i :: 0 <= i < |nand| && !(PER_SECTOR * s <= i < PER_SECTOR * (s + count)) ==>
        nand[i] == old(nand)[i]
      ensures reliable && PER_SECTOR * (s + count) <= |nand| ==> result == 0
    {
      var fault: bool := *;
      if (fault && !reliable) || PER_SECTOR * (s + count) > |nand| { return 1; }
      nand := Overwritten(nand, PER_SECTOR * s, data);
      return 0;
    }

    /** A fresh copy of the NAND counter, advanced to the absolute sector `s`. */
    method CounterFor(s: u32) returns (tmpCtr: array<u32>)
      ensures fresh(tmpCtr) && tmpCtr.Length == 4
      ensures Register(tmpCtr[..], BIG_NORMAL) == BaseCounter(nandCtr, s)
    {
      hide Value, Counted;
      tmpCtr := new u32[4](i requires 0 <= i < 4 => nandCtr[i]);
      ghost var w := tmpCtr[..];
      assert w == nandCtr;
      AdvanceCounter(tmpCtr, CounterOffset(s), BIG_NORMAL);
      AdvancedRegister(w, tmpCtr[..], BIG_NORMAL, CounterOffset(s));
    }

    /** The device reads go to, and the absolute sector there. */
    function Source(): seq<Block>
      reads this
    {
      if onSysNand then nand else sdcard
    }

    function Place(sector: u32): u32 {
      if onSysNand then Wrap32(sector + fatStart) else Wrap32(Wrap32(sector + emuOffset) + fatStart)
    }

    /** `ctrNandRead`. The counter follows the sector inside the partition even when the data comes
        from the SD card. */
    method Read(sector: u32, sectorCount: u32, outbuf: array<Block>) returns (result: int)
      requires PER_SECTOR * sectorCount <= outbuf.Length && sectorCount * 0x200 < 0x1_0000_0000
      modifies outbuf
      ensures result == 0 ==> PER_SECTOR * (Place(sector) + sectorCount) <= |Source()|
      ensures result == 0 ==>
        outbuf[..] == Overwritten(old(outbuf[..]), 0,
          Pass(cipher, Ctr, BaseCounter(nandCtr, Wrap32(sector + fatStart)),
               Source()[PER_SECTOR * Place(sector)..PER_SECTOR * (Place(sector) + sectorCount)]))
      ensures Place(sector) == (sector + fatStart + if onSysNand then 0 else emuOffset) % 0x1_0000_0000
      ensures result == 0 ==> forall j :: 0 <= j < PER_SECTOR * sectorCount ==>
        outbuf[j] == Xor((if onSysNand then nand else sdcard)[PER_SECTOR * Place(sector) + j],
          cipher.enc(FromNum((Value(nandCtr, BIG_NORMAL)
                              + PER_SECTOR * ((sector + fatStart) % 0x1_0000_0000 % 0x80_0000) + j) % TWO128)))
      ensures reliable && PER_SECTOR * (Place(sector) + sectorCount) <= |Source()| ==> result == 0
    {
      hide Pass, Overwritten, BaseCounter, Xor, Value, FromNum, Wrap32;
      SumWraps(sector, fatStart, 0);
      SumWraps(sector, emuOffset, fatStart);
      ghost var m, s := outbuf[..], Wrap32(sector + fatStart);
      result := ReadAndDecrypt(sector, sectorCount, outbuf);
      if result == 0 {
        ReadBlocks(outbuf[..], m, cipher, nandCtr, s, Source(), PER_SECTOR * Place(sector), PER_SECTOR * sectorCount);
      }
    }

    /** The transfer and the pass of `ctrNandRead`. */
    method ReadAndDecrypt(sector: u32, sectorCount: u32, outbuf: array<Block>) returns (result: int)
      requires PER_SECTOR * sectorCount <= outbuf.Length && sectorCount * 0x200 < 0x1_0000_0000
      modifies outbuf
      ensures result == 0 ==> PER_SECTOR * (Place(sector) + sectorCount) <= |Source()|
      ensures result == 0 ==>
        outbuf[..] == Overwritten(old(outbuf[..]), 0,
          Pass(cipher, Ctr, BaseCounter(nandCtr, Wrap32(sector + fatStart)),
               Source()[PER_SECTOR * Place(sector)..PER_SECTOR * (Place(sector) + sectorCount)]))
      ensures reliable && PER_SECTOR * (Place(sector) + sectorCount) <= |Source()| ==> result == 0
    {
      hide Pass, Register, BaseCounter, Overwritten, Wrap32, Counted;
      ghost var m := outbuf[..];
      var tmpCtr := CounterFor(Wrap32(sector + fatStart));
      result := ReadSectors(Source(), Place(sector), sectorCount, outbuf);
      ghost var m0, n: nat := outbuf[..], PER_SECTOR * sectorCount;
      if result == 0 {
        StoredReads(m, Source()[PER_SECTOR * Place(sector)..PER_SECTOR * (Place(sector) + sectorCount)]);
        Restored(m, m0[0..n], Pass(cipher, Ctr, BaseCounter(nandCtr, Wrap32(sector + fatStart)), m0[0..n]));
      }
      Process(outbuf, 0, 0, sectorCount * 0x200 / 16, cipher, tmpCtr, Ctr, BIG_NORMAL);
    }

    /** `ctrNandWrite`: always to the NAND, in chunks of the bounce buffer, one running counter. */
    method Write(sector: u32, sectorCount: u32, inbuf: seq<Block>) returns (result: int)
      requires PER_SECTOR * sectorCount <= |inbuf| && sectorCount * 0x200 < 0x1_0000_0000
      requires Wrap32(sector + fatStart) + sectorCount <= 0x1_0000_0000
      modifies this`nand
      ensures |nand| == |old(nand)|
      ensures var s := Wrap32(sector + fatStart);
        && (result == 0 && sectorCount > 0 ==> PER_SECTOR * (s + sectorCount) <= |nand|)
        && (result == 0 && sectorCount > 0 ==> nand == Overwritten(old(nand), PER_SECTOR * s,
                                Pass(cipher, Ctr, BaseCounter(nandCtr, s), inbuf[..PER_SECTOR * sectorCount])))
        && s == (sector + fatStart) % 0x1_0000_0000
        && (result == 0 ==> forall j :: 0 <= j < PER_SECTOR * sectorCount ==>
              PER_SECTOR * s + j < |nand| && nand[PER_SECTOR * s + j] == Xor(inbuf[j],
                cipher.enc(FromNum((Value(nandCtr, BIG_NORMAL) + PER_SECTOR * (s % 0x80_0000) + j) % TWO128))))
        && (forall i :: 0 <= i < |nand| && !(PER_SECTOR * s <= i < PER_SECTOR * (s + sectorCount)) ==>
          nand[i] == old(nand)[i])
      ensures reliable && PER_SECTOR * (Wrap32(sector + fatStart) + sectorCount) <= |nand| ==> result == 0
    {
      hide Pass, Overwritten, BaseCounter, Xor, Value, FromNum, Wrap32;
      SumWraps(sector, fatStart, 0);
      ghost var dev := nand;
      result := WriteChunks(sector, sectorCount, inbuf);
      if result == 0 && sectorCount > 0 {
        StoredBlocks(dev, PER_SECTOR * Wrap32(sector + fatStart), cipher, nandCtr, Wrap32(sector + fatStart),
                     inbuf[..PER_SECTOR * sectorCount]);
      }
    }

    /** The loop of `ctrNandWrite`. */
    method WriteChunks(sector: u32, sectorCount: u32, inbuf: seq<Block>) returns (result: int)
      requires PER_SECTOR * sectorCount <= |inbuf| && sectorCount * 0x200 < 0x1_0000_0000
      requires Wrap32(sector + fatStart) + sectorCount <= 0x1_0000_0000
      modifies this`nand
      ensures |nand| == |old(nand)|
      ensures var s := Wrap32(sector + fatStart);
        && (result == 0 && sectorCount > 0 ==> PER_SECTOR * (s + sectorCount) <= |nand|)
        && (result == 0 && sectorCount > 0 ==> nand == Overwritten(old(nand), PER_SECTOR * s,
                                Pass(cipher, Ctr, BaseCounter(nandCtr, s), inbuf[..PER_SECTOR * sectorCount])))
        && (forall i :: 0 <= i < |nand| && !(PER_SECTOR * s <= i < PER_SECTOR * (s + sectorCount)) ==>
          nand[i] == old(nand)[i])
      ensures reliable && PER_SECTOR * (Wrap32(sector + fatStart) + sectorCount) <= |nand| ==> result == 0
    {
      hide Pass, After, Register, BaseCounter, Overwritten, Counted, Wrap32, Value, FromNum, Xor;
      var s := Wrap32(sector + fatStart);
      var buffer := new Block[CHUNK * PER_SECTOR](_ => [0, 0, 0, 0]);
      var tmpCtr := CounterFor(s);
      ghost var dev, base := nand, BaseCounter(nandCtr, s);
      PassNothing(cipher, Ctr, base);
      result := 0;
      var done := 0;
      while done < sectorCount && result == 0
        invariant 0 <= done <= sectorCount
        invariant fresh(tmpCtr) && tmpCtr.Length == 4 && fresh(buffer) && |nand| == |dev|
        invariant reliable && PER_SECTOR * (s + sectorCount) <= |nand| ==> result == 0
        invariant result == 0 ==>
          Register(tmpCtr[..], BIG_NORMAL) == After(cipher, Ctr, base, inbuf[..PER_SECTOR * done])
        invariant result == 0 && done > 0 ==> PER_SECTOR * (s + done) <= |nand|
        invariant result == 0 && done > 0 ==>
          nand == Overwritten(dev, PER_SECTOR * s, Pass(cipher, Ctr, base, inbuf[..PER_SECTOR * done]))
        invariant done == 0 ==> nand == dev
        invariant forall i :: 0 <= i < |nand| && !(PER_SECTOR * s <= i < PER_SECTOR * (s + sectorCount)) ==>
          nand[i] == dev[i]
        decreases sectorCount - done
      {
        var count := if CHUNK < sectorCount - done then CHUNK else sectorCount - done;
        ghost var p, q := inbuf[..PER_SECTOR * done], inbuf[PER_SECTOR * done..PER_SECTOR * (done + count)];
        assert p + q == inbuf[..PER_SECTOR * (done + count)];
        PassSplit(cipher, Ctr, base, p, q);
        ChunkSector(sector, fatStart, done);
        result := WriteChunk(s + done, inbuf[PER_SECTOR * done..PER_SECTOR * (done + count)], count, buffer, tmpCtr);
        if result == 0 && done > 0 {
          OverwrittenTwice(dev, PER_SECTOR * s, Pass(cipher, Ctr, base, p),
                           Pass(cipher, Ctr, After(cipher, Ctr, base, p), q));
        }
        done := done + count;
      }
    }

    /** Writes `count` sectors at `sector` and reads `n` sectors at `from`. On the NAND, what the two ranges have
        in common comes back as it was written if they start in the same 4 GiB stretch; reads from the SD card
        return what the card holds. */
    method WriteThenRead(sector: u32, count: u32, data: seq<Block>, from: u32, n: u32, out: array<Block>)
      returns (written: int, result: int)
      requires |data| == PER_SECTOR * count && count * 0x200 < 0x1_0000_0000
      requires PER_SECTOR * n <= out.Length && n * 0x200 < 0x1_0000_0000
      requires Wrap32(sector + fatStart) + count <= 0x1_0000_0000
      modifies this`nand, out
      ensures written == 0 && result == 0 ==>
        && PER_SECTOR * (Place(from) + n) <= |Source()|
        && out[..PER_SECTOR * n] == Returned(cipher, nandCtr, Wrap32(from + fatStart),
             Source()[PER_SECTOR * Place(from)..PER_SECTOR * (Place(from) + n)])
      ensures var s := Wrap32(sector + fatStart);
        written == 0 && count > 0 ==>
          && PER_SECTOR * (s + count) <= |old(nand)|
          && nand == Overwritten(old(nand), PER_SECTOR * s, Stored(cipher, nandCtr, s, data))
      ensures var s, r := Wrap32(sector + fatStart), Wrap32(from + fatStart);
        written == 0 && result == 0 && onSysNand && s / 0x80_0000 == r / 0x80_0000 ==>
          Agrees(out[..PER_SECTOR * n], r, data, s)
      ensures reliable && PER_SECTOR * (Wrap32(sector + fatStart) + count) <= |nand| ==> written == 0
      ensures reliable && PER_SECTOR * (Place(from) + n) <= |Source()| ==> result == 0
    {
      hide Pass, BaseCounter, Overwritten, Wrap32, Agrees;
      ghost var s, r := Wrap32(sector + fatStart), Wrap32(from + fatStart);
      written := Write(sector, count, data);
      ghost var m := out[..];
      result := Read(from, n, out);
      assert data[..PER_SECTOR * count] == data;
      if written == 0 && result == 0 {
        ghost var raw := Source()[PER_SECTOR * Place(from)..PER_SECTOR * (Place(from) + n)];
        StoredReads(m, Pass(cipher, Ctr, BaseCounter(nandCtr, r), raw));
        if onSysNand && s / 0x80_0000 == r / 0x80_0000 {
          if count > 0 {
            ReadBack(cipher, nandCtr, old(nand), s, data, r, n);
          } else {
            NothingAgrees(out[..PER_SECTOR * n], r, s);
          }
        }
      }
    }

    /** One chunk to the absolute sector `s`. */
    method WriteChunk(s: u32, data: seq<Block>, count: nat, buffer: array<Block>, tmpCtr: array<u32>)
      returns (result: int)
      requires tmpCtr.Length == 4 && |data| == PER_SECTOR * count <= buffer.Length <= 0x1_0000
      modifies this`nand, buffer, tmpCtr
      ensures |nand| == |old(nand)|
      ensures var reg := Register(old(tmpCtr[..]), BIG_NORMAL);
        && Register(tmpCtr[..], BIG_NORMAL) == After(cipher, Ctr, reg, data)
        && (result == 0 ==> PER_SECTOR * (s + count) <= |nand|)
        && (result == 0 ==> nand == Overwritten(old(nand), PER_SECTOR * s, Pass(cipher, Ctr, reg, data)))
        && (forall i :: 0 <= i < |nand| && !(PER_SECTOR * s <= i < PER_SECTOR * (s + count)) ==>
          nand[i] == old(nand)[i])
      ensures reliable && PER_SECTOR * (s + count) <= |nand| ==> result == 0
    {
      hide Pass, After, Register, Overwritten;
      var out := Encrypt(buffer, data, tmpCtr);
      result := WriteSectors(s, count, out);
    }

    /** One chunk through the bounce buffer. */
    method Encrypt(buffer: array<Block>, data: seq<Block>, tmpCtr: array<u32>) returns (out: seq<Block>)
      requires tmpCtr.Length == 4 && |data| <= buffer.Length <= 0x1_0000
      modifies buffer, tmpCtr
      ensures out == Pass(cipher, Ctr, Register(old(tmpCtr[..]), BIG_NORMAL), data)
      ensures Register(tmpCtr[..], BIG_NORMAL) == After(cipher, Ctr, Register(old(tmpCtr[..]), BIG_NORMAL), data)
    {
      hide Pass, After, Register, Overwritten;
      ghost var m := buffer[..];
      StoreAt(buffer, data);
      StoredReads(m, data);
      ghost var m1 := buffer[..];
      assert buffer[0..|data|] == m1[0..|data|];
      Process(buffer, 0, 0, |data|, cipher, tmpCtr, Ctr, BIG_NORMAL);
      StoredReads(m1, Pass(cipher, Ctr, Register(old(tmpCtr[..]), BIG_NORMAL), data));
      out := buffer[..|data|];
      assert out == buffer[..][0..|data|];
    }
  }

  /** Storing twice in one place leaves what was stored last. */
  lemma Restored(m: seq<Block>, v: seq<Block>, w: seq<Block>)
    requires |v| == |w| <= |m|
    ensures Overwritten(Overwritten(m, 0, v), 0, w) == Overwritten(m, 0, w)
  {
  }

  lemma StoredReads(m: seq<Block>, v: seq<Block>)
    requires |v| <= |m|
    ensures Overwritten(m, 0, v)[0..|v|] == v
  {
  }

  /** Stores `data` at the beginning of a buffer. */
  method StoreAt(out: array<Block>, data: seq<Block>)
    requires |data| <= out.Length
    modifies out
    ensures out[..] == Overwritten(old(out[..]), 0, data)
  {
    var i := 0;
    while i < |data|
      invariant 0 <= i <= |data|
      invariant forall j :: 0 <= j < out.Length ==> out[j] == if j < i then data[j] else old(out[j])
    {
      out[i] := data[i];
      i := i + 1;
    }
  }

  /** Counting on from sector `s` and from sector `r` to the same block gives the same counter exactly when
      both lie in the same 4 GiB stretch. */
  lemma CountersAgreeIff(ctr: Block, s: u32, r: u32, j: nat, k: nat)
    requires PER_SECTOR * s + j == PER_SECTOR * r + k < 0x1_0000_0000_0000
    ensures Counted(BaseCounter(ctr, s), j) == Counted(BaseCounter(ctr, r), k) <==> s / 0x80_0000 == r / 0x80_0000
  {
    hide Counted, CounterOffset;
    OffsetOfSector(s);
    OffsetOfSector(r);
    CountedTwice(ctr, CounterOffset(s), j);
    CountedTwice(ctr, CounterOffset(r), k);
    CountedInjective(ctr, CounterOffset(s) + j, CounterOffset(r) + k);
  }

  /** From start sectors of one stretch the counters agree however far they run. */
  lemma CountersAgree(ctr: Block, s: u32, r: u32, j: nat, k: nat)
    requires PER_SECTOR * s + j == PER_SECTOR * r + k && s / 0x80_0000 == r / 0x80_0000
    ensures Counted(BaseCounter(ctr, s), j) == Counted(BaseCounter(ctr, r), k)
  {
    hide Counted, CounterOffset;
    OffsetOfSector(s);
    OffsetOfSector(r);
    CountedTwice(ctr, CounterOffset(s), j);
    CountedTwice(ctr, CounterOffset(r), k);
  }

  lemma CountedInjective(ctr: Block, m: nat, n: nat)
    requires m < TWO128 && n < TWO128
    ensures Counted(ctr, m) == Counted(ctr, n) <==> m == n
  {
    hide Value, FromNum;
    FromNumValue((Value(ctr, BIG_NORMAL) + m) % TWO128);
    FromNumValue((Value(ctr, BIG_NORMAL) + n) % TWO128);
    ValueFromNum(ctr);
    ModCancels(Value(ctr, BIG_NORMAL), m, n);
  }

  lemma ModCancels(v: nat, m: nat, n: nat)
    requires v < TWO128 && m < TWO128 && n < TWO128
    ensures (v + m) % TWO128 == (v + n) % TWO128 <==> m == n
  {
  }

  /** What the NAND holds after `data` was written at sector `s`. */
  function Stored(c: Cipher, ctr: Block, s: u32, data: seq<Block>): seq<Block> {
    Pass(c, Ctr, BaseCounter(ctr, s), data)
  }

  /** What a read that starts at sector `r` makes of what the device holds there. */
  function Returned(c: Cipher, ctr: Block, r: u32, raw: seq<Block>): seq<Block> {
    Pass(c, Ctr, BaseCounter(ctr, r), raw)
  }

  /** The blocks read from sector `r` on are those written from sector `s` on, where the two overlap. */
  ghost predicate Agrees(out: seq<Block>, r: u32, data: seq<Block>, s: u32) {
    forall j, k :: 0 <= j < |out| && 0 <= k < |data| && PER_SECTOR * r + j == PER_SECTOR * s + k ==> out[j] == data[k]
  }

  lemma NothingAgrees(out: seq<Block>, r: u32, s: u32)
    ensures Agrees(out, r, [], s)
  {
  }

  /** The device after the write. */
  function Device(c: Cipher, ctr: Block, dev: seq<Block>, s: u32, data: seq<Block>): (r: seq<Block>)
    requires PER_SECTOR * s + |data| <= |dev|
    ensures |r| == |dev|
  {
    CtrPass(c, BaseCounter(ctr, s), data);
    Overwritten(dev, PER_SECTOR * s, Stored(c, ctr, s, data))
  }

  /** A block of the device inside the written range. */
  lemma DeviceBlock(c: Cipher, ctr: Block, dev: seq<Block>, s: u32, data: seq<Block>, k: nat)
    requires PER_SECTOR * s + |data| <= |dev| && k < |data|
    ensures Device(c, ctr, dev, s, data)[PER_SECTOR * s + k] == Xor(data[k], c.enc(Counted(BaseCounter(ctr, s), k)))
  {
    hide Pass, Counted, Xor, BaseCounter;
    CtrPass(c, BaseCounter(ctr, s), data);
  }

  /** What the two ranges have in common reads back if they start in the same 4 GiB stretch. */
  lemma ReadBack(c: Cipher, ctr: Block, dev: seq<Block>, s: u32, data: seq<Block>, r: u32, n: nat)
    requires PER_SECTOR * s + |data| <= |dev| && PER_SECTOR * (r + n) <= |dev|
    requires s / 0x80_0000 == r / 0x80_0000
    ensures |Stored(c, ctr, s, data)| == |data|
    ensures var dev' := Overwritten(dev, PER_SECTOR * s, Stored(c, ctr, s, data));
      Agrees(Returned(c, ctr, r, dev'[PER_SECTOR * r..PER_SECTOR * (r + n)]), r, data, s)
  {
    hide Pass, Counted, Xor, BaseCounter;
    CtrPass(c, BaseCounter(ctr, s), data);
    var raw := Device(c, ctr, dev, s, data)[PER_SECTOR * r..PER_SECTOR * (r + n)];
    var out := Returned(c, ctr, r, raw);
    CtrPass(c, BaseCounter(ctr, r), raw);
    forall j, k | 0 <= j < |out| && 0 <= k < |data| && PER_SECTOR * r + j == PER_SECTOR * s + k
      ensures out[j] == data[k]
    {
      DeviceBlock(c, ctr, dev, s, data, k);
      CountersAgree(ctr, s, r, k, j);
      XorCancels(data[k], c.enc(Counted(BaseCounter(ctr, r), j)));
    }
  }

  /** A cipher that tells one counter value from all others. */
  function Probe(x: Block): Cipher {
    Cipher((b: Block) => if b == x then [1, 0, 0, 0] else [0, 0, 0, 0], (b: Block) => b)
  }

  lemma OneDiffers(z: Block)
    ensures Xor(z, [1, 0, 0, 0]) != Xor(z, [0, 0, 0, 0])
  {
    hide XorBits;
    LowBit(z[0], 1, 32);
    LowBit(z[0], 0, 32);
  }

  lemma LowBit(a: nat, b: nat, n: nat)
    requires n > 0
    ensures XorBits(a, b, n) % 2 == (a % 2 + b % 2) % 2
  {
  }

  /** After writing `data` at sector `s` of a device that held `dev`, a read of `n` sectors at `r` returns them
      where the two overlap; with reads from the SD card it sees `card` instead. */
  ghost predicate ReadsBack(sys: bool, c: Cipher, ctr: Block, s: u32, data: seq<Block>, r: u32, n: nat,
                            dev: seq<Block>, card: seq<Block>)
    requires PER_SECTOR * s + |data| <= |dev| && PER_SECTOR * (r + n) <= |dev|
  {
    var raw := if sys then Device(c, ctr, dev, s, data)[PER_SECTOR * r..PER_SECTOR * (r + n)] else card;
    Agrees(Returned(c, ctr, r, raw), r, data, s)
  }

  /** The data fills the written range, the card contents the range read, and both ranges lie in the device. */
  predicate Sized(s: u32, count: u32, r: u32, n: u32, data: seq<Block>, dev: seq<Block>, card: seq<Block>) {
    && |data| == PER_SECTOR * count && |card| == PER_SECTOR * n
    && PER_SECTOR * (s + count) <= |dev| && PER_SECTOR * (r + n) <= |dev|
  }

  /** The ranges have a sector in common. */
  predicate Overlap(s: u32, count: u32, r: u32, n: u32) {
    s < r + n && r < s + count && 0 < count && 0 < n
  }

  /** The condition is exact: with reads from the SD card, or from a start sector of another stretch, some cipher,
      data and contents read back differently. */
  lemma ReadBackIff(sys: bool, ctr: Block, s: u32, count: u32, r: u32, n: u32)
    requires Overlap(s, count, r, n)
    ensures sys && s / 0x80_0000 == r / 0x80_0000 <==>
      forall c: Cipher, data: seq<Block>, dev: seq<Block>, card: seq<Block> ::
        Sized(s, count, r, n, data, dev, card) ==> ReadsBack(sys, c, ctr, s, data, r, n, dev, card)
  {
    var zero: Block := [0, 0, 0, 0];
    var size: nat := PER_SECTOR * (s + count + r + n);
    var dev: seq<Block> := seq(size, _ => zero);
    var card: seq<Block> := seq(PER_SECTOR * n, _ => zero);
    if !sys {
      CardDiffers(ctr, s, count, r, n, dev, card);
    } else if s / 0x80_0000 == r / 0x80_0000 {
      forall c: Cipher, data: seq<Block>, dev: seq<Block>, card: seq<Block> | Sized(s, count, r, n, data, dev, card)
        ensures ReadsBack(sys, c, ctr, s, data, r, n, dev, card)
      {
        ReadBack(c, ctr, dev, s, data, r, n);
      }
    } else {
      ProbeDiffers(ctr, s, count, r, n, seq(PER_SECTOR * count, _ => zero), dev, card);
    }
  }

  /** What the card holds cannot be two different things that were written. */
  lemma CardDiffers(ctr: Block, s: u32, count: u32, r: u32, n: u32, dev: seq<Block>, card: seq<Block>)
    requires Overlap(s, count, r, n) && |card| == PER_SECTOR * n
    requires PER_SECTOR * (s + count) <= |dev| && PER_SECTOR * (r + n) <= |dev|
    ensures exists c: Cipher, data: seq<Block> ::
      |data| == PER_SECTOR * count && !ReadsBack(false, c, ctr, s, data, r, n, dev, card)
  {
    hide Pass, BaseCounter;
    var zero, one: Block := [0, 0, 0, 0], [1, 0, 0, 0];
    var c := Probe(zero);
    var zeros: seq<Block> := seq(PER_SECTOR * count, _ => zero);
    var ones: seq<Block> := seq(PER_SECTOR * count, _ => one);
    var out := Returned(c, ctr, r, card);
    CtrPass(c, BaseCounter(ctr, r), card);
    var x := if s < r then r else s;
    var j, k := PER_SECTOR * (x - r), PER_SECTOR * (x - s);
    assert zeros[k] == zero != one == ones[k];
    if Agrees(out, r, zeros, s) {
      assert out[j] == zeros[k];
      assert !Agrees(out, r, ones, s);
      assert !ReadsBack(false, c, ctr, s, ones, r, n, dev, card);
    } else {
      assert !ReadsBack(false, c, ctr, s, zeros, r, n, dev, card);
    }
  }

  lemma ProbeDiffers(ctr: Block, s: u32, count: u32, r: u32, n: u32, data: seq<Block>, dev: seq<Block>,
                     card: seq<Block>)
    requires Overlap(s, count, r, n) && |data| == PER_SECTOR * count && s / 0x80_0000 != r / 0x80_0000
    requires PER_SECTOR * (s + count) <= |dev| && PER_SECTOR * (r + n) <= |dev|
    ensures exists c: Cipher :: !ReadsBack(true, c, ctr, s, data, r, n, dev, card)
  {
    hide Pass, Counted, Xor, BaseCounter;
    var x := if s < r then r else s;
    var j, k := PER_SECTOR * (x - r), PER_SECTOR * (x - s);
    var there, here := Counted(BaseCounter(ctr, r), j), Counted(BaseCounter(ctr, s), k);
    var c := Probe(there);
    CountersAgreeIff(ctr, s, r, k, j);
    var raw := Device(c, ctr, dev, s, data)[PER_SECTOR * r..PER_SECTOR * (r + n)];
    CtrPass(c, BaseCounter(ctr, r), raw);
    DeviceBlock(c, ctr, dev, s, data, k);
    var out := Returned(c, ctr, r, raw);
    assert raw[j] == Xor(data[k], [0, 0, 0, 0]) && out[j] == Xor(raw[j], [1, 0, 0, 0]);
    OneDiffers(raw[j]);
    XorCancels(data[k], [0, 0, 0, 0]);
    assert !Agrees(out, r, data, s);
    assert !ReadsBack(true, c, ctr, s, data, r, n, dev, card);
  }
}
