/** Writing a file to the SD card, chunk by chunk, through one reused buffer. */
module SdProgram {
  import opened SdDevice

  // ---------------------------------------------------------------- one transfer

  function Msb(v: u32): u16 { v / 0x1_0000 }
  function Lsb(v: u32): u16 { v % 0x1_0000 }

  method SdCardWrite(dev: Device, blockAddr: u32, blockNum: u32, buf: array<byte>) returns (ok: bool)
    requires BLOCK * blockNum <= buf.Length
    modifies dev
    ensures SameOutside(old(dev.card), dev.card, BLOCK * blockAddr, BLOCK * (blockAddr + blockNum))
    ensures ok && dev.faithful ==>
              BLOCK * (blockAddr + blockNum) <= |dev.card| &&
              dev.card[BLOCK * blockAddr..BLOCK * (blockAddr + blockNum)] == buf[..BLOCK * blockNum]
    ensures dev.reliable && BLOCK * (blockAddr + blockNum) <= |dev.card| ==> ok
    ensures dev.handshakes == old(dev.handshakes) + if ok then 1 else 0
  {
    ok := dev.SetAddress(Msb(blockAddr), Lsb(blockAddr));
    if !ok { return; }
    ok := dev.SetLength(Msb(blockNum), Lsb(blockNum));
    if !ok { return; }
    ok := dev.BulkWrite(buf[..BLOCK * blockNum]);
    if !ok { return; }
    ok := dev.Operate(CardProgram);
    if !ok { return; }
    ok := dev.Handshake();
  }

  method SdCardRead(dev: Device, blockAddr: u32, blockNum: u32, buf: array<byte>) returns (ok: bool)
    requires BLOCK * blockNum <= buf.Length
    modifies dev, buf
    ensures dev.card == old(dev.card) && dev.handshakes == old(dev.handshakes)
    ensures ok ==> BLOCK * (blockAddr + blockNum) <= |dev.card| &&
                   buf[..BLOCK * blockNum] == dev.card[BLOCK * blockAddr..BLOCK * (blockAddr + blockNum)]
    ensures dev.reliable && BLOCK * (blockAddr + blockNum) <= |dev.card| ==> ok
  {
    ok := dev.SetAddress(Msb(blockAddr), Lsb(blockAddr));
    if !ok { return; }
    ok := dev.SetLength(Msb(blockNum), Lsb(blockNum));
    if !ok { return; }
    ok := dev.Operate(CardRead);
    if !ok { return; }
    var data;
    ok, data := dev.BulkRead(BLOCK * blockNum);
    if !ok { return; }
    forall k | 0 <= k < |data| {
      buf[k] := data[k];
    }
  }

  // ---------------------------------------------------------------- cutting the file into chunks

  /** The counters that the program derives from the file size, in 32-bit arithmetic. */
  datatype Plan = Plan(lastBlockLen: u32, blockNums: u32, lastChunkBlocks: u32, times: u32)

  function PlanFor(size: nat): (p: Plan)
    ensures 0 < p.lastBlockLen <= BLOCK && 0 < p.lastChunkBlocks <= CHUNK_BLOCKS
  {
    var r := size % BLOCK;
    var blockNums := (size / BLOCK + if r != 0 then 1 else 0) % 0x1_0000_0000;
    var s := blockNums % CHUNK_BLOCKS;
    Plan(if r != 0 then r else BLOCK, blockNums,
         if s != 0 then s else CHUNK_BLOCKS,
         blockNums / CHUNK_BLOCKS + if s != 0 then 1 else 0)
  }

  function Zeros(n: nat): (z: seq<byte>)
    ensures |z| == n
    ensures forall k | 0 <= k < n :: z[k] == 0
  {
    seq(n, _ => 0)
  }

  /** Blocks that a file of this size occupies. */
  function Blocks(size: nat): (n: nat)
    ensures size <= BLOCK * n < size + BLOCK
  {
    (size + BLOCK - 1) / BLOCK
  }

  /** The file, filled up with zeros to whole blocks. */
  function Padded(data: seq<byte>): (r: seq<byte>)
    ensures |r| == BLOCK * Blocks(|data|)
  {
    data + Zeros(BLOCK * Blocks(|data|) - |data|)
  }

  lemma BlocksOf(size: nat, q: nat, r: nat)
    requires size == BLOCK * q + r && r < BLOCK
    ensures size % BLOCK == r && Blocks(size) == q + if r != 0 then 1 else 0
  {
  }

  /** Below 2^32 blocks the counters describe the padded file: full chunks, then the last one. From there on they
      describe the blocks that are left beyond multiples of 2^32. */
  lemma PlanCovers(size: nat)
    ensures var p := PlanFor(size);
            && p.blockNums == Blocks(size) % 0x1_0000_0000
            && (p.times == 0 <==> p.blockNums == 0)
            && (p.times > 0 ==> p.blockNums == CHUNK_BLOCKS * (p.times - 1) + p.lastChunkBlocks)
            && (size > 0 ==> size == BLOCK * Blocks(size) - BLOCK + p.lastBlockLen)
  {
    BlocksOf(size, size / BLOCK, size % BLOCK);
    var n := PlanFor(size).blockNums;
    assert n == CHUNK_BLOCKS * (n / CHUNK_BLOCKS) + n % CHUNK_BLOCKS;
  }

  /** Blocks sent, and bytes asked of the file, for chunk i. */
  function ChunkBlocks(p: Plan, i: nat): u32 {
    if i + 1 == p.times then p.lastChunkBlocks else CHUNK_BLOCKS
  }

  function ChunkBytes(p: Plan, i: nat): nat
    requires 0 < p.lastChunkBlocks
  {
    if i + 1 == p.times && p.lastChunkBlocks != CHUNK_BLOCKS
    then (p.lastChunkBlocks - 1) * BLOCK + p.lastBlockLen
    else CHUNK
  }

  /** Bytes that all chunks together ask of the file. */
  function Asked(size: nat): (n: nat)
    ensures n <= BLOCK * PlanFor(size).blockNums
  {
    PlanCovers(size);
    var p := PlanFor(size);
    if p.times == 0 then 0 else (p.times - 1) * CHUNK + ChunkBytes(p, p.times - 1)
  }

  /** The file sizes that the program can finish: the file holds all that is asked of it. */
  predicate Completes(size: nat) {
    Asked(size) <= size
  }

  /** What the counters make of the file: as much of it as is asked for, with zeros up to the counted blocks. */
  function Image(data: seq<byte>): (r: seq<byte>)
    ensures |r| == BLOCK * PlanFor(|data|).blockNums
  {
    var n := Min(Asked(|data|), |data|);
    data[..n] + Zeros(BLOCK * PlanFor(|data|).blockNums - n)
  }

  lemma AskedOf(size: nat)
    ensures Blocks(size) < 0x1_0000_0000 && (size % BLOCK == 0 || Blocks(size) % CHUNK_BLOCKS != 0) ==>
              Asked(size) == size
    ensures Blocks(size) < 0x1_0000_0000 && size % BLOCK != 0 && Blocks(size) % CHUNK_BLOCKS == 0 ==> Asked(size) > size
    ensures Blocks(size) >= 0x1_0000_0000 ==> BLOCK * PlanFor(size).blockNums < size
  {
    PlanCovers(size);
    BlocksOf(size, size / BLOCK, size % BLOCK);
  }

  /** Only a partial last block in a full last chunk is beyond the program: it asks for a full chunk there. */
  lemma CompletesExactly(size: nat)
    ensures Completes(size) <==>
            Blocks(size) >= 0x1_0000_0000 || size % BLOCK == 0 || Blocks(size) % CHUNK_BLOCKS != 0
  {
    AskedOf(size);
  }

  /** The counters make the padded file of it exactly below 2^32 blocks; from there on the image falls short. */
  lemma ImageIsPadded(data: seq<byte>)
    ensures Blocks(|data|) < 0x1_0000_0000 ==> Image(data) == Padded(data)
    ensures Blocks(|data|) >= 0x1_0000_0000 ==> |Image(data)| < |data| <= |Padded(data)|
  {
    PlanCovers(|data|);
    AskedOf(|data|);
  }

  /** Where chunk i lies in the image, and that the file holds the bytes that are asked for it, but perhaps for the
      last. */
  lemma ChunkPlace(size: nat, i: nat)
    requires i < PlanFor(size).times
    ensures var p := PlanFor(size);
            && i * CHUNK < BLOCK * p.blockNums
            && ChunkBytes(p, i) <= BLOCK * ChunkBlocks(p, i)
            && (i + 1 < p.times ==> (i + 1) * CHUNK <= Min(Asked(size), size) &&
                                    (i + 1) * CHUNK < BLOCK * p.blockNums &&
                                    ChunkBytes(p, i) == BLOCK * ChunkBlocks(p, i) == CHUNK)
            && (i + 1 == p.times ==> i * CHUNK + BLOCK * ChunkBlocks(p, i) == BLOCK * p.blockNums &&
                                     i * CHUNK + ChunkBytes(p, i) == Asked(size))
  {
    PlanCovers(size);
    assert BLOCK * PlanFor(size).blockNums <= BLOCK * Blocks(size) < size + BLOCK;
  }

  // ---------------------------------------------------------------- one chunk

  /** Fills the front of the buffer from the file, and with zeros up to a whole block at the end of the file. */
  method ReadChunk(f: HostFile, buf: array<byte>, p: Plan, i: nat) returns (ok: bool)
    requires f.pos <= |f.data| && buf.Length == CHUNK
    requires 0 < p.lastBlockLen <= BLOCK && 0 < p.lastChunkBlocks <= CHUNK_BLOCKS
    modifies f, buf
    ensures old(f.pos) <= f.pos <= |f.data|
    ensures ok ==> f.pos == old(f.pos) + ChunkBytes(p, i) && ChunkBytes(p, i) <= BLOCK * ChunkBlocks(p, i)
    ensures ok ==> buf[..BLOCK * ChunkBlocks(p, i)] ==
                   f.data[old(f.pos)..f.pos] + Zeros(BLOCK * ChunkBlocks(p, i) - ChunkBytes(p, i))
    ensures f.steady && old(f.pos) + ChunkBytes(p, i) <= |f.data| ==> ok
  {
    var got: nat;
    if i + 1 == p.times && p.lastChunkBlocks != CHUNK_BLOCKS {
      if p.lastBlockLen != BLOCK {
        var want := (p.lastChunkBlocks - 1) * BLOCK + p.lastBlockLen;
        got := f.Read(buf, want);
        if got < want {
          return false;
        }
        forall k | want <= k < want + (BLOCK - p.lastBlockLen) {
          buf[k] := 0;
        }
      } else {
        got := f.Read(buf, p.lastChunkBlocks * BLOCK);
        if got < p.lastChunkBlocks * BLOCK {
          return false;
        }
      }
    } else {
      got := f.Read(buf, CHUNK_BLOCKS * BLOCK);
      if got < CHUNK_BLOCKS * BLOCK {
        return false;
      }
    }
    return true;
  }

  /** Writes the front of the buffer to the card and, when asked to, compares what the card then holds. */
  method TransferChunk(dev: Device, buf: array<byte>, readback: array<byte>, start: u32, blocks: u32, check: bool)
    returns (ok: bool)
    requires BLOCK * blocks <= buf.Length == readback.Length && buf != readback
    modifies dev, readback
    ensures SameOutside(old(dev.card), dev.card, BLOCK * start, BLOCK * (start + blocks))
    ensures ok && (dev.faithful || check) ==>
              BLOCK * (start + blocks) <= |dev.card| &&
              dev.card[BLOCK * start..BLOCK * (start + blocks)] == buf[..BLOCK * blocks]
    ensures dev.reliable && dev.faithful && BLOCK * (start + blocks) <= |dev.card| ==> ok
    ensures ok ==> dev.handshakes == old(dev.handshakes) + 1
  {
    ok := SdCardWrite(dev, start, blocks, buf);
    if !ok { return; }
    if check {
      ok := SdCardRead(dev, start, blocks, readback);
      if !ok { return; }
      ok := buf[..BLOCK * blocks] == readback[..BLOCK * blocks];
    }
  }

  /** Chunk i, taken from the file at `from` and zero-filled, is what the card holds from block `start` on. */
  ghost predicate ChunkStored(data: seq<byte>, p: Plan, i: nat, from: nat, card: seq<byte>, start: u32) {
    && 0 < p.lastChunkBlocks && from + ChunkBytes(p, i) <= |data| && ChunkBytes(p, i) <= BLOCK * ChunkBlocks(p, i)
    && BLOCK * (start + ChunkBlocks(p, i)) <= |card|
    && card[BLOCK * start..BLOCK * (start + ChunkBlocks(p, i))] ==
       data[from..from + ChunkBytes(p, i)] + Zeros(BLOCK * ChunkBlocks(p, i) - ChunkBytes(p, i))
  }

  method ProgramChunk(dev: Device, f: HostFile, buf: array<byte>, readback: array<byte>, p: Plan, i: nat, start: u32,
                      check: bool)
    returns (ok: bool)
    requires f.pos <= |f.data| && buf.Length == readback.Length == CHUNK && buf != readback
    requires 0 < p.lastBlockLen <= BLOCK && 0 < p.lastChunkBlocks <= CHUNK_BLOCKS
    modifies dev, f, buf, readback
    ensures old(f.pos) <= f.pos <= |f.data|
    ensures SameOutside(old(dev.card), dev.card, BLOCK * start, BLOCK * (start + ChunkBlocks(p, i)))
    ensures ok ==> f.pos == old(f.pos) + ChunkBytes(p, i) && ChunkBytes(p, i) <= BLOCK * ChunkBlocks(p, i)
    ensures ok && (dev.faithful || check) ==> ChunkStored(f.data, p, i, old(f.pos), dev.card, start)
    ensures (f.steady && old(f.pos) + ChunkBytes(p, i) <= |f.data| && dev.reliable && dev.faithful &&
             BLOCK * (start + ChunkBlocks(p, i)) <= |dev.card|) ==> ok
    ensures ok ==> dev.handshakes == old(dev.handshakes) + 1
  {
    ok := ReadChunk(f, buf, p, i);
    if !ok { return; }
    ok := TransferChunk(dev, buf, readback, start, ChunkBlocks(p, i), check);
  }

  // ---------------------------------------------------------------- the whole file

  /** `after` is `before` with the bytes of `image` at lo, and nothing else changed. */
  predicate Spliced(before: seq<byte>, after: seq<byte>, lo: nat, image: seq<byte>) {
    if image == [] then after == before
    else lo + |image| <= |before| && after == before[..lo] + image + before[lo + |image|..]
  }

  lemma SpliceMore(was: seq<byte>, mid: seq<byte>, now: seq<byte>, lo: nat, image: seq<byte>, more: seq<byte>)
    requires Spliced(was, mid, lo, image) && more != []
    requires SameOutside(mid, now, lo + |image|, lo + |image| + |more|)
    requires lo + |image| + |more| <= |now| && now[lo + |image|..lo + |image| + |more|] == more
    ensures Spliced(was, now, lo, image + more)
  {
    var a, b := lo + |image|, lo + |image| + |more|;
    assert now == now[..a] + now[a..b] + now[b..];
    assert now[..a] == mid[..a] && now[b..] == mid[b..];
    if image == [] {
      assert image + more == more;
    } else {
      assert mid[..a] == was[..lo] + image;
      assert mid[b..] == was[b..];
      assert now == was[..lo] + (image + more) + was[b..];
    }
  }

  lemma OutsideWider(a: seq<byte>, b: seq<byte>, c: seq<byte>, lo: nat, hi: nat, from: nat, to: nat)
    requires lo <= from <= to <= hi
    requires SameOutside(a, b, lo, hi) && SameOutside(b, c, from, to)
    ensures SameOutside(a, c, lo, hi)
  {
    assert c[..Min(lo, |c|)] == c[..Min(from, |c|)][..Min(lo, |c|)];
    assert b[..Min(lo, |b|)] == b[..Min(from, |b|)][..Min(lo, |b|)];
    assert c[Min(hi, |c|)..] == c[Min(to, |c|)..][Min(hi, |c|) - Min(to, |c|)..];
    assert b[Min(hi, |b|)..] == b[Min(to, |b|)..][Min(hi, |b|) - Min(to, |b|)..];
  }

  /** The chunk that goes out is the matching piece of the image. */
  lemma ChunkImage(data: seq<byte>, i: nat)
    requires i < PlanFor(|data|).times
    requires i * CHUNK + ChunkBytes(PlanFor(|data|), i) <= |data|
    ensures var p := PlanFor(|data|);
            var n := BLOCK * ChunkBlocks(p, i);
            && ChunkBytes(p, i) <= n && i * CHUNK + n <= |Image(data)|
            && data[i * CHUNK..i * CHUNK + ChunkBytes(p, i)] + Zeros(n - ChunkBytes(p, i)) ==
               Image(data)[i * CHUNK..i * CHUNK + n]
            && (if i + 1 == p.times then i * CHUNK + n == |Image(data)| else n == CHUNK)
  {
    ChunkPlace(|data|, i);
    var from, k, image := i * CHUNK, Min(Asked(|data|), |data|), Image(data);
    assert image == data[..k] + Zeros(|image| - k);
    if i + 1 < PlanFor(|data|).times {
      assert image[from..from + CHUNK] == data[from..from + CHUNK];
      assert Zeros(0) == [];
    } else {
      assert image[from..] == data[from..k] + Zeros(|image| - k);
    }
  }

  /** Each block that is sent has a 32-bit number on the card. */
  predicate Addressable(addr: u32, size: nat) {
    addr / BLOCK + PlanFor(size).blockNums <= 0x1_0000_0000
  }

  /** How far the loop got before chunk i: so many bytes of the image are on the card. */
  function Done(size: nat, i: nat): nat {
    Min(i * CHUNK, BLOCK * PlanFor(size).blockNums)
  }

  lemma DoneStep(size: nat, i: nat)
    requires i < PlanFor(size).times
    ensures Done(size, i) == i * CHUNK
    ensures Done(size, i + 1) == i * CHUNK + BLOCK * ChunkBlocks(PlanFor(size), i)
    ensures i + 1 == PlanFor(size).times ==> Done(size, i + 1) == BLOCK * PlanFor(size).blockNums
    ensures 0 < Done(size, i + 1) - Done(size, i) <= CHUNK
  {
    ChunkPlace(size, i);
  }

  /** What is known of the card when the run breaks off at chunk `doubt`: up to then it held the first chunks of
      the image and was otherwise untouched, and only blocks of chunk `doubt` may differ from that. */
  ghost predicate Interrupted(was: seq<byte>, now: seq<byte>, lo: nat, data: seq<byte>, doubt: nat) {
    exists mid: seq<byte> ::
      && Spliced(was, mid, lo, Image(data)[..Done(|data|, doubt)])
      && SameOutside(mid, now, lo + Done(|data|, doubt), lo + Done(|data|, doubt + 1))
  }

  /** First block of chunk i on the card, in 32-bit arithmetic. */
  function ChunkStart(addr: u32, i: nat): u32 {
    (addr / BLOCK + CHUNK_BLOCKS * i) % 0x1_0000_0000
  }

  /** Chunk i goes to the blocks right behind the chunks before it, and the file holds its bytes unless it is the
      partial last block of a full last chunk. */
  lemma ChunkAddress(addr: u32, size: nat, i: nat)
    requires Addressable(addr, size) && i < PlanFor(size).times
    ensures var p := PlanFor(size);
            var start := ChunkStart(addr, i);
            var lo := BLOCK * (addr / BLOCK);
            && BLOCK * start == lo + Done(size, i)
            && BLOCK * (start + ChunkBlocks(p, i)) == lo + Done(size, i + 1)
            && Done(size, i) == i * CHUNK && Done(size, i) < Done(size, i + 1) <= BLOCK * PlanFor(size).blockNums
            && (i + 1 < p.times ==> i * CHUNK + ChunkBytes(p, i) == (i + 1) * CHUNK)
            && (i + 1 == p.times ==> Done(size, i + 1) == BLOCK * PlanFor(size).blockNums)
            && (i + 1 < p.times || Completes(size) <==> i * CHUNK + ChunkBytes(p, i) <= size)
  {
    ChunkPlace(size, i);
    DoneStep(size, i);
    var b := addr / BLOCK + CHUNK_BLOCKS * i;
    assert b < 0x1_0000_0000;
  }

  lemma DoneGrows(size: nat, i: nat)
    ensures Done(size, i) <= Done(size, i + 1) <= BLOCK * PlanFor(size).blockNums
  {
  }

  /** The state of the card between chunks. */
  ghost predicate Progress(was: seq<byte>, now: seq<byte>, lo: nat, data: seq<byte>, i: nat, trusted: bool) {
    && SameOutside(was, now, lo, lo + |Image(data)|)
    && (trusted ==> Spliced(was, now, lo, Image(data)[..Done(|data|, i)]))
  }

  /** The card holds the piece of the image that chunk i covers. */
  predicate ImageOnCard(lo: nat, data: seq<byte>, i: nat, card: seq<byte>) {
    && lo + Done(|data|, i + 1) <= |card|
    && card[lo + Done(|data|, i)..lo + Done(|data|, i + 1)] == Image(data)[Done(|data|, i)..Done(|data|, i + 1)]
  }

  lemma ChunkWritten(lo: nat, data: seq<byte>, i: nat, was: seq<byte>, mid: seq<byte>, now: seq<byte>)
    requires Spliced(was, mid, lo, Image(data)[..Done(|data|, i)])
    requires Done(|data|, i) < Done(|data|, i + 1)
    requires SameOutside(mid, now, lo + Done(|data|, i), lo + Done(|data|, i + 1))
    requires ImageOnCard(lo, data, i, now)
    ensures Spliced(was, now, lo, Image(data)[..Done(|data|, i + 1)])
  {
    var image, d, e := Image(data), Done(|data|, i), Done(|data|, i + 1);
    var done, more := image[..d], image[d..e];
    assert done + more == image[..e];
    assert |done| == d && |more| == e - d;
    SpliceMore(was, mid, now, lo, done, more);
  }

  /** What one more chunk, complete or not, does to the card. */
  lemma ChunkStep(lo: nat, data: seq<byte>, i: nat, was: seq<byte>, mid: seq<byte>, now: seq<byte>, trusted: bool)
    requires Progress(was, mid, lo, data, i, trusted) && Done(|data|, i) < Done(|data|, i + 1)
    requires SameOutside(mid, now, lo + Done(|data|, i), lo + Done(|data|, i + 1))
    ensures SameOutside(was, now, lo, lo + |Image(data)|)
    ensures trusted ==> Interrupted(was, now, lo, data, i)
    ensures !trusted || ImageOnCard(lo, data, i, now) ==> Progress(was, now, lo, data, i + 1, trusted)
  {
    OutsideWider(was, mid, now, lo, lo + |Image(data)|, lo + Done(|data|, i), lo + Done(|data|, i + 1));
    if trusted && ImageOnCard(lo, data, i, now) {
      ChunkWritten(lo, data, i, was, mid, now);
    }
  }

  lemma StoredIsImage(addr: u32, data: seq<byte>, i: nat, card: seq<byte>, start: u32)
    requires Addressable(addr, |data|) && i < PlanFor(|data|).times
    requires start == ChunkStart(addr, i)
    requires ChunkStored(data, PlanFor(|data|), i, i * CHUNK, card, start)
    ensures ImageOnCard(BLOCK * (addr / BLOCK), data, i, card)
  {
    ChunkAddress(addr, |data|, i);
    ChunkImage(data, i);
  }

  lemma NothingDone(was: seq<byte>, lo: nat, data: seq<byte>, trusted: bool)
    ensures Progress(was, was, lo, data, 0, trusted)
    ensures Interrupted(was, was, lo, data, 0)
  {
    DoneGrows(|data|, 0);
    assert Image(data)[..Done(|data|, 0)] == [];
    assert Spliced(was, was, lo, []);
  }

  /** Everything that the run needs so that no step of it fails. */
  ghost predicate Ideal(dev: Device, f: HostFile, addr: u32)
    reads dev
  {
    && Addressable(addr, |f.data|) && Completes(|f.data|) && f.steady && dev.reliable && dev.faithful
    && BLOCK * (addr / BLOCK) + |Image(f.data)| <= |dev.card|
  }

  lemma RoundLemma(addr: u32, data: seq<byte>, i: nat, was: seq<byte>, mid: seq<byte>, now: seq<byte>, start: u32,
                   ok: bool, trusted: bool)
    requires Addressable(addr, |data|) && i < PlanFor(|data|).times && start == ChunkStart(addr, i)
    requires Progress(was, mid, BLOCK * (addr / BLOCK), data, i, trusted)
    requires SameOutside(mid, now, BLOCK * start, BLOCK * (start + ChunkBlocks(PlanFor(|data|), i)))
    requires ok && trusted ==> ChunkStored(data, PlanFor(|data|), i, i * CHUNK, now, start)
    ensures SameOutside(was, now, BLOCK * (addr / BLOCK), BLOCK * (addr / BLOCK) + |Image(data)|)
    ensures trusted ==> Interrupted(was, now, BLOCK * (addr / BLOCK), data, i)
    ensures ok ==> Progress(was, now, BLOCK * (addr / BLOCK), data, i + 1, trusted)
  {
    ChunkAddress(addr, |data|, i);
    ChunkStep(BLOCK * (addr / BLOCK), data, i, was, mid, now, trusted);
    if ok && trusted {
      StoredIsImage(addr, data, i, now, start);
    }
  }

  /** Between chunks, and what a chunk that breaks off leaves behind. */
  ghost predicate AtChunk(was: seq<byte>, now: seq<byte>, addr: u32, data: seq<byte>, i: nat, pos: nat, trusted: bool) {
    && Progress(was, now, BLOCK * (addr / BLOCK), data, i, trusted)
    && (i < PlanFor(|data|).times ==> pos == i * CHUNK)
    && (i > 0 && i == PlanFor(|data|).times ==> Completes(|data|))
  }

  ghost predicate BrokenOff(was: seq<byte>, now: seq<byte>, addr: u32, data: seq<byte>, doubt: nat, trusted: bool) {
    && SameOutside(was, now, BLOCK * (addr / BLOCK), BLOCK * (addr / BLOCK) + |Image(data)|)
    && (trusted ==> Interrupted(was, now, BLOCK * (addr / BLOCK), data, doubt))
  }

  /** One round of the loop, in terms of the whole run. */
  method ChunkRound(dev: Device, f: HostFile, addr: u32, buf: array<byte>, readback: array<byte>, i: nat, check: bool,
                    ghost was: seq<byte>)
    returns (ok: bool)
    requires i < PlanFor(|f.data|).times && f.pos <= |f.data|
    requires buf.Length == readback.Length == CHUNK && buf != readback
    requires Addressable(addr, |f.data|) ==> AtChunk(was, dev.card, addr, f.data, i, f.pos, dev.faithful || check)
    modifies dev, f, buf, readback
    ensures f.pos <= |f.data|
    ensures Addressable(addr, |f.data|) ==>
              if ok then AtChunk(was, dev.card, addr, f.data, i + 1, f.pos, dev.faithful || check)
              else BrokenOff(was, dev.card, addr, f.data, i, dev.faithful || check)
    ensures old(Ideal(dev, f, addr)) ==> ok && Ideal(dev, f, addr)
    ensures ok ==> dev.handshakes == old(dev.handshakes) + 1
  {
    ghost var mid := dev.card;
    var start := ChunkStart(addr, i);
    if Addressable(addr, |f.data|) {
      ChunkAddress(addr, |f.data|, i);
    }
    ok := ProgramChunk(dev, f, buf, readback, PlanFor(|f.data|), i, start, check);
    if Addressable(addr, |f.data|) {
      RoundLemma(addr, f.data, i, was, mid, dev.card, start, ok, dev.faithful || check);
    }
  }

  /** The loop over the chunks; returns the number of chunks that were completed. */
  method ProgramChunks(dev: Device, f: HostFile, addr: u32, check: bool) returns (i: nat)
    requires f.pos == 0
    modifies dev, f
    ensures i <= PlanFor(|f.data|).times
    ensures PlanFor(|f.data|).times == 0 ==> dev.card == old(dev.card)
    ensures Addressable(addr, |f.data|) ==>
              if i == PlanFor(|f.data|).times
              then AtChunk(old(dev.card), dev.card, addr, f.data, i, f.pos, dev.faithful || check)
              else BrokenOff(old(dev.card), dev.card, addr, f.data, i, dev.faithful || check)
    ensures old(Ideal(dev, f, addr)) ==> i == PlanFor(|f.data|).times
    ensures i == PlanFor(|f.data|).times ==> dev.handshakes == old(dev.handshakes) + i
  {
    ghost var was, trusted, ideal := dev.card, dev.faithful || check, Ideal(dev, f, addr);
    NothingDone(was, BLOCK * (addr / BLOCK), f.data, trusted);
    var p := PlanFor(|f.data|);
    var buf := new byte[CHUNK](_ => 0);
    var readback := new byte[CHUNK](_ => 0);
    i := 0;
    while i < p.times
      invariant i <= p.times && f.pos <= |f.data|
      invariant i == 0 ==> dev.card == was
      invariant dev.handshakes == old(dev.handshakes) + i
      invariant Addressable(addr, |f.data|) ==> AtChunk(was, dev.card, addr, f.data, i, f.pos, trusted)
      invariant ideal ==> Ideal(dev, f, addr)
      decreases p.times - i
    {
      var ok := ChunkRound(dev, f, addr, buf, readback, i, check, was);
      if !ok { return; }
      i := i + 1;
    }
  }

  /** Writing a file, with every block that is sent numbered in 32 bits. The card ends up with the image of the file,
      which is the padded file exactly when its blocks can be counted in 32 bits. */
  method SdCardProgram(dev: Device, f: HostFile, addr: u32, check: bool) returns (ret: int, ghost doubt: nat)
    requires f.pos == 0
    modifies dev, f
    ensures ret == 0 || ret == -1
    ensures Addressable(addr, |f.data|) && ret == 0 ==> Completes(|f.data|)
    ensures Addressable(addr, |f.data|) && ret == 0 && (dev.faithful || check) ==>
              Spliced(old(dev.card), dev.card, BLOCK * (addr / BLOCK), Image(f.data))
    ensures Addressable(addr, |f.data|) && ret == -1 && (dev.faithful || check) ==>
              Interrupted(old(dev.card), dev.card, BLOCK * (addr / BLOCK), f.data, doubt)
    ensures Addressable(addr, |f.data|) ==>
              SameOutside(old(dev.card), dev.card, BLOCK * (addr / BLOCK), BLOCK * (addr / BLOCK) + |Image(f.data)|)
    ensures ret == 0 && (dev.faithful || check) && 0 < Blocks(|f.data|) < 0x1_0000_0000 &&
            addr / BLOCK + Blocks(|f.data|) <= 0x1_0000_0000 ==>
              OnCard(old(dev.card), dev.card, BLOCK * (addr / BLOCK), f.data)
    ensures ret == 0 ==> dev.handshakes == old(dev.handshakes) + PlanFor(|f.data|).times
    ensures Image(f.data) == Padded(f.data) <==> Blocks(|f.data|) < 0x1_0000_0000
    ensures Blocks(|f.data|) % 0x1_0000_0000 == 0 ==> dev.card == old(dev.card) && (f.steady ==> ret == 0)
    ensures old(Ideal(dev, f, addr)) ==> ret == 0
  {
    doubt := 0;
    NothingDone(dev.card, BLOCK * (addr / BLOCK), f.data, true);
    EmptyPlanExactly(|f.data|);
    ImageIsPadded(f.data);
    // stat, open and the two allocations
    var ready: bool := *;
    if !ready && !f.steady {
      return -1, 0;
    }
    var i := ProgramChunks(dev, f, addr, check);
    doubt := i;
    ret := if i != PlanFor(|f.data|).times then -1 else 0;
    if Addressable(addr, |f.data|) {
      AllDone(f.data);
    }
    PlanCovers(|f.data|);
    if ret == 0 && (dev.faithful || check) && Addressable(addr, |f.data|) && 0 < Blocks(|f.data|) < 0x1_0000_0000 {
      SplicedIsOnCard(old(dev.card), dev.card, BLOCK * (addr / BLOCK), f.data);
    }
  }

  /** Byte by byte: the file lies at lo, zeros fill its last block, and every other byte is as it was. */
  ghost predicate OnCard(was: seq<byte>, now: seq<byte>, lo: nat, data: seq<byte>) {
    var hi := lo + 512 * ((|data| + 511) / 512);
    && |now| == |was| && hi <= |now|
    && now[lo..lo + |data|] == data
    && (forall k: nat | lo + |data| <= k < hi :: now[k] == 0)
    && (forall k: nat | k < |now| && !(lo <= k < hi) :: now[k] == was[k])
  }

  lemma SplicedIsOnCard(was: seq<byte>, now: seq<byte>, lo: nat, data: seq<byte>)
    requires Spliced(was, now, lo, Image(data)) && 0 < Blocks(|data|) < 0x1_0000_0000
    ensures OnCard(was, now, lo, data)
  {
    var n, image := |data|, Padded(data);
    assert Image(data) == image by { ImageIsPadded(data); }
    forall k: nat | k < |now|
      ensures now[k] == if lo <= k < lo + |image| then image[k - lo] else was[k]
    {
      SplicedByte(was, now, lo, image, k);
    }
    assert now[lo..lo + n] == data;
    forall k: nat | lo + n <= k < lo + |image|
      ensures now[k] == 0
    {
      PaddingByte(data, k - lo);
    }
  }

  lemma SplicedByte(was: seq<byte>, now: seq<byte>, lo: nat, image: seq<byte>, k: nat)
    requires Spliced(was, now, lo, image) && image != [] && k < |now|
    ensures |now| == |was| && lo + |image| <= |now|
    ensures now[k] == if lo <= k < lo + |image| then image[k - lo] else was[k]
  {
  }

  lemma PaddingByte(data: seq<byte>, k: nat)
    requires |data| <= k < |Padded(data)|
    ensures Padded(data)[k] == 0
  {
    assert Padded(data)[k] == Zeros(|Padded(data)| - |data|)[k - |data|];
  }

  lemma AllDone(data: seq<byte>)
    ensures Image(data)[..Done(|data|, PlanFor(|data|).times)] == Image(data)
  {
    PlanCovers(|data|);
    if PlanFor(|data|).times > 0 {
      DoneStep(|data|, PlanFor(|data|).times - 1);
    }
  }

  /** The file ends inside the last 512 bytes of the k-th piece of 512 KiB. */
  predicate EndsInLastBlock(size: nat, k: nat) {
    0x8_0000 * k + 0x7_fe00 < size < 0x8_0000 * (k + 1)
  }

  lemma IncompleteEndsInLastBlock(size: nat, q: nat, r: nat)
    requires size == BLOCK * q + r && 0 < r < BLOCK && (q + 1) % CHUNK_BLOCKS == 0
    ensures (q + 1) / CHUNK_BLOCKS > 0 && EndsInLastBlock(size, (q + 1) / CHUNK_BLOCKS - 1)
  {
    var m := (q + 1) / CHUNK_BLOCKS;
    assert q + 1 == CHUNK_BLOCKS * m;
  }

  lemma LastBlockIsIncomplete(size: nat, k: nat)
    requires EndsInLastBlock(size, k)
    ensures size % BLOCK != 0 && Blocks(size) % CHUNK_BLOCKS == 0
  {
    BlocksOf(size, CHUNK_BLOCKS * k + CHUNK_BLOCKS - 1, size - (CHUNK * k + (CHUNK - BLOCK)));
    assert Blocks(size) == CHUNK_BLOCKS * (k + 1);
  }

  /** The sizes at which the program always gives up: it asks for a full chunk although the file ends inside the
      last block of that chunk. */
  lemma IncompleteSizes(size: nat)
    ensures !Completes(size) <==> Blocks(size) < 0x1_0000_0000 && exists k: nat :: EndsInLastBlock(size, k)
  {
    CompletesExactly(size);
    BlocksOf(size, size / BLOCK, size % BLOCK);
    if !Completes(size) {
      IncompleteEndsInLastBlock(size, size / BLOCK, size % BLOCK);
    }
    if k: nat :| EndsInLastBlock(size, k) {
      LastBlockIsIncomplete(size, k);
    }
  }

  lemma CountersExactly(size: nat)
    ensures PlanFor(size).blockNums == Blocks(size) <==> Blocks(size) < 0x1_0000_0000
  {
    PlanCovers(size);
  }

  /** A file of any multiple of 2^32 blocks counts as empty. */
  lemma EmptyPlanExactly(size: nat)
    ensures PlanFor(size).times == 0 <==> Blocks(size) % 0x1_0000_0000 == 0
  {
    PlanCovers(size);
  }

  /** A file of 2^41 bytes is one; with 2560 bytes more, five blocks are sent, in one chunk. */
  lemma HugeFiles()
    ensures Blocks(0x200_0000_0000) == 0x1_0000_0000 && PlanFor(0x200_0000_0000).times == 0
    ensures PlanFor(0x200_0000_0a00).blockNums == 5 && PlanFor(0x200_0000_0a00).times == 1
  {
    PlanCovers(0x200_0000_0000);
    PlanCovers(0x200_0000_0a00);
  }
}
