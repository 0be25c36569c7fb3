/** Burst transfers: `lgw_mem_wb` and `lgw_mem_rb` cut them into chunks, and so does the SPI layer. */
module MemChunk {
  import opened Bits
  import opened Chip

  // ---------- Writes ----------

  lemma {:induction false} StoredFrom(mem: Memory, addr: nat, data: seq<byte>, from: nat, other: seq<byte>, at: nat)
    requires from <= |data| && at <= |other| && |data| - from == |other| - at
    requires forall k :: from <= k < |data| ==> data[k] == other[at + k - from]
    ensures Stored(mem, addr, data, from) == Stored(mem, addr, other, at)
    decreases |data| - from
  {
    if from < |data| {
      StoredFrom(mem[Cell(addr, 0) := data[from]], addr + 1, data, from + 1, other, at + 1);
    }
  }

  /** Only the address modulo the space counts. */
  lemma {:induction false} StoredWraps(mem: Memory, addr: nat, addr': nat, data: seq<byte>, from: nat)
    requires from <= |data| && Cell(addr, 0) == Cell(addr', 0)
    ensures Stored(mem, addr, data, from) == Stored(mem, addr', data, from)
    decreases |data| - from
  {
    if from < |data| {
      SameOffset(addr, addr', 1);
      CellPlus(addr, 1, 0);
      CellPlus(addr', 1, 0);
      StoredWraps(mem[Cell(addr, 0) := data[from]], addr + 1, addr' + 1, data, from + 1);
    }
  }

  lemma CellPlus(addr: nat, m: nat, k: nat)
    ensures Cell(addr + m, k) == Cell(addr, m + k)
    ensures Cell(Cell(addr, 0), k) == Cell(addr, k)
  {
  }

  lemma SameOffset(addr: nat, addr': nat, k: nat)
    requires Cell(addr, 0) == Cell(addr', 0)
    ensures Cell(addr, k) == Cell(addr', k)
  {
    CellPlus(addr, 0, k);
    CellPlus(addr', 0, k);
  }

  /** Storing two pieces one after the other is storing them together. */
  lemma {:induction false} StoredInTwo(mem: Memory, addr: nat, a: seq<byte>, b: seq<byte>, from: nat)
    requires from <= |a|
    ensures Stored(Stored(mem, addr, a, from), addr + |a| - from, b, 0) == Stored(mem, addr, a + b, from)
    decreases |a| - from
  {
    if from < |a| {
      StoredInTwo(mem[Cell(addr, 0) := a[from]], addr + 1, a, b, from + 1);
    } else {
      StoredFrom(mem, addr, b, 0, a + b, |a|);
    }
  }

  /** The size of the next chunk of `todo` bytes. */
  function ChunkSize(todo: nat): nat {
    if todo > LGW_BURST_CHUNK then LGW_BURST_CHUNK else todo
  }

  function Chunks(size: nat): nat {
    CeilDiv(size, LGW_BURST_CHUNK)
  }

  lemma NextChunk(size: nat)
    requires size > 0
    ensures Chunks(size) == 1 + Chunks(size - ChunkSize(size))
    ensures Chunks(0) == 0 && (size <= 1024 <==> Chunks(size) == 1)
  {
    var d := LGW_BURST_CHUNK;
    if size > d {
      DivisionIsUnique(size + d - 1, d, 1 + (size - d + d - 1) / d, (size - d + d - 1) % d);
    }
  }

  /** The memory after `lgw_spi_wb`, which sends every piece of `data` to the same address. */
  function SpiStored(mem: Memory, addr: nat, data: seq<byte>): Memory
    decreases |data|
  {
    if data == [] then mem
    else
      var n := ChunkSize(|data|);
      SpiStored(Stored(mem, addr, data[..n], 0), addr, data[n..])
  }

  lemma OneChunkStored(mem: Memory, addr: nat, data: seq<byte>)
    requires |data| <= LGW_BURST_CHUNK
    ensures SpiStored(mem, addr, data) == Stored(mem, addr, data, 0)
  {
    if data != [] {
      assert data[..|data|] == data && data[|data|..] == [];
    }
  }

  // ---------- What happens above one chunk ----------

  /** A cell that no byte goes to keeps its value. */
  lemma {:induction false} StoredCell(mem: Memory, addr: nat, data: seq<byte>, from: nat, cell: nat)
    requires from <= |data| && cell < SPACE
    requires forall k :: 0 <= k < |data| - from ==> Cell(addr, k) != cell
    ensures Stored(mem, addr, data, from)[cell] == mem[cell]
    decreases |data| - from
  {
    hide Cell;
    if from < |data| {
      assert Cell(addr, 0) != cell;
      var next := addr + 1;
      forall k | 0 <= k < |data| - from - 1
        ensures Cell(next, k) != cell
      {
        CellPlus(addr, 1, k);
      }
      StoredCell(mem[Cell(addr, 0) := data[from]], addr + 1, data, from + 1, cell);
    }
  }

  lemma {:induction false} SpiMissesCell(mem: Memory, addr: nat, data: seq<byte>)
    ensures SpiStored(mem, addr, data)[Cell(addr, LGW_BURST_CHUNK)] == mem[Cell(addr, LGW_BURST_CHUNK)]
    decreases |data|
  {
    if data != [] {
      var n := ChunkSize(|data|);
      forall k | 0 <= k < n
        ensures Cell(addr, k) != Cell(addr, LGW_BURST_CHUNK)
      {
        CellsApart(addr, k);
      }
      StoredCell(mem, addr, data[..n], 0, Cell(addr, LGW_BURST_CHUNK));
      SpiMissesCell(Stored(mem, addr, data[..n], 0), addr, data[n..]);
    }
  }

  lemma CellsApart(addr: nat, k: nat)
    requires k < LGW_BURST_CHUNK
    ensures Cell(addr, k) != Cell(addr, LGW_BURST_CHUNK)
  {
  }

  predicate All(data: seq<byte>, v: byte) {
    forall k :: 0 <= k < |data| ==> data[k] == v
  }

  /** A cell that some byte goes to has the value that all bytes have. */
  lemma {:induction false} StoredHits(mem: Memory, addr: nat, data: seq<byte>, from: nat, v: byte, cell: nat, hit: nat)
    requires from <= |data| && All(data, v) && cell < SPACE
    requires mem[cell] == v || (from + hit < |data| && Cell(addr, hit) == cell)
    ensures Stored(mem, addr, data, from)[cell] == v
    decreases |data| - from
  {
    hide Cell;
    if from < |data| {
      if hit > 0 {
        CellPlus(addr, 1, hit - 1);
      }
      StoredHits(mem[Cell(addr, 0) := data[from]], addr + 1, data, from + 1, v, cell, if hit > 0 then hit - 1 else 0);
    }
  }

  /** `lgw_spi_wb` alone writes the whole block, whatever the memory and the data, exactly for blocks of
      at most one chunk: every further piece goes over the first one. */
  lemma SpiWritesWholeIff(addr: nat, n: nat)
    ensures (forall mem: Memory, data: seq<byte> :: |data| == n ==>
               SpiStored(mem, addr, data) == Stored(mem, addr, data, 0)) <==> n <= 1024
  {
    if n <= LGW_BURST_CHUNK {
      forall mem: Memory, data: seq<byte> | |data| == n
        ensures SpiStored(mem, addr, data) == Stored(mem, addr, data, 0)
      {
        OneChunkStored(mem, addr, data);
      }
    } else {
      var mem: Memory, data: seq<byte> := seq(SPACE, _ => 0), seq(n, _ => 1);
      var cell := Cell(addr, LGW_BURST_CHUNK);
      SpiMissesCell(mem, addr, data);
      StoredHits(mem, addr, data, 0, 1, cell, LGW_BURST_CHUNK);
    }
  }

  // ---------- Reads ----------

  lemma LoadedInTwo(mem: Memory, addr: nat, m: nat, n: nat)
    ensures Loaded(mem, addr, m) + Loaded(mem, addr + m, n) == Loaded(mem, addr, m + n)
  {
  }

  lemma LoadedWraps(mem: Memory, addr: nat, addr': nat, n: nat)
    requires Cell(addr, 0) == Cell(addr', 0)
    ensures Loaded(mem, addr, n) == Loaded(mem, addr', n)
  {
    forall k | 0 <= k < n
      ensures Cell(addr, k) == Cell(addr', k)
    {
      SameOffset(addr, addr', k);
    }
  }

  /** What `lgw_spi_rb` delivers from plain memory: it reads every piece from the same address. */
  function SpiLoaded(mem: Memory, addr: nat, n: nat): (r: seq<byte>)
    ensures |r| == n
    decreases n
  {
    if n == 0 then [] else Loaded(mem, addr, ChunkSize(n)) + SpiLoaded(mem, addr, n - ChunkSize(n))
  }

  lemma OneChunkLoaded(mem: Memory, addr: nat, n: nat)
    requires n <= LGW_BURST_CHUNK
    ensures SpiLoaded(mem, addr, n) == Loaded(mem, addr, n)
  {
  }

  /** As for writes: `lgw_spi_rb` alone reads the block, whatever the memory, exactly up to one chunk. */
  lemma SpiReadsWholeIff(addr: nat, n: nat)
    ensures (forall mem: Memory :: SpiLoaded(mem, addr, n) == Loaded(mem, addr, n)) <==> n <= 1024
  {
    if n <= LGW_BURST_CHUNK {
      forall mem: Memory
        ensures SpiLoaded(mem, addr, n) == Loaded(mem, addr, n)
      {
        OneChunkLoaded(mem, addr, n);
      }
    } else {
      var cell := Cell(addr, LGW_BURST_CHUNK);
      var mem: Memory := seq(SPACE, i => if i == cell then 1 else 0);
      CellsApart(addr, 0);
      var rest := n - LGW_BURST_CHUNK;
      assert SpiLoaded(mem, addr, n)[LGW_BURST_CHUNK] == SpiLoaded(mem, addr, rest)[0];
      assert SpiLoaded(mem, addr, rest)[0] == Loaded(mem, addr, ChunkSize(rest))[0];
      assert Loaded(mem, addr, n)[LGW_BURST_CHUNK] == 1;
    }
  }

  // ---------- The transfers ----------

  /** `lgw_spi_wb` */
  method SpiWrite(chip: Device, addr: uint16, data: seq<byte>)
    modifies chip
    ensures chip.mem == SpiStored(old(chip.mem), Cell(addr, 0), data) && chip.fifo == old(chip.fifo)
    ensures chip.transactions == old(chip.transactions) + Chunks(|data|)
  {
    var done := 0;
    while done < |data|
      invariant 0 <= done <= |data|
      invariant SpiStored(chip.mem, Cell(addr, 0), data[done..]) == SpiStored(old(chip.mem), Cell(addr, 0), data)
      invariant chip.fifo == old(chip.fifo)
      invariant chip.transactions + Chunks(|data| - done) == old(chip.transactions) + Chunks(|data|)
    {
      var todo := |data| - done;
      var n := if todo < LGW_BURST_CHUNK then todo else LGW_BURST_CHUNK;
      NextChunk(todo);
      assert data[done..][..n] == data[done..done + n] && data[done..][n..] == data[done + n..];
      chip.TransmitWrite(addr, data[done..done + n]);
      done := done + n;
    }
  }

  /** What `lgw_spi_rb` delivers. In FIFO mode the fixed address is right for any number of bytes. */
  function Delivered(mem: Memory, fifo: seq<byte>, addr: nat, n: nat, fifoMode: bool): (r: seq<byte>)
    requires fifoMode ==> n <= |fifo|
    ensures |r| == n
  {
    if fifoMode then fifo[..n] else SpiLoaded(mem, addr, n)
  }

  function Left(fifo: seq<byte>, n: nat, fifoMode: bool): (r: seq<byte>)
    requires fifoMode ==> n <= |fifo|
    ensures |r| == if fifoMode then |fifo| - n else |fifo|
  {
    if fifoMode then fifo[n..] else fifo
  }

  lemma NextPiece(mem: Memory, fifo: seq<byte>, addr: nat, n: nat, fifoMode: bool, before: seq<byte>)
    requires n > 0 && (fifoMode ==> n <= |fifo|)
    ensures var c := ChunkSize(n);
      var piece := if fifoMode then fifo[..c] else Loaded(mem, addr, c);
      && before + Delivered(mem, fifo, addr, n, fifoMode) ==
         before + piece + Delivered(mem, Left(fifo, c, fifoMode), addr, n - c, fifoMode)
      && Left(Left(fifo, c, fifoMode), n - c, fifoMode) == Left(fifo, n, fifoMode)
  {
    hide Loaded;
    var c := ChunkSize(n);
    if fifoMode {
      assert fifo[..n] == fifo[..c] + fifo[c..][..n - c];
    }
  }

  /** `lgw_spi_rb` */
  method SpiRead(chip: Device, addr: uint16, n: nat, fifoMode: bool) returns (data: seq<byte>)
    requires fifoMode ==> n <= |chip.fifo|
    modifies chip
    ensures data == Delivered(old(chip.mem), old(chip.fifo), Cell(addr, 0), n, fifoMode)
    ensures chip.mem == old(chip.mem) && chip.fifo == Left(old(chip.fifo), n, fifoMode)
    ensures chip.transactions == old(chip.transactions) + Chunks(n)
  {
    hide Delivered, Left, Loaded, Cell, Chunks;
    data := [];
    var todo: nat := n;
    NothingLeft(chip.mem, chip.fifo, Cell(addr, 0), fifoMode);
    while todo > 0
      invariant todo <= n && (fifoMode ==> todo <= |chip.fifo|)
      invariant data + Delivered(chip.mem, chip.fifo, Cell(addr, 0), todo, fifoMode) ==
                Delivered(chip.mem, old(chip.fifo), Cell(addr, 0), n, fifoMode)
      invariant Left(chip.fifo, todo, fifoMode) == Left(old(chip.fifo), n, fifoMode)
      invariant chip.mem == old(chip.mem)
      invariant chip.transactions + Chunks(todo) == old(chip.transactions) + Chunks(n)
    {
      NextChunk(todo);
      NextPiece(chip.mem, chip.fifo, Cell(addr, 0), todo, fifoMode, data);
      LeftIs(chip.fifo, ChunkSize(todo), fifoMode);
      var c := if todo < LGW_BURST_CHUNK then todo else LGW_BURST_CHUNK;
      var piece := chip.TransmitRead(addr, c, fifoMode);
      data := data + piece;
      todo := todo - c;
    }
    NothingLeft(chip.mem, chip.fifo, Cell(addr, 0), fifoMode);
    NoChunks();
  }

  lemma NothingLeft(mem: Memory, fifo: seq<byte>, addr: nat, fifoMode: bool)
    ensures Delivered(mem, fifo, addr, 0, fifoMode) == [] && Left(fifo, 0, fifoMode) == fifo
  {
  }

  lemma LeftIs(fifo: seq<byte>, n: nat, fifoMode: bool)
    requires fifoMode ==> n <= |fifo|
    ensures Left(fifo, n, fifoMode) == if fifoMode then fifo[n..] else fifo
  {
  }

  lemma NoChunks()
    ensures Chunks(0) == 0
  {
  }

  /** `lgw_mem_wb`: the whole block is written, in chunks that take one transaction each. */
  method MemWrite(chip: Device, memAddr: uint16, data: seq<byte>) returns (ok: bool)
    requires |data| < 0x1_0000
    modifies chip
    ensures ok == (data != [])
    ensures chip.mem == Stored(old(chip.mem), memAddr, data, 0) && chip.fifo == old(chip.fifo)
    ensures chip.transactions == old(chip.transactions) + Chunks(|data|)
  {
    if |data| == 0 {
      return false;
    }
    var addr: uint16, done: nat := memAddr, 0;
    while done < |data|
      invariant done <= |data| && Cell(addr, 0) == Cell(memAddr, done)
      invariant chip.mem == Stored(old(chip.mem), memAddr, data[..done], 0) && chip.fifo == old(chip.fifo)
      invariant chip.transactions + Chunks(|data| - done) == old(chip.transactions) + Chunks(|data|)
    {
      var n := ChunkSize(|data| - done);
      var chunk := data[done..done + n];
      NextChunk(|data| - done);
      NextChunk(n);
      OneChunkStored(chip.mem, Cell(addr, 0), chunk);
      StoredWraps(chip.mem, Cell(addr, 0), memAddr + done, chunk, 0);
      StoredInTwo(old(chip.mem), memAddr, data[..done], chunk, 0);
      assert data[..done] + chunk == data[..done + n];
      SpiWrite(chip, addr, chunk);
      AddressAdvances(addr, memAddr, done, n);
      addr := (addr as int + n) % 0x1_0000;
      done := done + n;
    }
    assert data[..done] == data;
    ok := true;
  }

  lemma AddressAdvances(addr: nat, memAddr: nat, done: nat, n: nat)
    requires Cell(addr, 0) == Cell(memAddr, done)
    ensures Cell((addr + n) % 0x1_0000, 0) == Cell(memAddr, done + n)
  {
    hide Cell;
    WordWraps(addr + n);
    CellPlus(addr, n, 0);
    CellPlus(memAddr, done, 0);
    SameOffset(addr, memAddr + done, n);
    CellPlus(memAddr, done, n);
  }

  lemma WordWraps(a: nat)
    ensures Cell(a % 0x1_0000, 0) == Cell(a, 0)
  {
    var q, r := a / 0x1_0000, a % 0x1_0000;
    DivisionIsUnique(a, SPACE, 2 * q + r / SPACE, r % SPACE);
  }

  /** `lgw_mem_rb`: the whole block is read, or the next bytes of the FIFO, one transaction a chunk. */
  method MemRead(chip: Device, memAddr: uint16, size: uint16, fifoMode: bool) returns (ok: bool, data: seq<byte>)
    requires fifoMode ==> size <= |chip.fifo|
    modifies chip
    ensures ok == (size != 0)
    ensures data == if fifoMode then old(chip.fifo)[..size] else Loaded(chip.mem, memAddr, size)
    ensures chip.mem == old(chip.mem) && chip.fifo == (if fifoMode then old(chip.fifo)[size..] else old(chip.fifo))
    ensures chip.transactions == old(chip.transactions) + Chunks(size)
  {
    data := [];
    if size == 0 {
      return false, data;
    }
    var addr: uint16 := memAddr;
    while |data| < size
      invariant |data| <= size
      invariant !fifoMode ==> Cell(addr, 0) == Cell(memAddr, |data|) && chip.fifo == old(chip.fifo)
      invariant !fifoMode ==> data == Loaded(chip.mem, memAddr, |data|)
      invariant fifoMode ==> data == old(chip.fifo)[..|data|] && chip.fifo == old(chip.fifo)[|data|..]
      invariant chip.mem == old(chip.mem)
      invariant chip.transactions + Chunks(size - |data|) == old(chip.transactions) + Chunks(size)
      decreases size - |data|
    {
      var n := ChunkSize(size - |data|);
      NextChunk(size - |data|);
      NextChunk(n);
      if !fifoMode {
        OneChunkLoaded(chip.mem, Cell(addr, 0), n);
        LoadedWraps(chip.mem, Cell(addr, 0), memAddr + |data|, n);
        LoadedInTwo(chip.mem, memAddr, |data|, n);
        AddressAdvances(addr, memAddr, |data|, n);
      }
      var chunk := SpiRead(chip, addr, n, fifoMode);
      if !fifoMode {
        addr := (addr as int + n) % 0x1_0000;
      }
      data := data + chunk;
    }
    ok := true;
  }

  /** What is written is read back, as long as the block does not run over itself. */
  lemma {:induction false} WriteReadBack(mem: Memory, addr: nat, data: seq<byte>, from: nat)
    requires from <= |data| && |data| - from <= SPACE
    ensures Loaded(Stored(mem, addr, data, from), addr, |data| - from) == data[from..]
    decreases |data| - from
  {
    if from < |data| {
      var mem' := mem[Cell(addr, 0) := data[from]];
      WriteReadBack(mem', addr + 1, data, from + 1);
      var after := Stored(mem', addr + 1, data, from + 1);
      var next := addr + 1;
      forall k | 0 <= k < |data| - from - 1
        ensures Cell(next, k) != Cell(addr, 0)
      {
        CellPlus(addr, 1, k);
        NotRoundYet(addr, k + 1);
      }
      StoredCell(mem', addr + 1, data, from + 1, Cell(addr, 0));
      forall k | 0 <= k < |data| - from
        ensures after[Cell(addr, k)] == data[from..][k]
      {
        if k > 0 {
          assert Loaded(after, addr + 1, |data| - from - 1)[k - 1] == data[from + 1..][k - 1];
          CellPlus(addr, 1, k - 1);
        }
      }
    }
  }

  lemma NotRoundYet(addr: nat, k: nat)
    requires 0 < k < SPACE
    ensures Cell(addr, k) != Cell(addr, 0)
  {
  }

  /** Cell by cell: byte `k` goes to the address `addr + k` on 15 bits, and no other cell changes. */
  lemma StoredAt(mem: Memory, addr: nat, data: seq<byte>, cell: nat)
    requires |data| <= 0x8000 && cell < 0x8000
    ensures forall k :: 0 <= k < |data| && (addr + k) % 0x8000 == cell ==> Stored(mem, addr, data, 0)[cell] == data[k]
    ensures (cell - addr) % 0x8000 >= |data| ==> Stored(mem, addr, data, 0)[cell] == mem[cell]
  {
    WriteReadBack(mem, addr, data, 0);
    forall k | 0 <= k < |data| && (addr + k) % 0x8000 == cell
      ensures Stored(mem, addr, data, 0)[cell] == data[k]
    {
      assert Loaded(Stored(mem, addr, data, 0), addr, |data|)[k] == data[0..][k];
    }
    if (cell - addr) % 0x8000 >= |data| {
      forall k | 0 <= k < |data| - 0
        ensures Cell(addr, k) != cell
      {
        OffsetOfCell(addr, k);
      }
      StoredCell(mem, addr, data, 0, cell);
    }
  }

  lemma OffsetOfCell(addr: nat, k: nat)
    requires k < 0x8000
    ensures (Cell(addr, k) - addr) % 0x8000 == k
  {
    var q := (addr + k) / 0x8000;
    DivisionIsUnique(Cell(addr, k) - addr, 0x8000, -q, k);
  }
}
