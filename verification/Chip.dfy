/** The concentrator behind the SPI bus as a byte device, and the bus transfers. Every transfer is taken
    to succeed. */
module Chip {
  import opened Bits
  import opened BitOps

  /** Addresses have 15 bits: `ADDR_MASK`. */
  const SPACE := 0x8000

  const LGW_BURST_CHUNK := 1024

  /** The cell `k` places after the one that an address selects. */
  function Cell(addr: nat, k: nat): (c: nat)
    ensures c < SPACE
  {
    (addr + k) % SPACE
  }

  type Memory = m: seq<byte> | |m| == SPACE witness seq(SPACE, _ => 0)

  /** The memory after the bytes from `data[from]` on arrive at consecutive addresses from `addr` on. */
  function Stored(mem: Memory, addr: nat, data: seq<byte>, from: nat): Memory
    requires from <= |data|
    decreases |data| - from
  {
    if from == |data| then mem else Stored(mem[Cell(addr, 0) := data[from]], addr + 1, data, from + 1)
  }

  /** The `n` bytes at consecutive addresses from `addr` on. */
  function Loaded(mem: Memory, addr: nat, n: nat): (r: seq<byte>)
    ensures |r| == n
  {
    seq(n, k requires 0 <= k < n => mem[Cell(addr, k)])
  }

  /** The byte written by `lgw_spi_rmw`: `leng` bits of `data` placed at bit `offs` of the old byte. */
  function Mixed(was: byte, offs: nat, leng: nat, data: byte): byte {
    var mask := Shl(Pow2(leng) - 1, offs);
    Or(And(Not(mask), was), And(mask, Shl(data, offs)))
  }

  class Device {
    var mem: Memory
    /** What reads of a memory in FIFO mode will deliver. */
    var fifo: seq<byte>
    /** The number of bus transactions so far. */
    var transactions: nat

    constructor (mem: Memory, fifo: seq<byte>)
      ensures this.mem == mem && this.fifo == fifo && transactions == 0
    {
      this.mem, this.fifo, transactions := mem, fifo, 0;
    }

    /** One write transaction. */
    method TransmitWrite(addr: uint16, data: seq<byte>)
      modifies this
      ensures mem == Stored(old(mem), Cell(addr, 0), data, 0)
      ensures fifo == old(fifo) && transactions == old(transactions) + 1
    {
      var i := 0;
      while i < |data|
        invariant 0 <= i <= |data|
        invariant Stored(mem, Cell(addr, 0) + i, data, i) == Stored(old(mem), Cell(addr, 0), data, 0)
        invariant fifo == old(fifo) && transactions == old(transactions)
      {
        mem := mem[Cell(Cell(addr, 0), i) := data[i]];
        i := i + 1;
      }
      transactions := transactions + 1;
    }

    /** One read transaction, of plain memory or of memory in FIFO mode. */
    method TransmitRead(addr: uint16, n: nat, fifoMode: bool) returns (data: seq<byte>)
      requires fifoMode ==> n <= |fifo|
      modifies this
      ensures data == if fifoMode then old(fifo)[..n] else Loaded(mem, Cell(addr, 0), n)
      ensures mem == old(mem) && fifo == (if fifoMode then old(fifo)[n..] else old(fifo))
      ensures transactions == old(transactions) + 1
    {
      if fifoMode {
        data := fifo[..n];
        fifo := fifo[n..];
      } else {
        data := Loaded(mem, Cell(addr, 0), n);
      }
      transactions := transactions + 1;
    }

    /** `lgw_spi_w` */
    method Write(addr: uint16, data: byte)
      modifies this
      ensures mem == old(mem)[Cell(addr, 0) := data]
      ensures fifo == old(fifo) && transactions == old(transactions) + 1
    {
      mem := mem[Cell(addr, 0) := data];
      transactions := transactions + 1;
    }

    /** `lgw_spi_r` */
    method Read(addr: uint16) returns (data: byte)
      modifies `transactions
      ensures data == mem[Cell(addr, 0)] && transactions == old(transactions) + 1
    {
      data := mem[Cell(addr, 0)];
      transactions := transactions + 1;
    }

    /** `lgw_spi_rmw` */
    method ReadModifyWrite(addr: uint16, offs: nat, leng: nat, data: byte)
      modifies this
      ensures mem == old(mem)[Cell(addr, 0) := Mixed(old(mem)[Cell(addr, 0)], offs, leng, data)]
      ensures fifo == old(fifo) && transactions == old(transactions) + 2
    {
      var byteRead := Read(addr);
      var mask := Shl(Pow2(leng) - 1, offs);
      var shifted := Shl(data, offs);
      Write(addr, Or(And(Not(mask), byteRead), And(mask, shifted)));
    }
  }
}
