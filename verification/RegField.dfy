/** Registers as bit fields of the concentrator's memory. */
module RegField {
  import opened Bits
  import opened BitOps
  import opened Chip

  /** `struct lgw_reg_s`, without the page, the check flag and the default value. */
  datatype Reg = Reg(addr: uint16, offs: nat, signed: bool, leng: nat, readOnly: bool)

  /** The register does not reach over the end of its byte: `reg_w` and `reg_r` refuse all others. */
  predicate Supported(r: Reg) {
    r.offs + r.leng <= 8
  }

  /** The register is a field of one byte. */
  predicate InOneByte(r: Reg) {
    r.leng >= 1 && Supported(r)
  }

  /** The register owns bit `k` of the byte at `addr`. */
  predicate Owns(r: Reg, addr: nat, k: nat) {
    addr == Cell(r.addr, 0) && r.offs <= k < r.offs + r.leng
  }

  predicate Disjoint(r: Reg, s: Reg) {
    Cell(r.addr, 0) == Cell(s.addr, 0) ==> r.offs + r.leng <= s.offs || s.offs + s.leng <= r.offs
  }

  /** A table of plain storage: fields within a byte that do not overlap. */
  predicate WellFormed(regs: seq<Reg>) {
    && (forall i :: 0 <= i < |regs| ==> InOneByte(regs[i]))
    && forall i, j :: 0 <= i < |regs| && 0 <= j < |regs| && i != j ==> Disjoint(regs[i], regs[j])
  }

  // ---------- One register ----------

  /** The byte that a write of `v` leaves, in `reg_w`. */
  function FieldWritten(was: byte, r: Reg, v: int): byte
    requires Supported(r)
  {
    if r.leng == 8 && r.offs == 0 then v % 0x100 else Mixed(was, r.offs, r.leng, v % 0x100)
  }

  /** The value that `reg_r` takes from the byte. */
  function FieldRead(b: byte, r: Reg): int
    requires Supported(r)
  {
    var aligned := Shl(b, 8 - r.leng - r.offs);
    if r.signed then AsSigned(Sar(aligned, 8 - r.leng)) else Shr(aligned, 8 - r.leng)
  }

  /** A value reduced to the width of the register, with its sign extended if the register has one. */
  function Reduced(v: int, r: Reg): int
    requires r.leng >= 1
  {
    var u := v % Pow2(r.leng);
    if r.signed && u >= Pow2(r.leng - 1) then u - Pow2(r.leng) else u
  }

  /** A write changes exactly the bits of the field. */
  lemma WrittenBit(was: byte, r: Reg, v: int, k: nat)
    requires InOneByte(r) && k < 8
    ensures Bit(FieldWritten(was, r, v), k) ==
            if r.offs <= k < r.offs + r.leng then Bit(v % 0x100, k - r.offs) else Bit(was, k)
  {
    hide Bit, OfBits;
    var data: byte := v % 0x100;
    var mask := Shl(Pow2(r.leng) - 1, r.offs);
    OfBitsBit((i: nat) => i >= r.offs && Bit(Pow2(r.leng) - 1, i - r.offs), k);
    if k >= r.offs {
      OnesBit(r.leng, k - r.offs);
    }
    OfBitsBit((i: nat) => i >= r.offs && Bit(data, i - r.offs), k);
    OfBitsBit((i: nat) => !Bit(mask, i), k);
    OfBitsBit((i: nat) => Bit(Not(mask), i) && Bit(was, i), k);
    OfBitsBit((i: nat) => Bit(mask, i) && Bit(Shl(data, r.offs), i), k);
    OfBitsBit((i: nat) => Bit(And(Not(mask), was), i) || Bit(And(mask, Shl(data, r.offs)), i), k);
  }

  /** The bits of the byte that `reg_r` interprets. */
  lemma AlignedBits(b: byte, r: Reg, k: nat)
    requires InOneByte(r) && k < 8
    ensures var aligned := Shl(b, 8 - r.leng - r.offs);
      && Bit(Shr(aligned, 8 - r.leng), k) == (k < r.leng && Bit(b, k + r.offs))
      && Bit(Sar(aligned, 8 - r.leng), k) == Bit(b, (if k < r.leng then k else r.leng - 1) + r.offs)
  {
    hide Bit, OfBits;
    var up, down := 8 - r.leng - r.offs, 8 - r.leng;
    var aligned := Shl(b, up);
    var at := if k + down < 8 then k + down else 7;
    OfBitsBit((i: nat) => i >= up && Bit(b, i - up), at);
    OfBitsBit((i: nat) => i >= up && Bit(b, i - up), k + down);
    OfBitsBit((i: nat) => Bit(aligned, i + down), k);
    OfBitsBit((i: nat) => Bit(aligned, if i + down < 8 then i + down else 7), k);
  }

  /** What a read of the field gives is determined by the bits of the field. */
  lemma FieldReadDepends(b: byte, c: byte, r: Reg)
    requires InOneByte(r)
    requires forall k: nat :: r.offs <= k < r.offs + r.leng ==> Bit(b, k) == Bit(c, k)
    ensures FieldRead(b, r) == FieldRead(c, r)
  {
    hide Bit, Shl, Shr, Sar;
    var up, down := 8 - r.leng - r.offs, 8 - r.leng;
    forall k: nat | k < 8
      ensures Bit(Shr(Shl(b, up), down), k) == Bit(Shr(Shl(c, up), down), k)
      ensures Bit(Sar(Shl(b, up), down), k) == Bit(Sar(Shl(c, up), down), k)
    {
      AlignedBits(b, r, k);
      AlignedBits(c, r, k);
    }
    WordSizes();
    BitsDetermine(Shr(Shl(b, up), down), Shr(Shl(c, up), down), 8);
    BitsDetermine(Sar(Shl(b, up), down), Sar(Shl(c, up), down), 8);
  }

  /** A register reads back what was written, reduced to its width. */
  lemma ReadsBack(was: byte, r: Reg, v: int)
    requires InOneByte(r)
    ensures FieldRead(FieldWritten(was, r, v), r) == Reduced(v, r)
  {
    hide Bit, Shl, Shr, Sar, FieldWritten, Pow2;
    var b, data: byte := FieldWritten(was, r, v), v % 0x100;
    var up, down := 8 - r.leng - r.offs, 8 - r.leng;
    forall k: nat | k < 8
      ensures Bit(Shr(Shl(b, up), down), k) == (k < r.leng && Bit(data, k))
      ensures Bit(Sar(Shl(b, up), down), k) == Bit(data, if k < r.leng then k else r.leng - 1)
    {
      AlignedBits(b, r, k);
      var i := if k < r.leng then k else r.leng - 1;
      WrittenBit(was, r, v, i + r.offs);
    }
    ByteRemainder(v, r.leng);
    if r.signed {
      SignExtends(Sar(Shl(b, up), down), data, r.leng);
    } else {
      LowBitsAreRemainder(Shr(Shl(b, up), down), data, r.leng);
    }
  }

  /** The conversion of the value to a byte loses nothing that the register holds. */
  lemma ByteRemainder(v: int, n: nat)
    requires n <= 8
    ensures v % 0x100 % Pow2(n) == v % Pow2(n)
  {
    hide Pow2;
    Pow2Sum(n, 8 - n);
    WordSizes();
    RemainderOfRemainder(v, Pow2(n), Pow2(8 - n));
  }

  lemma RemainderOfRemainder(v: int, p: nat, q: nat)
    requires p > 0 && q > 0
    ensures v % (p * q) % p == v % p
  {
    var t, r := v / (p * q), v % (p * q);
    assert v == t * (p * q) + r;
    assert t * (p * q) == t * q * p;
    assert r == r / p * p + r % p;
    assert (t * q + r / p) * p == t * q * p + r / p * p;
    DivisionIsUnique(v, p, t * q + r / p, r % p);
  }

  lemma {:induction false} Pow2Sum(m: nat, n: nat)
    ensures Pow2(m + n) == Pow2(m) * Pow2(n)
    decreases n
  {
    if n > 0 {
      Pow2Sum(m, n - 1);
    }
  }

  // ---------- The register file ----------

  /** The register can be written: `lgw_reg_w` refuses all others. */
  predicate Writable(regs: seq<Reg>, id: nat) {
    id < |regs| && !regs[id].readOnly && Supported(regs[id])
  }

  /** The memory after `lgw_reg_w`. */
  function RegWritten(regs: seq<Reg>, mem: Memory, id: nat, v: int): Memory
  {
    if !Writable(regs, id) then mem
    else
      var a := Cell(regs[id].addr, 0);
      mem[a := FieldWritten(mem[a], regs[id], v)]
  }

  /** The value that `lgw_reg_r` delivers. */
  function RegRead(regs: seq<Reg>, mem: Memory, id: nat): int
    requires id < |regs| && Supported(regs[id])
  {
    FieldRead(mem[Cell(regs[id].addr, 0)], regs[id])
  }

  /** A write sets the bits that its register owns, and no others. */
  lemma WriteOwnsBits(regs: seq<Reg>, mem: Memory, id: nat, v: int, addr: nat, k: nat)
    requires WellFormed(regs) && addr < SPACE && k < 8
    requires Writable(regs, id) ==> !Owns(regs[id], addr, k)
    ensures Bit(RegWritten(regs, mem, id, v)[addr], k) == Bit(mem[addr], k)
  {
    hide Bit, FieldWritten;
    if Writable(regs, id) && addr == Cell(regs[id].addr, 0) {
      WrittenBit(mem[addr], regs[id], v, k);
    }
  }

  /** After a write, the register written reads the new value and every other its old one. */
  lemma WriteThenRead(regs: seq<Reg>, mem: Memory, i: nat, v: int, j: nat)
    requires WellFormed(regs) && j < |regs|
    ensures RegRead(regs, RegWritten(regs, mem, i, v), j) ==
            if i == j && Writable(regs, i) then Reduced(v, regs[j]) else RegRead(regs, mem, j)
  {
    hide FieldRead, FieldWritten, Reduced, Bit;
    if Writable(regs, i) {
      var r, s := regs[i], regs[j];
      var a := Cell(s.addr, 0);
      if i == j {
        ReadsBack(mem[a], r, v);
      } else if a == Cell(r.addr, 0) {
        assert Disjoint(r, s);
        forall k: nat | s.offs <= k < s.offs + s.leng
          ensures Bit(FieldWritten(mem[a], r, v), k) == Bit(mem[a], k)
        {
          WrittenBit(mem[a], r, v, k);
        }
        FieldReadDepends(FieldWritten(mem[a], r, v), mem[a], s);
      }
    }
  }

  /** The memory after writes of registers, given by number and value. */
  function Run(regs: seq<Reg>, mem: Memory, writes: seq<(nat, int)>): Memory
    decreases |writes|
  {
    if writes == [] then mem
    else
      var n := |writes| - 1;
      RegWritten(regs, Run(regs, mem, writes[..n]), writes[n].0, writes[n].1)
  }

  /** The value last written to a register, if any was. */
  function LastWrite(regs: seq<Reg>, writes: seq<(nat, int)>, id: nat): Option<int>
    decreases |writes|
  {
    if writes == [] then None
    else
      var n := |writes| - 1;
      if writes[n].0 == id && Writable(regs, id) then Some(writes[n].1) else LastWrite(regs, writes[..n], id)
  }

  /** After any writes, each register reads its last written value reduced to its width, or what it
      read before if none was accepted. */
  lemma {:induction false} ReadsLastWrite(regs: seq<Reg>, mem: Memory, writes: seq<(nat, int)>, id: nat)
    requires WellFormed(regs) && id < |regs|
    ensures RegRead(regs, Run(regs, mem, writes), id) ==
            match LastWrite(regs, writes, id)
            case Some(v) => Reduced(v, regs[id])
            case None => RegRead(regs, mem, id)
    decreases |writes|
  {
    hide RegRead, RegWritten, Reduced, WellFormed;
    if writes != [] {
      var n := |writes| - 1;
      ReadsLastWrite(regs, mem, writes[..n], id);
      WriteThenRead(regs, Run(regs, mem, writes[..n]), writes[n].0, writes[n].1, id);
    }
  }

  /** Bits that no written register owns never change. */
  lemma {:induction false} UnownedBitsStay(regs: seq<Reg>, mem: Memory, writes: seq<(nat, int)>, addr: nat, k: nat)
    requires WellFormed(regs) && addr < SPACE && k < 8
    requires forall i :: 0 <= i < |writes| && Writable(regs, writes[i].0) ==> !Owns(regs[writes[i].0], addr, k)
    ensures Bit(Run(regs, mem, writes)[addr], k) == Bit(mem[addr], k)
    decreases |writes|
  {
    hide Bit, RegWritten, Owns, WellFormed;
    if writes != [] {
      var n := |writes| - 1;
      UnownedBitsStay(regs, mem, writes[..n], addr, k);
      WriteOwnsBits(regs, Run(regs, mem, writes[..n]), writes[n].0, writes[n].1, addr, k);
    }
  }

  /** The bits of a read-only register never change, whatever is written. */
  lemma ReadOnlyBitsStay(regs: seq<Reg>, mem: Memory, writes: seq<(nat, int)>, id: nat, k: nat)
    requires WellFormed(regs) && id < |regs| && regs[id].readOnly
    requires regs[id].offs <= k < regs[id].offs + regs[id].leng
    ensures Bit(Run(regs, mem, writes)[regs[id].addr % 0x8000], k) == Bit(mem[regs[id].addr % 0x8000], k)
  {
    hide Bit, Run;
    forall i | 0 <= i < |writes| && Writable(regs, writes[i].0)
      ensures !Owns(regs[writes[i].0], regs[id].addr % 0x8000, k)
    {
      assert Disjoint(regs[writes[i].0], regs[id]);
    }
    UnownedBitsStay(regs, mem, writes, regs[id].addr % 0x8000, k);
  }

  // ---------- The class ----------

  class RegisterFile {
    const chip: Device
    const regs: seq<Reg>

    constructor (chip: Device, regs: seq<Reg>)
      ensures this.chip == chip && this.regs == regs
    {
      this.chip, this.regs := chip, regs;
    }

    /** `lgw_reg_w` */
    method Write(id: uint16, v: int) returns (ok: bool)
      modifies chip
      ensures ok <==> id < |regs| && !regs[id].readOnly && regs[id].offs + regs[id].leng <= 8
      ensures chip.mem == RegWritten(regs, old(chip.mem), id, v) && chip.fifo == old(chip.fifo)
    {
      if id >= |regs| {
        return false;
      }
      var r := regs[id];
      if r.readOnly {
        return false;
      }
      if r.leng == 8 && r.offs == 0 {
        chip.Write(r.addr, v % 0x100);
      } else if r.offs + r.leng <= 8 {
        chip.ReadModifyWrite(r.addr, r.offs, r.leng, v % 0x100);
      } else {
        return false;
      }
      ok := true;
    }

    /** `lgw_reg_r` */
    method Read(id: uint16) returns (r: Option<int>)
      modifies chip`transactions
      ensures r == if id < |regs| && regs[id].offs + regs[id].leng <= 8 then Some(RegRead(regs, chip.mem, id))
                   else None
    {
      if id >= |regs| || regs[id].offs + regs[id].leng > 8 {
        return None;
      }
      var b := chip.Read(regs[id].addr);
      r := Some(FieldRead(b, regs[id]));
    }
  }
}
