/** The time on air of a LoRa packet, by the formula of section 6.1.4 of the Semtech SX1261/2
    datasheet. All symbol counts are multiples of a quarter, so they are counted in quarters.
 */
module TimeOnAir {
  import opened Bits
  import opened Lora

  /** The fields of `struct lgw_pkt_tx_s` that the time on air of a LoRa packet depends on. */
  datatype TxPacket = TxPacket(freqHz: uint32, bandwidth: byte, datarate: uint32, coderate: byte,
                               preamble: uint16, noHeader: bool, noCrc: bool, size: uint16)

  predicate Valid(p: TxPacket) {
    IsBandwidth(p.bandwidth) && IsDatarate(p.datarate % 0x100) && IsCoderate(p.coderate)
  }

  /** `t_symbol_us`: 2^sf / bandwidth, in microseconds */
  function SymbolUs(bw: int, sf: int): nat
    requires IsBandwidth(bw) && IsDatarate(sf)
  {
    Chips(sf) * 8 / BwPow(bw)
  }

  function AtLeastZero(x: int): nat {
    if x < 0 then 0 else x
  }

  /** The bits to send beyond what the first symbols of the payload carry. */
  function PayloadBits(sf: int, noHeader: bool, noCrc: bool, size: byte): nat {
    AtLeastZero(8 * size + 16 * FromBool(!noCrc) - 4 * sf + 8 * FromBool(sf >= 7) + 20 * FromBool(!noHeader))
  }

  /** The bits per coding block; `de` is the low data rate optimisation. */
  function BlockBits(sf: int, de: bool): int {
    4 * (sf - 2 * FromBool(de))
  }

  function PayloadSymbols(sf: int, de: bool, cr: int, noHeader: bool, noCrc: bool, size: byte): nat
    requires IsDatarate(sf) && IsCoderate(cr)
  {
    CeilDiv(PayloadBits(sf, noHeader, noCrc, size), BlockBits(sf, de)) * (cr + 4)
  }

  /** The symbols of the packet, in quarters: preamble, synchronisation, header and payload. */
  function QuarterSymbols(preamble: nat, sf: int, payloadSymbols: nat): nat {
    4 * preamble + (if sf >= 7 then 17 else 25) + 32 + 4 * payloadSymbols
  }

  function Duration(quarters: nat, symbolUs: nat): nat {
    quarters * symbolUs / 4
  }

  /** The symbols of a packet, in quarters, when the low data rate optimisation is `de`. */
  function PacketQuarters(p: TxPacket, de: bool): nat
    requires Valid(p)
  {
    var sf := p.datarate % 0x100;
    QuarterSymbols(p.preamble, sf, PayloadSymbols(sf, de, p.coderate, p.noHeader, p.noCrc, p.size % 0x100))
  }

  /** The time on air when the low data rate optimisation is `de`. */
  function AirTime(p: TxPacket, de: bool): nat
    requires Valid(p)
  {
    Duration(PacketQuarters(p, de), SymbolUs(p.bandwidth, p.datarate % 0x100))
  }

  /** `lora_packet_time_on_air`, as `lgw_time_on_air` calls it: the datarate and size parameters are
      8 bits wide, and the optimisation is taken to be on from spreading factor 11. */
  function ToaUs(p: TxPacket): nat {
    if Valid(p) then AirTime(p, p.datarate % 0x100 >= 11) else 0
  }

  /** `lgw_time_on_air` of a LoRa packet: milliseconds, rounded to the nearest. */
  function ToaMs(p: TxPacket): nat {
    (ToaUs(p) + 500) / 1000
  }

  /** A CRC costs what two more bytes do. */
  lemma CrcCostsTwoBytes(sf: int, noHeader: bool, size: byte)
    requires size <= 253
    ensures PayloadBits(sf, noHeader, false, size) == PayloadBits(sf, noHeader, true, size + 2)
  {
  }

  // ---------- The formula of the datasheet ----------

  /** The least whole number that is not below `x`. */
  function Ceil(x: real): int {
    -(-x).Floor
  }

  /** The number of symbols as section 6.1.4 gives it, over the reals. */
  function DatasheetSymbols(sf: int, cr: int, preamble: nat, header: bool, crc: bool, size: nat): real
    requires 5 <= sf <= 12
  {
    var bits := 8 * size + (if crc then 16 else 0) - 4 * sf + (if sf >= 7 then 8 else 0) + (if header then 20 else 0);
    var perBlock := 4 * (sf - (if sf >= 11 then 2 else 0));
    var blocks := Ceil((if bits > 0 then bits as real else 0.0) / perBlock as real);
    preamble as real + (if sf >= 7 then 4.25 else 6.25) + 8.0 + (blocks * (cr + 4)) as real
  }

  /** Each symbol takes 2^sf / bandwidth seconds. */
  function DatasheetUs(symbols: real, chips: nat, bwHz: nat): real
    requires bwHz > 0
  {
    symbols * chips as real / bwHz as real * 1_000_000.0
  }

  lemma CastProduct(a: nat, b: nat)
    ensures (a * b) as real == a as real * b as real
  {
  }

  lemma CeilIs(r: real, q: int)
    requires q as real - 1.0 < r <= q as real
    ensures Ceil(r) == q
  {
  }

  lemma CeilIsCeilDiv(x: nat, d: nat)
    requires d > 0
    ensures Ceil(x as real / d as real) == CeilDiv(x, d)
  {
    hide CeilDiv, Ceil;
    var q := CeilDiv(x, d);
    CeilDivIsLeast(x, d, q);
    CastProduct(q, d);
    RatioIff(x as real, d as real, q as real);
    if q > 0 {
      CeilDivIsLeast(x, d, q - 1);
      CastProduct(q - 1, d);
      RatioIff(x as real, d as real, (q - 1) as real);
    } else {
      RatioIff(x as real, d as real, 0.0);
    }
    CeilIs(x as real / d as real, q);
  }

  lemma SymbolsAreQuarters(p: TxPacket)
    requires Valid(p)
    ensures DatasheetSymbols(p.datarate % 0x100, p.coderate, p.preamble, !p.noHeader, !p.noCrc, p.size % 0x100) ==
            PacketQuarters(p, p.datarate % 0x100 >= 11) as real / 4.0
  {
    var sf := p.datarate % 0x100;
    CeilIsCeilDiv(PayloadBits(sf, p.noHeader, p.noCrc, p.size % 0x100), BlockBits(sf, sf >= 11));
    hide Ceil, CeilDiv;
  }

  /** The formula of the code is that of the datasheet, and loses nothing to rounding. */
  lemma ToaIsDatasheet(p: TxPacket)
    requires p.bandwidth in {4, 5, 6} && 5 <= p.datarate % 0x100 <= 12 && 1 <= p.coderate <= 4
    ensures var sf := p.datarate % 0x100;
      var bwHz := if p.bandwidth == 4 then 125_000 else if p.bandwidth == 5 then 250_000 else 500_000;
      ToaUs(p) as real ==
      DatasheetUs(DatasheetSymbols(sf, p.coderate, p.preamble, !p.noHeader, !p.noCrc, p.size % 0x100), Pow2(sf), bwHz)
  {
    var sf := p.datarate % 0x100;
    SymbolsAreQuarters(p);
    ChipsArePowers(sf);
    ToaIsExact(p, sf >= 11);
    hide AirTime, PacketQuarters, DatasheetSymbols, Pow2, Chips;
    var bwHz: nat := if p.bandwidth == 4 then 125_000 else if p.bandwidth == 5 then 250_000 else 500_000;
    assert AirTime(p, sf >= 11) * 4 * bwHz == AirTime(p, sf >= 11) * 4 * BwPow(p.bandwidth) * 125_000;
    QuartersToReal(AirTime(p, sf >= 11), PacketQuarters(p, sf >= 11), Chips(sf), bwHz);
  }

  lemma QuartersToReal(t: nat, n: nat, c: nat, bwHz: nat)
    requires bwHz > 0 && t * 4 * bwHz == n * c * 1_000_000
    ensures t as real == DatasheetUs(n as real / 4.0, c, bwHz)
  {
    var b := bwHz as real;
    CastProduct(t * 4, bwHz);
    CastProduct(n, c);
    assert t as real * 4.0 * b == n as real * c as real * 1_000_000.0;
    var x := n as real / 4.0 * c as real;
    assert x * 1_000_000.0 == t as real * b;
    assert x / b * b == x;
    SameFactor(x / b * 1_000_000.0, t as real, b);
  }

  lemma SameFactor(x: real, y: real, b: real)
    requires b > 0.0 && x * b == y * b
    ensures x == y
  {
    assert (x - y) * b == 0.0;
  }

  /** 20 bytes with header and CRC at 125 kHz and spreading factor 7 take 56.576 ms. */
  lemma ToaAtSf7()
    ensures ToaUs(TxPacket(868_000_000, 4, 7, 1, 8, false, false, 20)) == 56_576
  {
    var p := TxPacket(868_000_000, 4, 7, 1, 8, false, false, 20);
    assert PayloadBits(7, false, false, 20) == 176;
    assert CeilDiv(176, 28) == 7;
    assert PacketQuarters(p, false) == 221;
  }

  /** At spreading factor 12 they take 1.318912 s. */
  lemma ToaAtSf12()
    ensures ToaUs(TxPacket(868_000_000, 4, 12, 1, 8, false, false, 20)) == 1_318_912
  {
    var p := TxPacket(868_000_000, 4, 12, 1, 8, false, false, 20);
    assert PayloadBits(12, false, false, 20) == 156;
    assert CeilDiv(156, 40) == 4;
    assert PacketQuarters(p, true) == 161;
  }

  /** The payload takes the fewest coding blocks that carry all its bits, of `cr + 4` symbols each. */
  lemma PayloadBlocksAreLeast(sf: int, de: bool, cr: int, noHeader: bool, noCrc: bool, size: byte, blocks: nat)
    requires IsDatarate(sf) && IsCoderate(cr)
    ensures PayloadSymbols(sf, de, cr, noHeader, noCrc, size) <= blocks * (cr + 4) <==>
            PayloadBits(sf, noHeader, noCrc, size) <= blocks * BlockBits(sf, de)
  {
    hide PayloadBits, CeilDiv;
    var n := CeilDiv(PayloadBits(sf, noHeader, noCrc, size), BlockBits(sf, de));
    CeilDivIsLeast(PayloadBits(sf, noHeader, noCrc, size), BlockBits(sf, de), blocks);
    if n <= blocks {
      ProductMonotone(n, blocks, cr + 4, cr + 4);
    } else {
      ProductMonotone(blocks + 1, n, cr + 4, cr + 4);
    }
  }

  lemma SymbolUsIsExact(bw: int, sf: int)
    requires IsBandwidth(bw) && IsDatarate(sf)
    ensures SymbolUs(bw, sf) * BwPow(bw) == Chips(sf) * 8
    ensures SymbolUs(bw, sf) % 4 == 0 && 64 <= SymbolUs(bw, sf) <= 32_768
  {
  }

  /** No division rounds: the time on air is the exact number of symbols times the exact symbol
      time, 2^sf / (125 kHz * bwPow). */
  lemma ToaIsExact(p: TxPacket, de: bool)
    requires Valid(p)
    ensures AirTime(p, de) * 4 * BwPow(p.bandwidth) * 125_000 ==
            PacketQuarters(p, de) * Chips(p.datarate % 0x100) * 1_000_000
  {
    var sf := p.datarate % 0x100;
    hide SymbolUs, PacketQuarters, Chips, BwPow;
    var n, t := PacketQuarters(p, de), SymbolUs(p.bandwidth, sf);
    SymbolUsIsExact(p.bandwidth, sf);
    QuarterProduct(n, t);
    Scaled(n, t, BwPow(p.bandwidth), Chips(sf));
  }

  lemma QuarterProduct(n: nat, t: nat)
    requires t % 4 == 0
    ensures Duration(n, t) * 4 == n * t
  {
    assert n * t == 4 * (n * (t / 4));
  }

  lemma Scaled(n: nat, t: nat, bw: nat, chips: nat)
    requires t * bw == chips * 8
    ensures n * t * bw * 125_000 == n * chips * 1_000_000
  {
    assert n * t * bw == n * (t * bw);
    assert n * (chips * 8) == 8 * (n * chips);
  }

  // ---------- Monotonicity ----------

  lemma PayloadSymbolsMonotone(sf: int, de: bool, cr: int, cr': int, noHeader: bool, noCrc: bool,
                               size: byte, size': byte)
    requires IsDatarate(sf) && IsCoderate(cr) && IsCoderate(cr') && cr <= cr' && size <= size'
    ensures PayloadSymbols(sf, de, cr, noHeader, noCrc, size) <= PayloadSymbols(sf, de, cr', noHeader, noCrc, size')
  {
    var d := BlockBits(sf, de);
    var bits, bits' := PayloadBits(sf, noHeader, noCrc, size), PayloadBits(sf, noHeader, noCrc, size');
    CeilDivIsLeast(bits, d, CeilDiv(bits', d));
    CeilDivIsLeast(bits', d, CeilDiv(bits', d));
    ProductMonotone(CeilDiv(bits, d), CeilDiv(bits', d), cr + 4, cr' + 4);
  }

  /** `q` is `p` with no smaller payload, coding rate and preamble. */
  predicate NoShorter(p: TxPacket, q: TxPacket) {
    && q == p.(preamble := q.preamble, coderate := q.coderate, size := q.size)
    && p.preamble <= q.preamble && p.coderate <= q.coderate && p.size <= q.size < 0x100
  }

  /** More payload, redundancy or preamble never takes less time. */
  lemma ToaMonotone(p: TxPacket, q: TxPacket)
    requires Valid(p) && Valid(q) && NoShorter(p, q)
    ensures ToaUs(p) <= ToaUs(q)
    ensures p.preamble < q.preamble ==> ToaUs(p) < ToaUs(q)
  {
    hide PayloadSymbols, SymbolUs;
    var sf, de := p.datarate % 0x100, p.datarate % 0x100 >= 11;
    PayloadSymbolsMonotone(sf, de, p.coderate, q.coderate, p.noHeader, p.noCrc, p.size, q.size);
    var n, m, t := PacketQuarters(p, de), PacketQuarters(q, de), SymbolUs(p.bandwidth, sf);
    SymbolUsIsExact(p.bandwidth, sf);
    QuarterProduct(n, t);
    QuarterProduct(m, t);
    MoreTime(n, m, t);
  }

  lemma MoreTime(n: nat, m: nat, t: nat)
    requires n <= m && t > 0
    ensures n * t <= m * t && (n < m ==> n * t < m * t)
  {
    assert m * t - n * t == (m - n) * t;
  }

  lemma FewerBitsPerBlock(bits: nat, d: nat, e: nat)
    requires 0 < d <= e
    ensures CeilDiv(bits, e) <= CeilDiv(bits, d)
  {
    var q := CeilDiv(bits, d);
    CeilDivIsLeast(bits, d, q);
    ProductMonotone(q, q, d, e);
    CeilDivIsLeast(bits, e, q);
  }

  /** The optimisation that the modem is set up with depends on the bandwidth too, so the formula may
      count blocks that are shorter than those sent. It never comes out below the time on air that
      the modem's own setting gives. */
  lemma ToaCoversModem(p: TxPacket)
    requires Valid(p)
    ensures AirTime(p, PpmOn(p.bandwidth, p.datarate % 0x100)) <= ToaUs(p)
  {
    hide SymbolUs, PayloadBits, CeilDiv;
    var sf := p.datarate % 0x100;
    var used, sent := sf >= 11, PpmOn(p.bandwidth, sf);
    var bits := PayloadBits(sf, p.noHeader, p.noCrc, p.size % 0x100);
    FewerBitsPerBlock(bits, BlockBits(sf, used), BlockBits(sf, sent));
    var cr := p.coderate + 4;
    ProductMonotone(CeilDiv(bits, BlockBits(sf, sent)), CeilDiv(bits, BlockBits(sf, used)), cr, cr);
    var n, m, t := PacketQuarters(p, sent), PacketQuarters(p, used), SymbolUs(p.bandwidth, sf);
    ProductMonotone(n, m, t, t);
    DivMonotone(n * t, m * t, 4);
  }

  // ---------- Machine words ----------

  lemma PayloadSymbolsBound(sf: int, de: bool, cr: int, noHeader: bool, noCrc: bool, size: byte)
    requires IsDatarate(sf) && IsCoderate(cr) && (de ==> sf >= 7)
    ensures PayloadSymbols(sf, de, cr, noHeader, noCrc, size) <= 1000
  {
    var d := BlockBits(sf, de);
    var bits := PayloadBits(sf, noHeader, noCrc, size);
    CeilDivIsLeast(bits, d, 125);
    ProductMonotone(CeilDiv(bits, d), 125, cr + 4, 8);
  }

  /** No step overflows 32 bits, nor does the conversion to milliseconds and back. */
  lemma ToaFits(p: TxPacket)
    ensures ToaUs(p) + 500 < 0x1_0000_0000 && ToaMs(p) * 1000 < 0x1_0000_0000
  {
    if Valid(p) {
      hide PayloadSymbols, SymbolUs;
      var sf := p.datarate % 0x100;
      PayloadSymbolsBound(sf, sf >= 11, p.coderate, p.noHeader, p.noCrc, p.size % 0x100);
      SymbolUsIsExact(p.bandwidth, sf);
      ProductMonotone(PacketQuarters(p, sf >= 11), 270_000, SymbolUs(p.bandwidth, sf), 32_768);
    }
  }
}
