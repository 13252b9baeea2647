/** The serial EEPROM behind the EECD register: the driver raises and lowers pins, and the chip
    on the other side is an automaton that sees nothing but their edges. */
module SpiEeprom {
  import opened Bits

  const WRITE_OPCODE: Byte := 0x02
  const READ_OPCODE: Byte := 0x03
  const RDSR_OPCODE: Byte := 0x05
  const WREN_OPCODE: Byte := 0x06
  /** Bit 3 of an opcode is address bit 8 on chips with one address byte. */
  const A8_OPCODE: Byte := 0x08
  const OPCODE_BITS := 8
  const MAX_RETRY := 5000
  /** A look at the status register takes sixteen clock pulses and sees the chip as it is after fifteen.
      Of a chip busy for this many pulses the last look sees that it is done. */
  const READY_LIMIT := 16 * (MAX_RETRY / 5) - 1
  const GRANT_ATTEMPTS := 1000

  // ----- The chip -----

  /** An EEPROM with two address bytes and pages of 32 bytes, or one and pages of 8. `wel` is its
      write enable latch, `busy` an unfinished write. */
  datatype Chip = Chip(wide: bool, mem: seq<Byte>, wel: bool, busy: bool) {
    function AddressBits(): nat { if wide then 16 else 8 }

    function Page(): nat { if wide then 32 else 8 }

    predicate Ok() { Whole(wide, |mem|) }

    /** Does opcode `op` ask for `wanted`? */
    predicate Asks(op: nat, wanted: Byte) { op == wanted || (!wide && op == wanted + A8_OPCODE) }

    function Address(op: nat, low: nat): nat { low + if !wide && op >= A8_OPCODE then 0x100 else 0 }

    /** The bit the chip drives once it has taken in `bits`. */
    predicate OutBit(bits: seq<bool>)
      requires Ok()
    {
      var a, op := OPCODE_BITS + AddressBits(), Opcode(bits);
      if op == RDSR_OPCODE && |bits| >= OPCODE_BITS then
        var k := (|bits| - OPCODE_BITS) % 8;
        (k == 6 && wel) || (k == 7 && busy)
      else if Asks(op, READ_OPCODE) && |bits| >= a && !busy then
        var k := |bits| - a;
        Low(mem[(Address(op, Value(bits[OPCODE_BITS..a])) + k / 8) % |mem|], 8)[k % 8]
      else false
    }

    /** What deselecting the chip makes of the bits it has taken in. */
    function Execute(bits: seq<bool>): Chip
      requires Ok()
    {
      var a, op := OPCODE_BITS + AddressBits(), Opcode(bits);
      if busy then this
      else if op == WREN_OPCODE && |bits| == OPCODE_BITS then this.(wel := true)
      else if Asks(op, WRITE_OPCODE) && wel && |bits| > a && (|bits| - a) % 8 == 0 then
        var address := Address(op, Value(bits[OPCODE_BITS..a])) % |mem|;
        this.(mem := PageWrite(wide, mem, address, Bytes(bits[a..])), wel := false, busy := true)
      else this
    }
  }

  function Opcode(bits: seq<bool>): nat { if |bits| < OPCODE_BITS then 0 else Value(bits[..OPCODE_BITS]) }

  /** A memory of whole pages, none beyond what its addresses reach */
  predicate Whole(wide: bool, size: nat) {
    0 < size && if wide then size <= 0x1_0000 && size % 32 == 0 else size <= 0x200 && size % 8 == 0
  }

  function Bytes(bits: seq<bool>): (bytes: seq<Byte>) {
    if |bits| < 8 then [] else
      var k := |bits| - 8;
      LowValue(bits[k..]);
      PowValues();
      Bytes(bits[..k]) + [Value(bits[k..])]
  }

  /** The address `k` places after `a`, wrapping within the page of `a` */
  function InPage(wide: bool, a: nat, k: nat): nat {
    if wide then a - a % 32 + (a % 32 + k) % 32 else a - a % 8 + (a % 8 + k) % 8
  }

  lemma EvenSize(wide: bool, size: nat)
    requires Whole(wide, size)
    ensures size == 2 * (size / 2)
  {
  }

  lemma StaysInPage(wide: bool, size: nat, a: nat, k: nat)
    requires Whole(wide, size) && a < size
    ensures InPage(wide, a, k) < size
    ensures a % (if wide then 32 else 8) + k < (if wide then 32 else 8) ==> InPage(wide, a, k) == a + k
  {
  }

  function PageWrite(wide: bool, mem: seq<Byte>, a: nat, bytes: seq<Byte>): (r: seq<Byte>)
    requires Whole(wide, |mem|) && a < |mem|
    ensures |r| == |mem|
  {
    if bytes == [] then mem else
      var k := |bytes| - 1;
      StaysInPage(wide, |mem|, a, k);
      PageWrite(wide, mem, a, bytes[..k])[InPage(wide, a, k) := bytes[k]]
  }

  function Zeros(n: nat): (bits: seq<bool>) { seq(n, _ => false) }

  // ----- Words -----

  /** Word `w` of the memory, low byte first. */
  function WordAt(mem: seq<Byte>, w: nat): Word
    requires 2 * w + 1 < |mem|
  {
    var lo: int, hi: int := mem[2 * w], mem[2 * w + 1];
    lo + 0x100 * hi
  }

  /** Where the driver's write puts word `i` of a range that starts at word `offset`: address bit
      8 is taken from `offset` alone. */
  function Target(wide: bool, offset: nat, i: nat): nat {
    if wide then offset + i else (if offset >= 0x80 then 0x80 else 0) + (offset + i) % 0x80
  }

  /** The memory after the first `n` words of `data` have been written at `offset`. */
  function Put(wide: bool, mem: seq<Byte>, offset: nat, data: seq<Word>, n: nat): (r: seq<Byte>)
    requires n <= |data| && 2 * (offset + n) <= |mem| <= if wide then 0x1_0000 else 0x200
    ensures |r| == |mem|
  {
    if n == 0 then mem else
      var t, w := 2 * Target(wide, offset, n - 1), data[n - 1];
      Put(wide, mem, offset, data, n - 1)[t := w % 0x100][t + 1 := w / 0x100]
  }

  /** Writing stores the words where they belong unless, with one address byte, the range starts
      below word 128 and ends above it. */
  predicate Straddles(wide: bool, offset: nat, n: nat) { !wide && offset < 0x80 < offset + n }

  // ----- Facts about the chip's commands -----

  lemma Command(op: Byte, rest: seq<bool>)
    ensures Opcode(Low(op, 8) + rest) == op
  {
    ValueLow(op, 8);
    PowValues();
    assert (Low(op, 8) + rest)[..8] == Low(op, 8);
  }

  lemma Addressed(chip: Chip, op: Byte, address: nat, rest: seq<bool>)
    ensures var bits := Low(op, 8) + Low(address, chip.AddressBits()) + rest; var a := 8 + chip.AddressBits();
            && |bits| == a + |rest| && Opcode(bits) == op && bits[a..] == rest
            && Value(bits[8..a]) == address % (if chip.wide then 0x1_0000 else 0x100)
  {
    var n := chip.AddressBits();
    var bits := Low(op, 8) + Low(address, n) + rest;
    assert bits == Low(op, 8) + (Low(address, n) + rest);
    Command(op, Low(address, n) + rest);
    assert bits[8..8 + n] == Low(address, n);
    ValueLow(address, n);
    PowValues();
  }

  lemma OneByte(bits: seq<bool>, b: Byte)
    ensures Bytes(bits + Low(b, 8)) == Bytes(bits) + [b]
  {
    hide Low, Value;
    var all := bits + Low(b, 8);
    ValueLow(b, 8);
    PowValues();
    assert all[..|bits|] == bits && all[|bits|..] == Low(b, 8);
  }

  lemma SwapLow(lo: Byte, hi: Byte)
    ensures Low(0x100 * (lo as int) + hi, 16) == Low(lo, 8) + Low(hi, 8)
  {
    PowValues();
    LowJoin(lo, hi, 8, 8);
  }

  /** Two bytes more on the line, for a word with its bytes exchanged. */
  lemma WordBytes(bits: seq<bool>, w: Word)
    ensures Bytes(bits + Low(Swap(w), 16)) == Bytes(bits) + [w % 0x100, w / 0x100]
  {
    hide Bytes, Low;
    var lo: Byte, hi: Byte := w % 0x100, w / 0x100;
    SwapLow(lo, hi);
    OneByte(bits, lo);
    OneByte(bits + Low(lo, 8), hi);
    assert bits + (Low(lo, 8) + Low(hi, 8)) == bits + Low(lo, 8) + Low(hi, 8);
  }

  lemma PageWriteTwo(wide: bool, mem: seq<Byte>, a: nat, bytes: seq<Byte>, lo: Byte, hi: Byte)
    requires Whole(wide, |mem|) && a < |mem| && a % (if wide then 32 else 8) + |bytes| + 1 < (if wide then 32 else 8)
    ensures a + |bytes| + 1 < |mem|
    ensures PageWrite(wide, mem, a, bytes + [lo, hi])
            == PageWrite(wide, mem, a, bytes)[a + |bytes| := lo][a + |bytes| + 1 := hi]
  {
    hide InPage;
    var k := |bytes|;
    assert (bytes + [lo, hi])[..k + 1] == bytes + [lo];
    assert (bytes + [lo])[..k] == bytes;
    StaysInPage(wide, |mem|, a, k);
    StaysInPage(wide, |mem|, a, k + 1);
  }

  /** The opcode the driver sends for a range that starts at word `offset` */
  function OpcodeFor(wide: bool, op: Byte, offset: nat): Byte
    requires op <= 3
  {
    if !wide && offset >= 0x80 then op + A8_OPCODE else op
  }

  /** The bits that open a command on word `w` of a range that starts at `offset`. */
  function Opening(chip: Chip, op: Byte, offset: nat, w: nat): seq<bool>
    requires op <= 3
  {
    Low(OpcodeFor(chip.wide, op, offset), 8) + Low(2 * (offset + w), chip.AddressBits())
  }

  lemma Twice(x: nat)
    ensures 2 * x % 0x100 == 2 * (x % 0x80) && 2 * x % 32 == 2 * (x % 16) && 2 * x % 8 == 2 * (x % 4)
  {
  }

  lemma AddressOf(chip: Chip, op: Byte, offset: nat, w: nat)
    requires op <= 3 && chip.Ok() && 2 * (offset + w) < |chip.mem|
    ensures var low := 2 * (offset + w) % (if chip.wide then 0x1_0000 else 0x100);
            chip.Address(OpcodeFor(chip.wide, op, offset), low) == 2 * Target(chip.wide, offset, w)
  {
    Twice(offset + w);
  }

  lemma Opened(chip: Chip, op: Byte, offset: nat, w: nat, rest: seq<bool>)
    requires op <= 3 && chip.Ok() && 2 * (offset + w) < |chip.mem|
    ensures var bits := Opening(chip, op, offset, w) + rest; var a := 8 + chip.AddressBits();
            && |bits| == a + |rest| && Opcode(bits) == OpcodeFor(chip.wide, op, offset) && bits[a..] == rest
            && chip.Address(Opcode(bits), Value(bits[8..a])) == 2 * Target(chip.wide, offset, w)
  {
    Addressed(chip, OpcodeFor(chip.wide, op, offset), 2 * (offset + w), rest);
    AddressOf(chip, op, offset, w);
    hide Target, Value, Low;
  }

  lemma InMemory(wide: bool, size: nat, offset: nat, w: nat)
    requires Whole(wide, size) && 2 * (offset + w) < size
    ensures 2 * Target(wide, offset, w) + 1 < size
  {
  }

  lemma WriteObeyed(chip: Chip, offset: nat, w: nat, db: seq<bool>, n: nat)
    requires chip.Ok() && chip.wel && !chip.busy && 2 * (offset + w) < |chip.mem| && |db| == 8 * n && n > 0
    ensures 2 * Target(chip.wide, offset, w) < |chip.mem|
    ensures chip.Execute(Opening(chip, WRITE_OPCODE, offset, w) + db)
            == chip.(mem := PageWrite(chip.wide, chip.mem, 2 * Target(chip.wide, offset, w), Bytes(db)),
                     wel := false, busy := true)
  {
    hide Target, PageWrite, Bytes, Opening;
    InMemory(chip.wide, |chip.mem|, offset, w);
    Opened(chip, WRITE_OPCODE, offset, w, db);
    Quotient(2 * Target(chip.wide, offset, w), |chip.mem|, 0, 2 * Target(chip.wide, offset, w));
    ghost var bits := Opening(chip, WRITE_OPCODE, offset, w) + db;
    var a := 8 + chip.AddressBits();
    assert (|bits| - a) % 8 == 0;
    assert chip.Asks(Opcode(bits), WRITE_OPCODE) && Opcode(bits) != WREN_OPCODE;
  }

  lemma Shift(x: nat, k: nat, p: nat)
    requires p in {4, 16, 128} && x % p + k <= p
    ensures (x + k) % p == if x % p + k == p then 0 else x % p + k
  {
    Quotient(x + k, p, if x % p + k == p then x / p + 1 else x / p, if x % p + k == p then 0 else x % p + k);
  }

  lemma Parts(x: nat)
    ensures x % 128 % 4 == x % 4 && x % 128 <= 124 + x % 4
  {
  }

  function WordsPerPage(wide: bool): nat { if wide then 16 else 4 }

  /** Words of the same page have targets in a row, and the driver sees the page's end. */
  lemma SamePage(wide: bool, offset: nat, w: nat, k: nat)
    requires Target(wide, offset, w) % WordsPerPage(wide) + k < WordsPerPage(wide)
    ensures Target(wide, offset, w + k) == Target(wide, offset, w) + k
    ensures ((offset + w + k + 1) % WordsPerPage(wide) == 0)
            == (Target(wide, offset, w) % WordsPerPage(wide) + k + 1 == WordsPerPage(wide))
  {
    var x, p := offset + w, WordsPerPage(wide);
    Parts(x);
    assert Target(wide, offset, w) % p == x % p;
    if !wide { Shift(x, k, 128); }
    Shift(x, k + 1, p);
  }

  /** One more word of a page write is one more word of what the driver means to write. */
  lemma OneMore(wide: bool, mem: seq<Byte>, m: seq<Byte>, offset: nat, data: seq<Word>, w: nat, k: nat,
                bytes: seq<Byte>)
    requires Whole(wide, |mem|) && |m| == |mem| && w + k < |data| && 2 * (offset + |data|) <= |mem|
    requires Target(wide, offset, w) % WordsPerPage(wide) + k < WordsPerPage(wide) && |bytes| == 2 * k
    requires 2 * Target(wide, offset, w) < |mem|
    requires PageWrite(wide, mem, 2 * Target(wide, offset, w), bytes) == Put(wide, m, offset, data, w + k)
    ensures PageWrite(wide, mem, 2 * Target(wide, offset, w), bytes + [data[w + k] % 0x100, data[w + k] / 0x100])
            == Put(wide, m, offset, data, w + k + 1)
  {
    var a, t: nat := 2 * Target(wide, offset, w), Target(wide, offset, w);
    SamePage(wide, offset, w, k);
    Twice(t);
    hide Target, InPage;
    PageWriteTwo(wide, mem, a, bytes, data[w + k] % 0x100, data[w + k] / 0x100);
  }

  /** Part way through a page write that opened with word `w`: `k` words are on the line, as the
      bits `db`, and would be written where the driver means them to go. */
  ghost predicate OnLine(wide: bool, mem: seq<Byte>, m: seq<Byte>, offset: nat, data: seq<Word>, w: nat, k: nat,
                         db: seq<bool>)
    requires Whole(wide, |mem|)
  {
    && |db| == 16 * k && |m| == |mem| && 2 * (offset + |data|) <= |m| && w + k <= |data|
    && 2 * Target(wide, offset, w) < |m| && |Bytes(db)| == 2 * k
    && PageWrite(wide, mem, 2 * Target(wide, offset, w), Bytes(db)) == Put(wide, m, offset, data, w + k)
  }

  predicate PageFull(wide: bool, offset: nat, w: nat, k: nat) {
    Target(wide, offset, w) % WordsPerPage(wide) + k >= WordsPerPage(wide)
  }

  lemma NextOnLine(wide: bool, mem: seq<Byte>, m: seq<Byte>, offset: nat, data: seq<Word>, w: nat, k: nat,
                   db: seq<bool>)
    requires Whole(wide, |mem|) && OnLine(wide, mem, m, offset, data, w, k, db) && w + k < |data|
    requires !PageFull(wide, offset, w, k)
    ensures OnLine(wide, mem, m, offset, data, w, k + 1, db + Low(Swap(data[w + k]), 16))
  {
    WordBytes(db, data[w + k]);
    OneMore(wide, mem, m, offset, data, w, k, Bytes(db));
    hide Target, PageWrite, Put, Bytes, Low, Swap, Whole;
  }

  lemma PageEnds(wide: bool, offset: nat, w: nat, k: nat)
    requires !PageFull(wide, offset, w, k)
    ensures PageFull(wide, offset, w, k + 1) == ((offset + w + k + 1) * 2 % (if wide then 32 else 8) == 0)
  {
    SamePage(wide, offset, w, k);
    Twice(offset + w + k + 1);
  }

  lemma Obeyed(chip: Chip, m: seq<Byte>, offset: nat, data: seq<Word>, w: nat, k: nat, db: seq<bool>)
    requires chip.Ok() && chip.wel && !chip.busy && k > 0 && OnLine(chip.wide, chip.mem, m, offset, data, w, k, db)
    ensures chip.Execute(Opening(chip, WRITE_OPCODE, offset, w) + db).mem == Put(chip.wide, m, offset, data, w + k)
    ensures chip.Execute(Opening(chip, WRITE_OPCODE, offset, w) + db).wide == chip.wide
    ensures chip.Execute(Opening(chip, WRITE_OPCODE, offset, w) + db).busy
  {
    hide Target, PageWrite, Put, Bytes, Opening;
    WriteObeyed(chip, offset, w, db, 2 * k);
  }

  lemma NothingToObey(chip: Chip)
    requires chip.Ok()
    ensures chip.Execute([]) == chip
  {
  }

  lemma ExecuteKeeps(chip: Chip, bits: seq<bool>)
    requires chip.Ok()
    ensures chip.Execute(bits).Ok() && chip.Execute(bits).wide == chip.wide
  {
  }

  lemma OpeningOnly(chip: Chip, offset: nat, w: nat, data: seq<Word>, m: seq<Byte>)
    requires chip.Ok() && |m| == |chip.mem| && 2 * (offset + |data|) <= |m| && w < |data|
    requires chip.mem == Put(chip.wide, m, offset, data, w)
    ensures OnLine(chip.wide, chip.mem, m, offset, data, w, 0, []) && !PageFull(chip.wide, offset, w, 0)
    ensures Opening(chip, WRITE_OPCODE, offset, w) + [] == Opening(chip, WRITE_OPCODE, offset, w)
  {
    InMemory(chip.wide, |chip.mem|, offset, w);
  }

  /** What a chip that has been asked for word `offset` drives after `16 * i + k` more bits. */
  lemma ReadBit(chip: Chip, offset: nat, i: nat, k: nat)
    requires chip.Ok() && !chip.busy && 2 * (offset + i) + 1 < |chip.mem| && k < 16
    ensures chip.OutBit(Opening(chip, READ_OPCODE, offset, 0) + Zeros(16 * i + k))
            == Low(chip.mem[2 * (offset + i) + k / 8], 8)[k % 8]
  {
    hide Opening, Target, Whole, Low, Value;
    Opened(chip, READ_OPCODE, offset, 0, Zeros(16 * i + k));
    StartTarget(chip.wide, |chip.mem|, offset);
    var at, n := 2 * offset + (16 * i + k) / 8, 16 * i + k;
    assert n / 8 == 2 * i + k / 8 && n % 8 == k % 8;
    Quotient(at, |chip.mem|, 0, at);
  }

  lemma ReadLeaves(chip: Chip, offset: nat, rest: seq<bool>)
    requires chip.Ok() && 2 * offset < |chip.mem|
    ensures chip.Execute(Opening(chip, READ_OPCODE, offset, 0) + rest) == chip
  {
    hide Opening, Target, Whole, Low, Value;
    Opened(chip, READ_OPCODE, offset, 0, rest);
  }

  lemma StartTarget(wide: bool, size: nat, offset: nat)
    requires Whole(wide, size) && 2 * offset < size
    ensures Target(wide, offset, 0) == offset
  {
  }

  lemma ReadBack(lo: Byte, hi: Byte, outs: seq<bool>)
    requires |outs| == 16
    requires forall k :: 0 <= k < 16 ==> outs[k] == if k < 8 then Low(lo, 8)[k] else Low(hi, 8)[k - 8]
    ensures Value(outs) == 0x100 * (lo as int) + hi
  {
    hide Low, Value, Pow2;
    SwapLow(lo, hi);
    PowValues();
    assert outs == Low(lo, 8) + Low(hi, 8);
    ValueLow(0x100 * (lo as int) + hi, 16);
  }

  /** What is left of `a` pulses after `b` */
  function Less(a: nat, b: nat): nat { if a > b then a - b else 0 }

  type Pulses = n: nat | n > 0 witness 1

  /** How many pages end with a word before the `w`th of a range that starts at word `offset` */
  function Pages(wide: bool, offset: nat, w: nat): nat { (offset + w) / WordsPerPage(wide) }

  lemma PagesStep(wide: bool, offset: nat, w: nat, k: nat)
    requires !PageFull(wide, offset, w, k)
    ensures Pages(wide, offset, w + k + 1)
            == Pages(wide, offset, w) + if (offset + w + k + 1) * 2 % (if wide then 32 else 8) == 0 then 1 else 0
  {
    PageEnds(wide, offset, w, k);
    var x, p := offset + w, WordsPerPage(wide);
    Parts(x);
    assert Target(wide, offset, w) % p == x % p;
    Quotient(x + k + 1, p, if x % p + k + 1 == p then x / p + 1 else x / p,
             if x % p + k + 1 == p then 0 else x % p + k + 1);
  }

  lemma PagesGrow(wide: bool, offset: nat, v: nat, w: nat)
    requires v <= w
    ensures Pages(wide, offset, v) <= Pages(wide, offset, w)
  {
  }

  lemma PagesLast(wide: bool, offset: nat, n: nat)
    requires n > 0
    ensures Pages(wide, offset, n - 1)
            == Pages(wide, offset, n) - if (offset + n) * 2 % (if wide then 32 else 8) == 0 then 1 else 0
  {
    Twice(offset + n);
    var x, p := offset + n - 1, WordsPerPage(wide);
    Quotient(x + 1, p, if x % p + 1 == p then x / p + 1 else x / p, if x % p + 1 == p then 0 else x % p + 1);
  }

  /** How many page writes are waited for in writing `n` words from word `offset` on: those of all its
      pages but the last */
  function Waits(wide: bool, offset: nat, n: nat): int
    requires n > 0
  {
    Pages(wide, offset, n - 1) - Pages(wide, offset, 0)
  }

  // ----- The driver -----

  class Eeprom {
    const wordSize: nat
    /** The pins: the chip is selected while `cs` is low. `req` asks for access. */
    var cs: bool
    var sk: bool
    var di: bool
    var out: bool
    var req: bool
    var chip: Chip
    /** The bits the chip has taken in since it was selected */
    var bits: seq<bool>
    /** Whether each read of the register, while access is asked for, finds it granted */
    const gnt: nat -> bool
    var polls: nat
    /** How many clock pulses each page write keeps the chip busy, how many page writes there have been,
        and how many pulses the chip is still busy */
    const writeTime: nat -> Pulses
    var writes: nat
    var wait: nat
    /** Whether the chip was busy when it last drove its output */
    ghost var seen: bool

    ghost predicate Fits()
      reads this
    {
      chip.Ok() && |chip.mem| == 2 * wordSize && (chip.busy <==> wait > 0)
    }

    ghost predicate Selected()
      reads this
    {
      && Fits() && !cs && !sk && (chip.busy ==> seen)
      && (bits != [] ==> out == chip.(busy := seen).OutBit(bits))
    }

    ghost predicate Idle()
      reads this
    {
      Fits() && cs && !sk && !req
    }

    /** `chip` as it was, except that a write may have finished. */
    static predicate Settles(was: Chip, chip: Chip) { chip == was || chip == was.(busy := false) }

    constructor (chip: Chip, gnt: nat -> bool, writeTime: nat -> Pulses, wait: nat)
      requires chip.Ok() && (chip.busy <==> wait > 0)
      ensures Idle() && this.chip == chip && wordSize == |chip.mem| / 2 && this.gnt == gnt && polls == 0
      ensures this.writeTime == writeTime && this.wait == wait && writes == 0
    {
      hide Whole;
      EvenSize(chip.wide, |chip.mem|);
      this.chip, wordSize, this.gnt, polls := chip, |chip.mem| / 2, gnt, 0;
      this.writeTime, this.wait, writes := writeTime, wait, 0;
      cs, sk, di, out, req, bits, seen := true, false, false, false, false, [], true;
    }

    /** A page write begins when the chip, deselected, becomes busy. */
    predicate Timed(was: Chip, wait0: nat, writes0: nat)
      reads `chip, `wait, `writes
    {
      if !was.busy && chip.busy then wait == writeTime(writes0) && writes == writes0 + 1
      else wait == wait0 && writes == writes0
    }

    /** A write to the register: the chip sees the edges. It takes a bit in when the clock rises,
        drives one when it falls, and obeys when it is deselected. */
    method Drive(cs: bool, sk: bool, di: bool)
      requires Fits()
      modifies `cs, `sk, `di, `out, `chip, `bits, `seen, `wait, `writes
      ensures this.cs == cs && this.sk == sk && this.di == di
      ensures var up := !old(this.cs) && cs; var rises := !cs && !old(this.cs) && !old(this.sk) && sk;
              && bits == (if cs != old(this.cs) then [] else if rises then old(bits) + [di] else old(bits))
              && if up then chip == old(chip.Execute(bits)) else
                 if rises then Settles(old(chip), chip) else chip == old(chip)
      ensures var falls := !cs && !old(this.cs) && old(this.sk) && !sk;
              if falls then seen == chip.busy && out == chip.OutBit(bits) else seen == old(seen) && out == old(out)
      ensures var up := !old(this.cs) && cs; var rises := !cs && !old(this.cs) && !old(this.sk) && sk;
              if up then Timed(old(chip), old(wait), old(writes))
              else writes == old(writes) && wait == Less(old(wait), if rises then 1 else 0)
      ensures Fits()
    {
      if !this.cs && cs {
        var was := chip.busy;
        chip, bits := chip.Execute(bits), [];
        if !was && chip.busy { wait, writes := writeTime(writes), writes + 1; }
      } else if this.cs && !cs {
        bits := [];
      } else if !cs && !this.sk && sk {
        bits := bits + [di];
        if wait > 0 {
          wait := wait - 1;
          if wait == 0 { chip := chip.(busy := false); }
        }
      } else if !cs && this.sk && !sk {
        seen, out := chip.busy, chip.OutBit(bits);
      }
      this.cs, this.sk, this.di := cs, sk, di;
    }

    /** One bit to the chip, with one clock pulse. */
    method Pulse(bit: bool)
      requires Selected()
      modifies `cs, `sk, `di, `out, `chip, `bits, `seen, `wait, `writes
      ensures Selected() && bits == old(bits) + [bit] && Settles(old(chip), chip) && seen == chip.busy
      ensures wait == Less(old(wait), 1) && writes == old(writes)
    {
      Drive(cs, sk, bit);
      Drive(cs, true, bit);
      Drive(cs, false, bit);
    }

    /** e1000_shift_out_ee_bits */
    method ShiftOut(data: nat, count: nat)
      requires Selected() && count > 0
      modifies `cs, `sk, `di, `out, `chip, `bits, `seen, `wait, `writes
      ensures Selected() && bits == old(bits) + Low(data, count) && !di
      ensures Settles(old(chip), chip) && seen == chip.busy
      ensures wait == Less(old(wait), count) && writes == old(writes)
    {
      hide Low, Pow2, Chip.OutBit, Chip.Execute;
      var mask := Pow2(count - 1);
      ghost var left := count;
      while mask != 0
        invariant 0 <= left <= count && mask == if left == 0 then 0 else Pow2(left - 1)
        invariant Selected() && bits + Low(data, left) == old(bits) + Low(data, count)
        invariant Settles(old(chip), chip) && (left < count ==> seen == chip.busy)
        invariant wait == Less(old(wait), count - left) && writes == old(writes)
      {
        var bit := data / mask % 2 == 1;
        Pulse(bit);
        LowTop(data, left - 1);
        MaskStep(left);
        left := left - 1;
        mask := mask / 2;
      }
      Drive(cs, sk, false);
    }

    /** One bit from the chip: it drove it before this pulse, and was busy then if `flag`. */
    method Sample() returns (bit: bool, ghost flag: bool)
      requires Selected() && bits != []
      modifies `cs, `sk, `di, `out, `chip, `bits, `seen, `wait, `writes
      ensures Selected() && bits == old(bits) + [false] && Settles(old(chip), chip)
      ensures flag == old(seen) && bit == old(chip.(busy := seen).OutBit(bits))
      ensures (chip.busy ==> flag) && (seen ==> flag) && seen == chip.busy
      ensures wait == Less(old(wait), 1) && writes == old(writes)
    {
      flag := seen;
      Drive(cs, true, false);
      bit := out;
      Drive(cs, false, false);
    }

    /** What a run of bits from the chip was, given when it was busy: at first if `before`, in
        the end if `after`. */
    static ghost predicate Heard(chip: Chip, bits: seq<bool>, outs: seq<bool>, flags: seq<bool>, before: bool,
                                 after: bool)
      requires chip.Ok()
    {
      && |outs| == |flags|
      && forall k :: 0 <= k < |outs| ==> HeardAt(chip, bits, k, outs[k], flags[k], before, after)
    }

    static ghost predicate HeardAt(chip: Chip, bits: seq<bool>, k: nat, bit: bool, flag: bool, before: bool,
                                   after: bool)
      requires chip.Ok()
    {
      bit == chip.(busy := flag).OutBit(bits + Zeros(k)) && (after ==> flag) && (flag ==> before)
    }

    static lemma HearMore(chip: Chip, bits: seq<bool>, outs: seq<bool>, flags: seq<bool>, before: bool, after: bool,
                          bit: bool, flag: bool, later: bool)
      requires chip.Ok() && Heard(chip, bits, outs, flags, before, after)
      requires bit == chip.(busy := flag).OutBit(bits + Zeros(|outs|))
      requires (flag ==> before) && (later ==> after && flag)
      ensures Heard(chip, bits, outs + [bit], flags + [flag], before, later)
      ensures Value(outs + [bit]) == 2 * Value(outs) + if bit then 1 else 0
    {
      hide Chip.OutBit;
      var outs', flags' := outs + [bit], flags + [flag];
      assert outs'[..|outs|] == outs;
      forall k | 0 <= k < |outs'|
        ensures HeardAt(chip, bits, k, outs'[k], flags'[k], before, later)
      {
        if k < |outs| { assert HeardAt(chip, bits, k, outs[k], flags[k], before, after); }
      }
    }

    /** e1000_shift_in_ee_bits. Bit `k` is what the chip drove with `k` zero bits more taken in;
        `flags` tells whether it was busy then. */
    method ShiftIn(count: nat) returns (data: nat, ghost outs: seq<bool>, ghost flags: seq<bool>)
      requires Selected() && bits != []
      modifies `cs, `sk, `di, `out, `chip, `bits, `seen, `wait, `writes
      ensures Selected() && bits == old(bits) + Zeros(count) && Settles(old(chip), chip) && (seen ==> old(seen))
      ensures |outs| == count && data == Value(outs)
      ensures Heard(old(chip), old(bits), outs, flags, old(seen), chip.busy)
      ensures wait == Less(old(wait), count) && writes == old(writes)
      ensures old(seen) == old(chip.busy) ==> forall k :: 0 <= k < count ==> flags[k] == (old(wait) > k)
    {
      hide Chip.OutBit, Chip.Execute;
      data, outs, flags := 0, [], [];
      var i := 0;
      while i < count
        invariant i <= count && Selected() && bits == old(bits) + Zeros(i) && Settles(old(chip), chip)
        invariant |outs| == i && data == Value(outs) && (seen ==> old(seen))
        invariant Heard(old(chip), old(bits), outs, flags, old(seen), chip.busy)
        invariant wait == Less(old(wait), i) && writes == old(writes)
        invariant old(seen) == old(chip.busy) ==>
                    seen == chip.busy && forall k :: 0 <= k < i ==> flags[k] == (old(wait) > k)
      {
        data := 2 * data;
        ghost var was := chip;
        var bit, flag := Sample();
        assert was.(busy := flag) == old(chip).(busy := flag);
        HearMore(old(chip), old(bits), outs, flags, old(seen), was.busy, bit, flag, chip.busy);
        if bit { data := data + 1; }
        outs, flags := outs + [bit], flags + [flag];
        i := i + 1;
      }
    }

    /** e1000_standby_eeprom: deselects the chip for a moment, which makes it obey. */
    method Standby()
      requires Selected()
      modifies `cs, `sk, `di, `out, `chip, `bits, `seen, `wait, `writes
      ensures Selected() && bits == [] && chip == old(chip.Execute(bits))
      ensures Timed(old(chip), old(wait), old(writes))
    {
      Drive(true, sk, di);
      Drive(false, sk, di);
      seen := true;
    }

    /** Access is granted in time to a request whose first look is number `p`. */
    ghost predicate Granted(p: nat) { exists j: nat :: p <= j <= p + GRANT_ATTEMPTS && gnt(j) }

    /** e1000_acquire_eeprom */
    method Acquire() returns (ok: bool)
      requires Idle()
      modifies `cs, `sk, `di, `out, `req, `chip, `bits, `seen, `wait, `writes, `polls
      ensures ok <==> Granted(old(polls))
      ensures chip == old(chip) && (if ok then Selected() && bits == [] && req else Idle())
      ensures wait == old(wait) && writes == old(writes)
    {
      req := true;
      var i := 0;
      var granted := Poll();
      while !granted && i < GRANT_ATTEMPTS
        invariant 0 <= i <= GRANT_ATTEMPTS && polls == old(polls) + i + 1 && granted == gnt(old(polls) + i)
        invariant forall j :: old(polls) <= j < old(polls) + i ==> !gnt(j)
        modifies `polls
      {
        i := i + 1;
        granted := Poll();
      }
      if !granted {
        req := false;
        return false;
      }
      Drive(false, false, di);
      seen := true;
      return true;
    }

    /** A look at the register for the grant */
    method Poll() returns (granted: bool)
      modifies `polls
      ensures granted == gnt(old(polls)) && polls == old(polls) + 1
    {
      granted, polls := gnt(polls), polls + 1;
    }

    /** e1000_release_eeprom */
    method Release()
      requires Selected()
      modifies `cs, `sk, `di, `out, `req, `chip, `bits, `seen, `wait, `writes
      ensures Idle() && chip == old(chip.Execute(bits)) && Timed(old(chip), old(wait), old(writes))
    {
      Drive(true, false, di);
      req := false;
    }

    /** The status register, read once: its low bit tells whether the chip is busy. */
    method Status() returns (status: nat)
      requires Selected() && bits == []
      modifies `cs, `sk, `di, `out, `chip, `bits, `seen, `wait, `writes
      ensures Selected() && Settles(old(chip), chip) && chip.Execute(bits) == chip
      ensures status % 2 == 0 <==> old(wait) <= 15
      ensures wait == Less(old(wait), 16) && writes == old(writes)
    {
      ShiftOut(RDSR_OPCODE, OPCODE_BITS);
      ghost var was, command, before := chip, bits, seen;
      ghost var outs, flags;
      status, outs, flags := ShiftIn(8);
      assert command == Low(RDSR_OPCODE, 8);
      Command(RDSR_OPCODE, Zeros(7));
      Command(RDSR_OPCODE, Zeros(8));
      assert HeardAt(was, command, 7, outs[7], flags[7], before, chip.busy);
    }

    /** e1000_spi_eeprom_ready: polls the status register until the chip is no longer busy. It succeeds
        exactly when the chip is done in time for the last look. */
    method Ready() returns (ok: bool)
      requires Selected() && bits == []
      modifies `cs, `sk, `di, `out, `chip, `bits, `seen, `wait, `writes
      ensures Selected() && Settles(old(chip), chip) && chip.Execute(bits) == chip
      ensures ok <==> old(wait) <= READY_LIMIT
      ensures (ok ==> wait == 0 && !chip.busy) && writes == old(writes)
      ensures !ok ==> bits == []
    {
      var retryCount := 0;
      ok := false;
      while retryCount < MAX_RETRY
        invariant Selected() && bits == [] && Settles(old(chip), chip) && writes == old(writes)
        invariant 0 <= retryCount <= MAX_RETRY && retryCount % 5 == 0 && wait == Less(old(wait), 16 * (retryCount / 5))
        invariant retryCount > 0 ==> old(wait) > 16 * (retryCount / 5) - 1
      {
        var status := Status();
        if status % 2 == 0 { return true; }
        retryCount := retryCount + 5;
        Standby();
      }
    }

    /** Tells the chip, which obeys nothing else meanwhile, to allow writing. */
    method EnableWrites()
      requires Selected() && chip.Execute(bits) == chip && !chip.busy
      modifies `cs, `sk, `di, `out, `chip, `bits, `seen, `wait, `writes
      ensures Selected() && bits == [] && chip == old(chip).(wel := true) && writes == old(writes)
    {
      hide Low, Chip.OutBit, Less;
      Standby();
      ShiftOut(WREN_OPCODE, OPCODE_BITS);
      assert bits == Low(WREN_OPCODE, 8) + [];
      Command(WREN_OPCODE, []);
      Standby();
    }

    /** Enables writing and opens a write of word `w` of the range. */
    method OpenWrite(offset: nat, w: nat)
      requires Selected() && chip.Execute(bits) == chip && !chip.busy
      modifies `cs, `sk, `di, `out, `chip, `bits, `seen, `wait, `writes
      ensures Selected() && bits == Opening(chip, WRITE_OPCODE, offset, w) && chip == old(chip).(wel := true)
      ensures writes == old(writes)
    {
      hide Low, Chip.OutBit, Chip.Execute, Less;
      EnableWrites();
      var writeOpcode := WRITE_OPCODE;
      if !chip.wide && offset >= 0x80 { writeOpcode := writeOpcode + A8_OPCODE; }
      ShiftOut(writeOpcode, OPCODE_BITS);
      ShiftOut(2 * (offset + w), chip.AddressBits());
    }

    /** The pins between two words of a page write. */
    ghost predicate Filling(m: seq<Byte>, offset: nat, data: seq<Word>, w: nat, k: nat, db: seq<bool>)
      reads this
    {
      && Selected() && chip.wel && !chip.busy && bits == Opening(chip, WRITE_OPCODE, offset, w) + db
      && OnLine(chip.wide, chip.mem, m, offset, data, w, k, db)
    }

    /** One word of data on the line, low byte first. */
    method SendWord(ghost m: seq<Byte>, offset: nat, data: seq<Word>, ghost w: nat, ghost k: nat, i: nat,
                    ghost db: seq<bool>)
      returns (ghost db': seq<bool>)
      requires Filling(m, offset, data, w, k, db) && i == w + k < |data| && !PageFull(chip.wide, offset, w, k)
      modifies `cs, `sk, `di, `out, `chip, `bits, `seen, `wait, `writes
      ensures Filling(m, offset, data, w, k + 1, db') && chip == old(chip) && writes == old(writes)
    {
      hide Bytes, Put, PageWrite, Target, Chip.OutBit, Chip.Execute, OnLine, Opening, Low, Swap, PageFull, Whole;
      var word := Swap(data[i]);
      db' := db + Low(word, 16);
      NextOnLine(chip.wide, chip.mem, m, offset, data, w, k, db);
      ShiftOut(word, 16);
      ghost var opening := Opening(chip, WRITE_OPCODE, offset, w);
      assert opening + db + Low(word, 16) == opening + db';
    }

    /** What deselecting the chip now would leave in its memory. */
    ghost predicate Pending(m: seq<Byte>, offset: nat, data: seq<Word>, n: nat)
      reads this
    {
      && Selected() && |m| == |chip.mem| && n <= |data| && 2 * (offset + |data|) <= |m|
      && chip.Execute(bits).mem == Put(chip.wide, m, offset, data, n)
    }

    /** The inner loop of e1000_write_eeprom_spi: words up to the end of the page. */
    method FillPage(ghost m: seq<Byte>, offset: nat, data: seq<Word>, w: nat) returns (widx: nat)
      requires Filling(m, offset, data, w, 0, []) && w < |data| && !PageFull(chip.wide, offset, w, 0)
      modifies `cs, `sk, `di, `out, `chip, `bits, `seen, `wait, `writes
      ensures Pending(m, offset, data, widx) && w < widx <= |data| && chip.wide == old(chip.wide)
      ensures widx == |data| || (bits == [] && (offset + widx) * 2 % chip.Page() == 0)
      ensures !PageFull(chip.wide, offset, w, widx - w - 1)
      ensures if (offset + widx) * 2 % chip.Page() == 0 then wait == writeTime(old(writes)) && writes == old(writes) + 1
              else wait == 0 && writes == old(writes) && chip.Execute(bits).busy
    {
      hide Bytes, Put, PageWrite, Target, Chip.OutBit, Chip.Execute, Opening, Low, Swap, Whole;
      ghost var db: seq<bool> := [];
      ghost var k: nat := 0;
      widx := w;
      while widx < |data|
        invariant Filling(m, offset, data, w, k, db) && widx == w + k <= |data| && chip == old(chip)
        invariant !PageFull(chip.wide, offset, w, k) && writes == old(writes) && wait == 0
        invariant k > 0 ==> !PageFull(chip.wide, offset, w, k - 1) && (offset + widx) * 2 % chip.Page() != 0
      {
        db := SendWord(m, offset, data, w, k, widx, db);
        PageEnds(chip.wide, offset, w, k);
        widx, k := widx + 1, k + 1;
        if (offset + widx) * 2 % chip.Page() == 0 {
          Obeyed(chip, m, offset, data, w, k, db);
          Standby();
          NothingToObey(chip);
          return;
        }
      }
      Obeyed(chip, m, offset, data, w, k, db);
    }

    /** One page of the write: from word `w` up to the end of its page. */
    method WritePage(ghost m: seq<Byte>, offset: nat, data: seq<Word>, w: nat) returns (ok: bool, widx: nat)
      requires Pending(m, offset, data, w) && bits == [] && w < |data|
      modifies `cs, `sk, `di, `out, `chip, `bits, `seen, `wait, `writes
      ensures Pending(m, offset, data, widx) && chip.wide == old(chip.wide)
      ensures (ok <==> old(wait) <= READY_LIMIT) && (!ok ==> widx == w && bits == [])
      ensures ok ==> w < widx <= |data| && (widx == |data| || (bits == [] && (offset + widx) * 2 % chip.Page() == 0))
      ensures ok ==> Pages(chip.wide, offset, widx) == Pages(chip.wide, offset, w)
                                                      + if (offset + widx) * 2 % chip.Page() == 0 then 1 else 0
      ensures ok ==> if (offset + widx) * 2 % chip.Page() == 0
                     then wait == writeTime(old(writes)) && writes == old(writes) + 1
                     else wait == 0 && writes == old(writes) && chip.Execute(bits).busy
    {
      hide Bytes, Put, PageWrite, Target, Chip.OutBit, Chip.Execute, Opening, Low, Swap, Whole, OnLine;
      NothingToObey(chip);
      widx := w;
      ok := Ready();
      if ok {
        OpenWrite(offset, w);
        OpeningOnly(chip, offset, w, data, m);
        widx := FillPage(m, offset, data, w);
        PagesStep(chip.wide, offset, w, widx - w - 1);
      } else {
        NothingToObey(chip);
      }
    }

    /** The page writes with these numbers do not keep the chip busy for too long. */
    ghost predicate Quick(from: nat, to: int) { forall j: nat :: from <= j < to ==> writeTime(j) <= READY_LIMIT }

    /** The chip is done in time before each page of a write. */
    ghost predicate InTime(offset: nat, n: nat, wait0: nat, writes0: nat)
      requires n > 0
      reads `chip
    {
      wait0 <= READY_LIMIT && Quick(writes0, writes0 + Waits(chip.wide, offset, n))
    }

    /** Between two pages: `w` words are written, and what was waited for was in time. */
    ghost predicate Between(m: seq<Byte>, offset: nat, data: seq<Word>, w: nat, wait0: nat, writes0: nat)
      reads this
    {
      var ended := (offset + w) * 2 % chip.Page() == 0;
      && Pending(m, offset, data, w) && (w < |data| ==> bits == [] && (w == 0 || ended))
      && writes == writes0 + Pages(chip.wide, offset, w) - Pages(chip.wide, offset, 0) >= writes0
      && (if w == 0 then wait == wait0
          else && wait0 <= READY_LIMIT && Quick(writes0, if ended then writes - 1 else writes)
               && if ended then writes > writes0 && wait == writeTime(writes - 1)
                  else wait == 0 && chip.Execute(bits).busy)
    }

    /** One page more, or the chip is not done in time. */
    method NextPage(ghost m: seq<Byte>, offset: nat, data: seq<Word>, w: nat, ghost wait0: nat, ghost writes0: nat)
      returns (ok: bool, next: nat)
      requires Between(m, offset, data, w, wait0, writes0) && w < |data|
      modifies `cs, `sk, `di, `out, `chip, `bits, `seen, `wait, `writes
      ensures chip.wide == old(chip.wide)
      ensures ok ==> w < next <= |data| && Between(m, offset, data, next, wait0, writes0)
      ensures !ok ==> Pending(m, offset, data, w) && bits == [] && !InTime(offset, |data|, wait0, writes0)
      ensures !ok && w == 0 ==> wait0 > READY_LIMIT
    {
      hide Put, Chip.OutBit, Chip.Execute, Whole, Pages, Pending;
      PagesGrow(chip.wide, offset, 0, w);
      PagesGrow(chip.wide, offset, w, |data| - 1);
      ok, next := WritePage(m, offset, data, w);
      PagesGrow(chip.wide, offset, 0, next);
    }

    /** Page write number `last` has begun, or does so when the chip is deselected. */
    ghost predicate LastBegun(last: int)
      reads this
    {
      && chip.Ok()
      && if wait > 0 then 0 < writes == last + 1 && wait == writeTime(writes - 1)
         else writes == last && chip.Execute(bits).busy
    }

    /** e1000_write_eeprom_spi: it succeeds exactly when the chip is done in time before each page. */
    method WriteSpi(ghost m: seq<Byte>, offset: nat, data: seq<Word>) returns (ok: bool, ghost done: nat)
      requires Pending(m, offset, data, 0) && bits == [] && data != []
      modifies `cs, `sk, `di, `out, `chip, `bits, `seen, `wait, `writes
      ensures Pending(m, offset, data, done) && chip.wide == old(chip.wide)
      ensures if ok then done == |data| else done < |data| && (done == 0 || (offset + done) * 2 % chip.Page() == 0)
      ensures ok <==> old(InTime(offset, |data|, wait, writes))
      ensures done == 0 ==> old(wait) > READY_LIMIT
      ensures ok ==> LastBegun(old(writes) + Waits(chip.wide, offset, |data|))
    {
      hide Put, Chip.OutBit, Chip.Execute, Whole, Pages;
      var widx: nat := 0;
      done := 0;
      while widx < |data|
        invariant Between(m, offset, data, widx, old(wait), old(writes)) && done == widx <= |data|
        invariant chip.wide == old(chip.wide)
        decreases |data| - widx
      {
        var next;
        ok, next := NextPage(m, offset, data, widx, old(wait), old(writes));
        if !ok { return false, widx; }
        widx, done := next, next;
      }
      PagesLast(chip.wide, offset, |data|);
      return true, widx;
    }

    /** No page write takes longer than the driver waits. */
    ghost predicate AllQuick() { forall j: nat :: writeTime(j) <= READY_LIMIT }

    predicate InRange(offset: nat, words: nat) { offset < wordSize && words <= wordSize - offset && words != 0 }

    /** e1000_do_write_eeprom: it succeeds exactly when access is granted and the chip is done in time
        before each page. Then the words are where the driver means them to go, each page has been
        written once, and the chip is busy with the last; on failure a prefix of the words that ends
        with a page is written, or nothing. */
    method DoWrite(offset: nat, data: seq<Word>) returns (ok: bool, ghost done: nat)
      requires Idle()
      modifies `cs, `sk, `di, `out, `req, `chip, `bits, `seen, `wait, `writes, `polls
      ensures Idle() && chip.wide == old(chip.wide) && (ok ==> InRange(offset, |data|))
      ensures !InRange(offset, |data|) ==> chip == old(chip)
      ensures !Granted(old(polls)) ==> !ok && chip == old(chip)
      ensures ok <==> InRange(offset, |data|) && Granted(old(polls)) && old(InTime(offset, |data|, wait, writes))
      ensures InRange(offset, |data|) && Granted(old(polls)) && old(wait) <= READY_LIMIT ==>
                done > 0 && (AllQuick() ==> ok)
      ensures ok ==> writes == old(writes) + Waits(chip.wide, offset, |data|) + 1 && wait == writeTime(writes - 1)
      ensures InRange(offset, |data|) ==>
                && done <= |data| && (ok ==> done == |data|)
                && (done == 0 || done == |data| || (offset + done) * 2 % chip.Page() == 0)
                && chip.mem == Put(chip.wide, old(chip.mem), offset, data, done)
    {
      hide Chip.OutBit, Chip.Execute, Waits, Pages;
      if offset >= wordSize || |data| > wordSize - offset || |data| == 0 { return false, 0; }
      ok := Acquire();
      if !ok { return false, 0; }
      NothingToObey(chip);
      ok, done := WriteSpi(chip.mem, offset, data);
      ExecuteKeeps(chip, bits);
      Release();
    }

    /** One word of a read, as it stands in the memory. */
    method ReadWord(offset: nat, ghost i: nat) returns (word: Word)
      requires Selected() && !chip.busy && !seen && 2 * (offset + i) + 1 < |chip.mem|
      requires bits == Opening(chip, READ_OPCODE, offset, 0) + Zeros(16 * i)
      modifies `cs, `sk, `di, `out, `chip, `bits, `seen, `wait, `writes
      ensures Selected() && chip == old(chip) && !seen
      ensures bits == Opening(chip, READ_OPCODE, offset, 0) + Zeros(16 * (i + 1))
      ensures word == WordAt(chip.mem, offset + i)
    {
      hide Opening, Whole, Low, Value, Chip.OutBit, Chip.Execute;
      ghost var before, command := bits, Opening(chip, READ_OPCODE, offset, 0);
      Opened(chip, READ_OPCODE, offset, 0, Zeros(16 * i));
      var wordIn, outs, flags := ShiftIn(16);
      ghost var lo: Byte, hi: Byte := chip.mem[2 * (offset + i)], chip.mem[2 * (offset + i) + 1];
      forall k | 0 <= k < 16
        ensures outs[k] == if k < 8 then Low(lo, 8)[k] else Low(hi, 8)[k - 8]
      {
        assert HeardAt(old(chip), before, k, outs[k], flags[k], old(seen), chip.busy);
        assert before + Zeros(k) == command + Zeros(16 * i + k);
        ReadBit(chip, offset, i, k);
      }
      ReadBack(lo, hi, outs);
      assert before + Zeros(16) == command + Zeros(16 * (i + 1));
      word := Swap(wordIn);
    }

    /** e1000_do_read_eeprom: on success the words of the range, however it lies. It succeeds exactly
        when access is granted and the chip is done in time. */
    method DoRead(offset: nat, words: nat) returns (ok: bool, data: seq<Word>)
      requires Idle()
      modifies `cs, `sk, `di, `out, `req, `chip, `bits, `seen, `wait, `writes, `polls
      ensures Idle() && Settles(old(chip), chip) && chip.mem == old(chip.mem)
      ensures ok <==> InRange(offset, words) && Granted(old(polls)) && old(wait) <= READY_LIMIT
      ensures ok ==> |data| == words && forall i :: 0 <= i < words ==> data[i] == WordAt(chip.mem, offset + i)
    {
      hide Chip.OutBit, Chip.Execute, Opening, Low;
      ok, data := false, [];
      if offset >= wordSize || words > wordSize - offset || words == 0 { return; }
      ok := Acquire();
      if !ok { return; }
      ok := Ready();
      if !ok {
        Release();
        return;
      }
      Standby();
      OpenRead(offset);
      var i := 0;
      while i < words
        invariant i == |data| <= words && Selected() && Settles(old(chip), chip) && !chip.busy && !seen
        invariant bits == Opening(chip, READ_OPCODE, offset, 0) + Zeros(16 * i)
        invariant forall j :: 0 <= j < i ==> data[j] == WordAt(chip.mem, offset + j)
      {
        var word := ReadWord(offset, i);
        data := data + [word];
        i := i + 1;
      }
      ReadLeaves(chip, offset, Zeros(16 * i));
      Release();
    }

    method OpenRead(offset: nat)
      requires Selected() && bits == [] && !chip.busy
      modifies `cs, `sk, `di, `out, `chip, `bits, `seen, `wait, `writes
      ensures Selected() && chip == old(chip) && !seen && bits == Opening(chip, READ_OPCODE, offset, 0) + Zeros(0)
    {
      hide Chip.OutBit, Chip.Execute, Low;
      var readOpcode := READ_OPCODE;
      if !chip.wide && offset >= 0x80 { readOpcode := readOpcode + A8_OPCODE; }
      ShiftOut(readOpcode, OPCODE_BITS);
      ShiftOut(2 * offset, chip.AddressBits());
    }

    /** What is written is read back, unless the range straddles word 128 on a small chip; both come
        through when access is always granted in time and no page write takes too long. */
    method WriteThenRead(offset: nat, data: seq<Word>) returns (written: bool, read: bool, back: seq<Word>)
      requires Idle()
      modifies `cs, `sk, `di, `out, `req, `chip, `bits, `seen, `wait, `writes, `polls
      ensures Idle()
      ensures written && !Straddles(chip.wide, offset, |data|) ==>
                old(|chip.mem|) == |chip.mem| && ExactStore(old(chip.mem), chip.mem, offset, data)
      ensures written && read && !Straddles(chip.wide, offset, |data|) ==> back == data
      ensures InRange(offset, |data|) && (forall p: nat :: Granted(p)) && old(wait) <= READY_LIMIT && AllQuick()
              ==> written && read
    {
      hide Put, Chip.OutBit, Chip.Execute;
      ghost var done;
      written, done := DoWrite(offset, data);
      if written && !Straddles(chip.wide, offset, |data|) {
        StoredExactly(chip.wide, old(chip.mem), offset, data, |data|);
        assert data[..|data|] == data;
      }
      read, back := DoRead(offset, |data|);
      if written && read && !Straddles(chip.wide, offset, |data|) {
        forall i | 0 <= i < |data|
          ensures back[i] == data[i]
        {
          assert WordStored(old(chip.mem), chip.mem, offset, data, offset + i);
        }
      }
    }
  }

  // ----- What a write does to the words -----

  predicate WordStored(mem: seq<Byte>, after: seq<Byte>, offset: nat, data: seq<Word>, w: nat)
    requires 2 * w + 1 < |mem| == |after|
  {
    WordAt(after, w) == if offset <= w < offset + |data| then data[w - offset] else WordAt(mem, w)
  }

  /** The words of the range hold the data and no other word has changed. */
  ghost predicate ExactStore(mem: seq<Byte>, after: seq<Byte>, offset: nat, data: seq<Word>)
    requires |mem| == |after|
  {
    forall w {:trigger WordStored(mem, after, offset, data, w)} :: 0 <= w && 2 * w + 1 < |mem| ==>
      WordStored(mem, after, offset, data, w)
  }

  lemma {:induction false} StoredExactly(wide: bool, mem: seq<Byte>, offset: nat, data: seq<Word>, n: nat)
    requires n <= |data| && 2 * (offset + n) <= |mem| <= if wide then 0x1_0000 else 0x200
    requires !Straddles(wide, offset, n)
    ensures ExactStore(mem, Put(wide, mem, offset, data, n), offset, data[..n])
  {
    if n == 0 {
    } else {
      StoredExactly(wide, mem, offset, data, n - 1);
      assert Target(wide, offset, n - 1) == offset + n - 1;
      var was, after := Put(wide, mem, offset, data, n - 1), Put(wide, mem, offset, data, n);
      forall w | 0 <= w && 2 * w + 1 < |mem|
        ensures WordStored(mem, after, offset, data[..n], w)
      {
        assert WordStored(mem, was, offset, data[..n - 1], w);
      }
    }
  }

  /** On a small chip a range that starts below word 128 never reaches the words above it. */
  lemma {:induction false} UpperUntouched(mem: seq<Byte>, offset: nat, data: seq<Word>, n: nat, w: nat)
    requires n <= |data| && 2 * (offset + n) <= |mem| <= 0x200 && offset < 0x80 <= w && 2 * w + 1 < |mem|
    ensures WordAt(Put(false, mem, offset, data, n), w) == WordAt(mem, w)
  {
    if n == 0 {
    } else {
      UpperUntouched(mem, offset, data, n - 1, w);
      assert Target(false, offset, n - 1) < 0x80;
    }
  }

  /** A write stores every data exactly if and only if its range does not straddle word 128 on a
      chip with one address byte. */
  lemma WriteIsExact(wide: bool, mem: seq<Byte>, offset: nat, n: nat)
    requires 2 * (offset + n) <= |mem| <= if wide then 0x1_0000 else 0x200
    ensures (forall data: seq<Word> :: |data| == n ==> ExactStore(mem, Put(wide, mem, offset, data, n), offset, data))
            <==> !Straddles(wide, offset, n)
  {
    if Straddles(wide, offset, n) {
      var other: Word := if WordAt(mem, 0x80) == 0 then 1 else 0;
      var data: seq<Word> := seq(n, _ => other);
      UpperUntouched(mem, offset, data, n, 0x80);
      assert !WordStored(mem, Put(wide, mem, offset, data, n), offset, data, 0x80);
    } else {
      forall data: seq<Word> | |data| == n
        ensures ExactStore(mem, Put(wide, mem, offset, data, n), offset, data)
      {
        StoredExactly(wide, mem, offset, data, n);
        assert data[..n] == data;
      }
    }
  }

  /** Two words written at word 127 of a blank small chip: the second lands in word 0. */
  lemma StraddleExample()
    ensures var mem := seq(0x200, _ => 0 as Byte); var after := Put(false, mem, 127, [1, 2], 2);
            WordAt(after, 127) == 1 && WordAt(after, 128) == 0 && WordAt(after, 0) == 2
  {
    var mem := seq(0x200, _ => 0 as Byte);
    assert Put(false, mem, 127, [1, 2], 0) == mem;
    assert Put(false, mem, 127, [1, 2], 1) == mem[254 := 1][255 := 0];
    assert Put(false, mem, 127, [1, 2], 2) == mem[254 := 1][255 := 0][0 := 2][1 := 0];
  }
}
