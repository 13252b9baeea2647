/** Management of a PHY over the two pins MDC and MDIO (82543 and older). The PHY is an automaton
    that sees the line at rising edges of MDC and reads frames as section 22.2.4.5 of IEEE 802.3
    lays them out. */
module Mdio {
  import opened Bits

  type Field = f: int | 0 <= f < 0x20

  const PHY_PREAMBLE := 0xFFFF_FFFF
  const PHY_PREAMBLE_SIZE := 32
  const PHY_SOF := 1
  const PHY_OP_READ := 2
  const PHY_OP_WRITE := 1
  const PHY_TURNAROUND := 2
  const PHY_ADDRESS: Field := 1
  const MAX_PHY_REG_ADDRESS := 0x1F

  // ----- The PHY -----

  /** A PHY with 32 registers: it counts the ones of a preamble, then takes in a frame. */
  datatype Phy = Phy(address: Field, regs: seq<Word>, ones: nat, frame: seq<bool>) {
    predicate Idle() { |regs| == 32 && frame == [] }

    function Op(): nat
      requires |frame| >= 4
    {
      Value(frame[2..4])
    }

    function PhyAd(): nat
      requires |frame| >= 9
    {
      Value(frame[4..9])
    }

    function RegAd(): (r: Field)
      requires |frame| >= 14
    {
      LowValue(frame[9..14]);
      PowValues();
      Value(frame[9..14])
    }

    /** A rising edge of the clock with `bit` on the line. */
    function Rise(bit: bool): Phy
      requires |regs| == 32
    {
      if frame == [] then
        if bit then this.(ones := ones + 1)
        else if ones >= PHY_PREAMBLE_SIZE then this.(ones := 0, frame := [false])
        else this.(ones := 0)
      else if |frame| == 1 && !bit then this.(frame := [])
      else if |frame| + 1 < 32 then this.(frame := frame + [bit])
      else this.(frame := frame + [bit]).Obey()
    }

    /** A whole frame has been taken in: a write to this PHY changes a register. */
    function Obey(): Phy
      requires |regs| == 32 && |frame| >= 32
    {
      if Op() == PHY_OP_WRITE && PhyAd() == address && Value(frame[14..16]) == PHY_TURNAROUND then
        LowValue(frame[16..32]);
        PowValues();
        this.(regs := regs[RegAd() := Value(frame[16..32])], frame := [])
      else this.(frame := [])
    }

    /** What the PHY holds the line at when nobody else drives it: in a read addressed to it, the
        second turnaround bit and then the register; otherwise it lets the line float high. */
    predicate Out()
      requires |regs| == 32
    {
      if |frame| >= 15 && Op() == PHY_OP_READ && PhyAd() == address then
        |frame| >= 16 && |frame| < 32 && Low(regs[RegAd()], 16)[|frame| - 16]
      else true
    }

    function Feed(bits: seq<bool>): (phy: Phy)
      requires |regs| == 32
      ensures |phy.regs| == 32
      decreases |bits|
    {
      if bits == [] then this else Feed(bits[..|bits| - 1]).Rise(bits[|bits| - 1])
    }
  }

  // ----- Frames -----

  function Header(op: nat, phy: Field, reg: Field): (bits: seq<bool>)
    ensures |bits| == 14
  {
    Low(PHY_SOF, 2) + Low(op, 2) + Low(phy, 5) + Low(reg, 5)
  }

  function WriteFrame(phy: Field, reg: Field, data: Word): (bits: seq<bool>)
    ensures |bits| == 32
  {
    Header(PHY_OP_WRITE, phy, reg) + Low(PHY_TURNAROUND, 2) + Low(data, 16)
  }

  /** The driver's command words, fields shifted into place */
  function ReadCommand(phy: Field, reg: Field): nat {
    reg + phy * 0x20 + PHY_OP_READ * 0x400 + PHY_SOF * 0x1000
  }

  function WriteCommand(phy: Field, reg: Field, data: Word): nat {
    (PHY_TURNAROUND + reg * 4 + phy * 0x80 + PHY_OP_WRITE * 0x1000 + PHY_SOF * 0x4000) * 0x1_0000 + data
  }

  lemma Powers()
    ensures Pow2(2) == 4 && Pow2(7) == 0x80 && Pow2(10) == 0x400 && Pow2(12) == 0x1000 && Pow2(14) == 0x4000
    ensures Pow2(5) == 0x20 && Pow2(16) == 0x1_0000
  {
    PowValues();
    assert Pow2(7) == 4 * Pow2(5) && Pow2(10) == 8 * Pow2(7) && Pow2(12) == 4 * Pow2(10) && Pow2(14) == 4 * Pow2(12);
  }

  lemma HeaderBits(op: nat, phy: Field, reg: Field)
    requires op < 4
    ensures Low(reg + phy * 0x20 + op * 0x400 + PHY_SOF * 0x1000, 14) == Header(op, phy, reg)
  {
    hide Low;
    Powers();
    LowJoin(phy, reg, 5, 5);
    LowJoin(op, phy * 0x20 + reg, 2, 10);
    LowJoin(PHY_SOF, op * 0x400 + phy * 0x20 + reg, 2, 12);
    assert Low(op, 2) + (Low(phy, 5) + Low(reg, 5)) == Low(op, 2) + Low(phy, 5) + Low(reg, 5);
    assert Low(PHY_SOF, 2) + (Low(op, 2) + Low(phy, 5) + Low(reg, 5)) == Header(op, phy, reg);
  }

  /** The words the driver shifts out are the frames of the standard. */
  lemma CommandBits(phy: Field, reg: Field, data: Word)
    ensures Low(ReadCommand(phy, reg), 14) == Header(PHY_OP_READ, phy, reg)
    ensures Low(WriteCommand(phy, reg, data), 32) == WriteFrame(phy, reg, data)
  {
    hide Low, Pow2, Header;
    HeaderBits(PHY_OP_READ, phy, reg);
    HeaderBits(PHY_OP_WRITE, phy, reg);
    Powers();
    var h := reg + phy * 0x20 + PHY_OP_WRITE * 0x400 + PHY_SOF * 0x1000;
    LowJoin(h, PHY_TURNAROUND, 14, 2);
    LowJoin(4 * h + PHY_TURNAROUND, data, 16, 16);
  }

  // ----- What the PHY makes of them -----

  function Ones(n: nat): (bits: seq<bool>) { seq(n, _ => true) }

  lemma {:induction false} AllOnes(n: nat)
    ensures Low(Pow2(n) - 1, n) == Ones(n)
  {
    if n == 0 {
    } else {
      AllOnes(n - 1);
      assert (Pow2(n) - 1) / 2 == Pow2(n - 1) - 1 && (Pow2(n) - 1) % 2 == 1;
      assert Ones(n) == Ones(n - 1) + [true];
    }
  }

  lemma PreambleBits()
    ensures Low(PHY_PREAMBLE, PHY_PREAMBLE_SIZE) == Ones(PHY_PREAMBLE_SIZE)
  {
    PowValues();
    AllOnes(32);
  }

  lemma {:induction false} TakesPreamble(phy: Phy, n: nat)
    requires phy.Idle()
    ensures phy.Feed(Ones(n)) == phy.(ones := phy.ones + n)
  {
    if n == 0 {
    } else {
      TakesPreamble(phy, n - 1);
      assert Ones(n)[..n - 1] == Ones(n - 1);
    }
  }

  /** After a preamble the PHY takes in a frame bit by bit. */
  lemma {:induction false} TakesFrame(phy: Phy, bits: seq<bool>)
    requires phy.Idle() && phy.ones >= PHY_PREAMBLE_SIZE && 0 < |bits| < 32
    requires !bits[0] && (|bits| > 1 ==> bits[1])
    ensures phy.Feed(bits) == phy.(ones := 0, frame := bits)
  {
    var k := |bits| - 1;
    assert bits[..k] + [bits[k]] == bits;
    if k > 0 {
      TakesFrame(phy, bits[..k]);
    } else {
      assert bits[..0] == [] && bits == [false];
    }
  }

  lemma StartBits()
    ensures Low(PHY_SOF, 2) == [false, true]
  {
    assert Low(PHY_SOF, 1) == Low(0, 0) + [true] && Low(0, 1) == Low(0, 0) + [false];
  }

  lemma Fields(phy: Field, reg: Field, op: nat, rest: seq<bool>)
    requires op < 4
    ensures var f := Header(op, phy, reg) + rest;
            Value(f[2..4]) == op && Value(f[4..9]) == phy && Value(f[9..14]) == reg && f[0..2] == [false, true]
  {
    hide Low, Value;
    var f := Header(op, phy, reg) + rest;
    Powers();
    StartBits();
    assert f[0..2] == Low(PHY_SOF, 2) && f[2..4] == Low(op, 2) && f[4..9] == Low(phy, 5) && f[9..14] == Low(reg, 5);
    ValueLow(op, 2);
    ValueLow(phy, 5);
    ValueLow(reg, 5);
  }

  /** A write frame changes the addressed register of the addressed PHY, and nothing else. */
  lemma WriteFrameObeyed(phy: Phy, at: Field, reg: Field, data: Word)
    requires phy.Idle() && phy.ones >= PHY_PREAMBLE_SIZE
    ensures phy.Feed(WriteFrame(at, reg, data))
            == phy.(ones := 0, regs := if at == phy.address then phy.regs[reg := data] else phy.regs)
  {
    hide Low, Value, Header, Phy.Feed;
    var f := WriteFrame(at, reg, data);
    Fields(at, reg, PHY_OP_WRITE, Low(PHY_TURNAROUND, 2) + Low(data, 16));
    assert f == Header(PHY_OP_WRITE, at, reg) + (Low(PHY_TURNAROUND, 2) + Low(data, 16));
    assert f[14..16] == Low(PHY_TURNAROUND, 2) && f[16..32] == Low(data, 16);
    Powers();
    ValueLow(PHY_TURNAROUND, 2);
    ValueLow(data, 16);
    assert f[..31][0] == f[0..2][0] && f[..31][1] == f[0..2][1];
    TakesFrame(phy, f[..31]);
    FeedWhole(phy, f);
  }

  lemma FeedLast(phy: Phy, init: seq<bool>, bit: bool)
    requires |phy.regs| == 32
    ensures phy.Feed(init + [bit]) == phy.Feed(init).Rise(bit)
  {
    assert (init + [bit])[..|init|] == init;
  }

  lemma FeedWhole(phy: Phy, f: seq<bool>)
    requires |phy.regs| == 32 && |f| == 32 && phy.Feed(f[..31]) == phy.(ones := 0, frame := f[..31])
    ensures phy.Feed(f) == phy.(ones := 0, frame := f).Obey()
  {
    hide Phy.Obey, Value, Low, Phy.Feed;
    assert f == f[..31] + [f[31]];
    FeedLast(phy, f[..31], f[31]);
  }

  /** A PHY that has taken in a read header, and `k` bits more. */
  predicate Reading(phy: Phy, at: Field, reg: Field, k: nat) {
    && |phy.regs| == 32 && |phy.frame| == 14 + k < 32
    && phy.Op() == PHY_OP_READ && phy.PhyAd() == at && phy.RegAd() == reg
  }

  lemma ReadHeader(phy: Phy, at: Field, reg: Field)
    requires phy.Idle() && phy.ones >= PHY_PREAMBLE_SIZE
    ensures var p := phy.Feed(Header(PHY_OP_READ, at, reg));
            Reading(p, at, reg, 0) && p.regs == phy.regs && p.address == phy.address
  {
    var h := Header(PHY_OP_READ, at, reg);
    Fields(at, reg, PHY_OP_READ, []);
    assert h + [] == h && h[0] == h[0..2][0] && h[1] == h[0..2][1];
    TakesFrame(phy, h);
  }

  lemma ReadingOn(phy: Phy, at: Field, reg: Field, k: nat, bit: bool)
    requires Reading(phy, at, reg, k)
    ensures var p := phy.Rise(bit);
            && (if k < 17 then Reading(p, at, reg, k + 1) else p.Idle())
            && p.regs == phy.regs && p.address == phy.address
  {
    var f := phy.frame + [bit];
    assert f[2..4] == phy.frame[2..4] && f[4..9] == phy.frame[4..9] && f[9..14] == phy.frame[9..14];
  }

  // ----- The driver -----

  class Mdio {
    var mdc: bool
    /** What the driver puts on the line when `driving` it */
    var mdio: bool
    var driving: bool
    var phy: Phy

    ghost predicate Valid()
      reads this
    {
      |phy.regs| == 32 && !mdc
    }

    constructor (phy: Phy)
      requires phy.Idle()
      ensures Valid() && this.phy == phy
    {
      mdc, mdio, driving, this.phy := false, false, false, phy;
    }

    /** The line: whoever drives it, or the PHY. */
    predicate Line()
      reads this
      requires |phy.regs| == 32
    {
      if driving then mdio else phy.Out()
    }

    /** A write to the control register: the PHY looks at the line when the clock rises. */
    method Drive(mdc: bool, mdio: bool, driving: bool)
      requires |phy.regs| == 32
      modifies this
      ensures this.mdc == mdc && this.mdio == mdio && this.driving == driving
      ensures phy == if !old(this.mdc) && mdc then old(phy).Rise(if driving then mdio else old(phy).Out()) else old(phy)
      ensures |phy.regs| == 32
    {
      var rises := !this.mdc && mdc;
      this.mdc, this.mdio, this.driving := mdc, mdio, driving;
      if rises { phy := phy.Rise(Line()); }
    }

    /** One bit: set up before the rising edge and held over it */
    method Pulse(bit: bool)
      requires Valid()
      modifies this
      ensures Valid() && phy == old(phy).Rise(bit)
    {
      Drive(false, bit, true);
      Drive(true, bit, true);
      Drive(false, bit, true);
    }

    /** e1000_shift_out_mdi_bits: the PHY sees the low `count` bits, most significant first. */
    method ShiftOut(data: nat, count: nat)
      requires Valid() && count > 0
      modifies this
      ensures Valid() && phy == old(phy).Feed(Low(data, count))
    {
      assert phy.Feed([]) == phy;
      hide Low, Phy.Rise, Phy.Feed, Pow2;
      var mask := Pow2(count - 1);
      ghost var left: nat, sent: seq<bool> := count, [];
      while mask != 0
        invariant left <= count && mask == if left == 0 then 0 else Pow2(left - 1)
        invariant Valid() && sent + Low(data, left) == Low(data, count) && phy == old(phy).Feed(sent)
      {
        var bit := data / mask % 2 == 1;
        Pulse(bit);
        LowTop(data, left - 1);
        MaskStep(left);
        FeedLast(old(phy), sent, bit);
        sent, left := sent + [bit], left - 1;
        mask := mask / 2;
      }
      assert sent + Low(data, 0) == sent;
    }

    /** One clock with the line left to the PHY: what it holds the line at afterwards. */
    method ClockIn() returns (bit: bool)
      requires Valid()
      modifies this
      ensures Valid() && phy == old(phy.Rise(phy.Out())) && bit == phy.Out()
    {
      Drive(true, false, false);
      bit := Line();
      Drive(false, false, false);
    }

    /** e1000_shift_in_mdi_bits: rebuilds the register the PHY presents, and ends the frame. */
    method ShiftIn(ghost at: Field, ghost reg: Field) returns (data: nat)
      requires Valid() && Reading(phy, at, reg, 0)
      modifies this
      ensures Valid() && phy.Idle() && phy.regs == old(phy.regs) && phy.address == old(phy.address)
      ensures at == phy.address ==> data == phy.regs[reg]
    {
      hide Low, Phy.Rise, Phy.Op, Phy.PhyAd, Phy.RegAd;
      Drive(false, false, false);
      ReadingOn(phy, at, reg, 0, phy.Out());
      var _ := ClockIn();
      data := 0;
      var i := 0;
      ghost var outs: seq<bool> := [];
      while i < 16
        invariant i == |outs| <= 16 && data == Value(outs)
        invariant Valid() && Reading(phy, at, reg, i + 1)
        invariant phy.regs == old(phy.regs) && phy.address == old(phy.address)
        invariant at == phy.address ==> outs == Low(phy.regs[reg], 16)[..i]
      {
        data := 2 * data;
        ReadingOn(phy, at, reg, i + 1, phy.Out());
        var bit := ClockIn();
        if bit { data := data + 1; }
        assert (outs + [bit])[..i] == outs;
        outs := outs + [bit];
        i := i + 1;
      }
      ReadingOn(phy, at, reg, 17, phy.Out());
      var _ := ClockIn();
      if at == phy.address {
        assert outs == Low(phy.regs[reg], 16);
        ValueLow(phy.regs[reg], 16);
        PowValues();
      }
    }

    /** e1000_write_phy_reg_ex */
    method WritePhyReg(reg: nat, data: Word) returns (ok: bool)
      requires Valid() && phy.Idle()
      modifies this
      ensures Valid() && phy.Idle() && phy.address == old(phy.address) && ok == (reg <= MAX_PHY_REG_ADDRESS)
      ensures phy.regs == if ok && phy.address == PHY_ADDRESS then old(phy.regs)[reg := data] else old(phy.regs)
    {
      hide Low, Phy.Rise, Phy.Feed, Phy.Obey, Pow2;
      if reg > MAX_PHY_REG_ADDRESS { return false; }
      PreambleBits();
      TakesPreamble(phy, PHY_PREAMBLE_SIZE);
      ShiftOut(PHY_PREAMBLE, PHY_PREAMBLE_SIZE);
      CommandBits(PHY_ADDRESS, reg, data);
      WriteFrameObeyed(phy, PHY_ADDRESS, reg, data);
      var mdic := PHY_TURNAROUND + reg * 4 + PHY_ADDRESS * 0x80 + PHY_OP_WRITE * 0x1000 + PHY_SOF * 0x4000;
      mdic := mdic * 0x1_0000 + data;
      ShiftOut(mdic, 32);
      return true;
    }

    /** e1000_read_phy_reg_ex */
    method ReadPhyReg(reg: nat) returns (ok: bool, data: nat)
      requires Valid() && phy.Idle()
      modifies this
      ensures Valid() && phy.Idle() && phy.regs == old(phy.regs) && phy.address == old(phy.address)
      ensures ok == (reg <= MAX_PHY_REG_ADDRESS)
      ensures ok && phy.address == PHY_ADDRESS ==> data == phy.regs[reg]
    {
      if reg > MAX_PHY_REG_ADDRESS { return false, 0; }
      PreambleBits();
      TakesPreamble(phy, PHY_PREAMBLE_SIZE);
      ShiftOut(PHY_PREAMBLE, PHY_PREAMBLE_SIZE);
      CommandBits(PHY_ADDRESS, reg, 0);
      ReadHeader(phy, PHY_ADDRESS, reg);
      var mdic := reg + PHY_ADDRESS * 0x20 + PHY_OP_READ * 0x400 + PHY_SOF * 0x1000;
      ShiftOut(mdic, 14);
      data := ShiftIn(PHY_ADDRESS, reg);
      return true, data;
    }
  }
}
