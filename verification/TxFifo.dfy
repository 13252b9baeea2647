/** The transmit FIFO of the 82547: in half duplex no packet may run over its end by more than a
    little, so the driver follows where the FIFO's head is and waits for a reset of the FIFO when
    a packet would. */
module TxFifo {
  import opened Bits

  const FIFO_HDR := 0x10
  const PAD_LEN := 0x3E0
  const PBA_40K := 40
  const PBA_30K := 30
  const RXBUFFER_8192 := 8192
  const MAX_JUMBO_FRAME_SIZE := 0x3F00

  /** ALIGN to a multiple of `a` */
  function Align(x: nat, a: nat): (r: nat)
    requires a > 0
    ensures x <= r < x + a && r % a == 0
  {
    var q := (x + a - 1) / a;
    Bounds(x + a - 1, a);
    Quotient(a * q, a, q, 0);
    a * q
  }

  lemma Bounds(x: nat, a: nat)
    requires a > 0
    ensures a * (x / a) <= x < a * (x / a) + a
  {
  }

  /** What a packet takes in the FIFO: with its header, the least whole number of 16-byte units */
  function FifoLen(len: nat): (r: nat)
    ensures r % 16 == 0 && len + 16 <= r && forall x: nat :: x % 16 == 0 && len + 16 <= x ==> r <= x
  {
    Align(len + FIFO_HDR, FIFO_HDR)
  }

  function Sum(s: seq<nat>): nat { if s == [] then 0 else Sum(s[..|s| - 1]) + s[|s| - 1] }

  /** The FIFO's size as e1000_reset sets it for a largest frame */
  function SizeFor(maxFrame: nat): (size: nat)
    ensures size == if maxFrame > 8192 then 18 * 1024 else 10 * 1024
  {
    (PBA_40K - (if maxFrame > RXBUFFER_8192 then PBA_30K - 8 else PBA_30K)) * 0x400
  }

  /** Even the largest frame fits the FIFO with room to spare, so one subtraction is enough to
      bring the head back into it. */
  lemma LargestFits(maxFrame: nat, len: nat)
    requires len <= maxFrame <= MAX_JUMBO_FRAME_SIZE
    ensures FifoLen(len) < SizeFor(maxFrame)
  {
  }

  class Fifo {
    var maxFrame: nat
    var fifoSize: nat
    var fifoHead: nat
    var stall: bool
    var halfDuplex: bool
    /** What each packet let through since the last reset of the FIFO takes */
    ghost var passed: seq<nat>

    ghost predicate Valid()
      reads this
    {
      && maxFrame <= MAX_JUMBO_FRAME_SIZE && fifoSize == SizeFor(maxFrame)
      && fifoHead < fifoSize && fifoHead == Sum(passed) % fifoSize
    }

    constructor (maxFrame: nat)
      requires maxFrame <= MAX_JUMBO_FRAME_SIZE
      ensures Valid() && passed == [] && !stall
    {
      this.maxFrame, fifoSize, fifoHead, stall, halfDuplex, passed := maxFrame, SizeFor(maxFrame), 0, false, false, [];
    }

    /** e1000_reset, after a change of the largest frame */
    method Reset(maxFrame: nat)
      requires maxFrame <= MAX_JUMBO_FRAME_SIZE
      modifies `maxFrame, `fifoSize, `fifoHead, `stall, `passed
      ensures Valid() && this.maxFrame == maxFrame && passed == [] && !stall
    {
      this.maxFrame := maxFrame;
      var pba := PBA_30K;
      if maxFrame > RXBUFFER_8192 { pba := pba - 8; }
      fifoHead := 0;
      fifoSize := (PBA_40K - pba) * 0x400;
      stall := false;
      passed := [];
    }

    /** The link comes up in one duplex mode or the other. */
    method LinkUp(half: bool)
      requires Valid()
      modifies `halfDuplex
      ensures Valid() && halfDuplex == half
    {
      halfDuplex := half;
    }

    /** e1000_82547_fifo_workaround. The head follows the packets let through; in half duplex a
        packet let through runs over the end by less than PAD_LEN, and one held back changes
        nothing but the stall. */
    method Workaround(len: nat) returns (held: bool)
      requires Valid() && len <= maxFrame
      modifies `fifoHead, `stall, `passed
      ensures Valid()
      ensures held <==> halfDuplex && (old(stall) || old(fifoHead) + FifoLen(len) >= fifoSize + PAD_LEN)
      ensures held ==> stall && fifoHead == old(fifoHead) && passed == old(passed)
      ensures !held ==> stall == old(stall) && passed == old(passed) + [FifoLen(len)]
      ensures !held && halfDuplex ==> old(fifoHead) + FifoLen(len) - fifoSize < PAD_LEN
    {
      LargestFits(maxFrame, len);
      var fifoSpace := fifoSize - fifoHead;
      var skbFifoLen := FifoLen(len);
      if halfDuplex {
        if stall { return true; }
        if skbFifoLen >= PAD_LEN + fifoSpace {
          stall := true;
          return true;
        }
      }
      Advances(passed, skbFifoLen, fifoSize);
      passed := passed + [skbFifoLen];
      fifoHead := fifoHead + skbFifoLen;
      if fifoHead >= fifoSize { fifoHead := fifoHead - fifoSize; }
      return false;
    }

    static lemma Advances(passed: seq<nat>, len: nat, size: nat)
      requires len < size
      ensures var h := Sum(passed) % size;
              Sum(passed + [len]) % size == if h + len >= size then h + len - size else h + len
    {
      var total := passed + [len];
      assert total[..|passed|] == passed;
      var h, q := Sum(passed) % size, Sum(passed) / size;
      assert Sum(passed) == size * q + h;
      if h + len >= size {
        assert size * (q + 1) == size * q + size;
        Quotient(Sum(total), size, q + 1, h + len - size);
      } else {
        Quotient(Sum(total), size, q, h + len);
      }
    }

    /** e1000_82547_tx_fifo_stall_task: once the FIFO has run empty, its pointers are reset. */
    method StallTask(empty: bool) returns (woken: bool)
      requires Valid()
      modifies `fifoHead, `stall, `passed
      ensures Valid() && woken == (old(stall) && empty)
      ensures if woken then !stall && passed == [] && fifoHead == 0
              else stall == old(stall) && passed == old(passed) && fifoHead == old(fifoHead)
    {
      woken := false;
      if stall && empty {
        fifoHead := 0;
        stall := false;
        passed := [];
        woken := true;
      }
    }

    /** No packet is held back for ever: after the pointers have been reset any packet passes. */
    method RetryPasses(len: nat) returns (held: bool)
      requires Valid() && len <= maxFrame
      modifies `fifoHead, `stall, `passed
      ensures Valid() && !held
    {
      held := Workaround(len);
      if held {
        var woken := StallTask(true);
        LargestFits(maxFrame, len);
        held := Workaround(len);
      }
    }
  }
}
