/** The receive ring: e1000_clean_rx_irq hands received frames to the stack and
    e1000_alloc_rx_buffers gives buffers back to the hardware, which goes on receiving
    meanwhile. Any allocation may fail. */
module RxRing {
  import opened Rings

  const ERR_CE: bv8 := 0x01
  /** CRC, symbol, sequence, carrier extension and data errors */
  const FRAME_ERR_MASK: bv8 := 0x97
  const CARRIER_EXTENSION := 0x0F
  const VLAN_TAG_SIZE := 4
  const FCS_SIZE := 4
  const RX_BUFFER_WRITE := 16
  const MIN_RXD := 48

  /** What the hardware reports of one filled buffer. */
  datatype Frame = Frame(eop: bool, vlan: bool, errors: bv8, length: nat, lastByte: nat)

  datatype Config = Config(tbiCompat: bool, minFrame: nat, maxFrame: nat, rxAll: bool, rxFcs: bool)

  /** A frame handed to the stack, with the length it was given. */
  datatype Packet = Packet(frame: Frame, length: int)

  datatype Desc = Desc(addr: nat, dd: bool, frame: Frame)

  datatype Buffer = NoBuffer | Mapped(data: nat, dma: nat)

  // ----- Which frames are accepted -----

  /** TBI_ACCEPT */
  predicate TbiAccept(cfg: Config, f: Frame) {
    && cfg.tbiCompat && f.errors & FRAME_ERR_MASK == ERR_CE && f.lastByte == CARRIER_EXTENSION
    && if f.vlan then f.length > cfg.minFrame - VLAN_TAG_SIZE && f.length <= cfg.maxFrame + 1
       else f.length > cfg.minFrame && f.length <= cfg.maxFrame + VLAN_TAG_SIZE + 1
  }

  predicate Passes(cfg: Config, f: Frame) {
    f.errors & FRAME_ERR_MASK == 0 || TbiAccept(cfg, f) || cfg.rxAll
  }

  function FinalLength(cfg: Config, f: Frame): int {
    f.length - (if f.errors & FRAME_ERR_MASK != 0 && TbiAccept(cfg, f) then 1 else 0)
    - (if cfg.rxFcs then 0 else FCS_SIZE)
  }

  /** Frame `k` of a stream is a whole frame: it ends in its buffer, and so did the one before. */
  predicate Alone(frames: seq<Frame>, k: nat)
    requires k < |frames|
  {
    frames[k].eop && (k == 0 || frames[k - 1].eop)
  }

  /** The packets that a stream of buffers amounts to. */
  function Accepted(cfg: Config, frames: seq<Frame>): seq<Packet> {
    if frames == [] then [] else
      var k := |frames| - 1;
      Accepted(cfg, frames[..k])
      + if Alone(frames, k) && Passes(cfg, frames[k]) then [Packet(frames[k], FinalLength(cfg, frames[k]))] else []
  }

  /** Whether a stream ends in the middle of a frame. */
  predicate MidFrame(frames: seq<Frame>) { frames != [] && !frames[|frames| - 1].eop }

  // ----- The ring -----

  /** Slot `k` places after `i`: `filled` of the slots hold unseen frames, `posted` of them have
      been given to the hardware. */
  ghost predicate SlotOk(n: nat, ds: seq<Desc>, bs: seq<Buffer>, i: nat, k: nat, filled: nat, posted: nat,
                         unseen: seq<Frame>)
    requires |ds| == |bs| == n && i < n && k < n && |unseen| == filled
  {
    var s := Slot(i, k, n);
    && ds[s].dd == (k < filled)
    && (k < filled ==> ds[s].frame == unseen[k])
    && (k < posted ==> bs[s].Mapped? && ds[s].addr == bs[s].dma)
  }

  ghost predicate SlotsOk(n: nat, ds: seq<Desc>, bs: seq<Buffer>, i: nat, filled: nat, posted: nat,
                          unseen: seq<Frame>)
  {
    && |ds| == |bs| == n && i < n && filled <= posted < n && |unseen| == filled
    && forall k {:trigger SlotOk(n, ds, bs, i, k, filled, posted, unseen)} :: 0 <= k < n ==>
         SlotOk(n, ds, bs, i, k, filled, posted, unseen)
  }

  class RxRing {
    const cfg: Config
    const copybreak: nat
    const count: nat
    const desc: array<Desc>
    const buffers: array<Buffer>
    /** Whether each request for memory or a mapping is met */
    const memory: nat -> bool
    var requests: nat
    /** How many buffers the allocator has handed out, which numbers them, and those of them that
        packets have been built around */
    var issued: nat
    ghost var given: set<nat>
    var nextToUse: nat
    var nextToClean: nat
    var discarding: bool
    /** The head and tail registers: the hardware owns the slots from rdh up to rdt. */
    var rdh: nat
    var rdt: nat
    /** What the stack has been given */
    var delivered: seq<Packet>

    ghost var received: seq<Frame>
    ghost var consumed: nat
    ghost var posted: nat
    ghost var filled: nat
    ghost var started: bool

    ghost predicate Shape()
      reads this
    {
      && count >= MIN_RXD && desc.Length == count && buffers.Length == count
      && nextToUse < count && nextToClean < count && rdh < count && rdt < count
    }

    /** The ring as seen from slot `i`, the next to be cleaned. */
    ghost predicate RingOk(i: nat)
      reads this, desc, buffers
    {
      && Shape() && consumed + filled == |received|
      && SlotsOk(count, desc[..], buffers[..], i, filled, posted, received[consumed..])
      && rdh == Slot(i, filled, count) && nextToUse == Slot(i, posted, count)
      && (if started then filled < posted && rdt == Slot(i, posted - 1, count)
          else posted == filled == 0 && rdt == i)
    }

    /** The buffers of the ring are its own: no two slots have the same one, and no packet has been built
        around any of them. */
    ghost predicate Private()
      reads `issued, `given, buffers
    {
      && (forall s :: 0 <= s < buffers.Length && buffers[s].Mapped? ==>
            buffers[s].data < issued && buffers[s].data !in given)
      && (forall s, t :: 0 <= s < t < buffers.Length && buffers[s].Mapped? && buffers[t].Mapped? ==>
            buffers[s].data != buffers[t].data)
      && forall g :: g in given ==> g < issued
    }

    /** What the driver remembers of the frames it has consumed. */
    ghost predicate StreamOk()
      reads this
    {
      && consumed <= |received|
      && discarding == MidFrame(received[..consumed])
      && delivered == Accepted(cfg, received[..consumed])
    }

    ghost predicate Valid()
      reads this, desc, buffers
    {
      RingOk(nextToClean) && StreamOk() && Private()
    }

    constructor (cfg: Config, copybreak: nat, count: nat, memory: nat -> bool)
      requires count >= MIN_RXD
      ensures Valid() && fresh(desc) && fresh(buffers) && received == [] && !started
      ensures this.cfg == cfg && this.count == count && this.memory == memory && requests == 0
    {
      this.cfg, this.copybreak, this.count, this.memory := cfg, copybreak, count, memory;
      requests, issued, given := 0, 0, {};
      desc := new Desc[count](_ => Desc(0, false, Frame(false, false, 0, 0, 0)));
      buffers := new Buffer[count](_ => NoBuffer);
      nextToUse, nextToClean, rdh, rdt := 0, 0, 0, 0;
      discarding, delivered := false, [];
      received, consumed, posted, filled, started := [], 0, 0, 0, false;
    }

    // ----- The hardware -----

    /** The hardware fills the buffer at its head, if it owns one. */
    method Receive(f: Frame, ghost i: nat) returns (taken: bool)
      requires RingOk(i) && StreamOk()
      modifies `rdh, `received, `filled, desc
      ensures RingOk(i) && StreamOk() && taken == (old(rdh) != old(rdt))
      ensures received == old(received) + if taken then [f] else []
    {
      taken := rdh != rdt;
      if !taken { return; }
      desc[rdh] := desc[rdh].(dd := true, frame := f);
      ghost var s := rdh;
      rdh := if rdh + 1 == count then 0 else rdh + 1;
      received := received + [f];
      filled := filled + 1;
      assert received[..consumed] == old(received[..consumed]);
      Filled(count, old(desc[..]), desc[..], buffers[..], i, old(filled), posted, old(received[consumed..]), f);
      assert received[consumed..] == old(received[consumed..]) + [f];
    }

    static lemma Filled(n: nat, ds: seq<Desc>, ds': seq<Desc>, bs: seq<Buffer>, i: nat, filled: nat, posted: nat,
                        unseen: seq<Frame>, f: Frame)
      requires SlotsOk(n, ds, bs, i, filled, posted, unseen) && filled < posted
      requires var s := Slot(i, filled, n); ds' == ds[s := ds[s].(dd := true, frame := f)]
      ensures SlotsOk(n, ds', bs, i, filled + 1, posted, unseen + [f])
    {
      var more, next := unseen + [f], filled + 1;
      forall k | 0 <= k < n
        ensures SlotOk(n, ds', bs, i, k, next, posted, more)
      {
        assert SlotOk(n, ds, bs, i, k, filled, posted, unseen);
      }
    }

    // ----- e1000_alloc_rx_buffers -----

    static lemma Posted(n: nat, ds: seq<Desc>, bs: seq<Buffer>, bs': seq<Buffer>, ds': seq<Desc>, i: nat, filled: nat,
                        posted: nat, unseen: seq<Frame>)
      requires SlotsOk(n, ds, bs, i, filled, posted, unseen) && posted + 1 < n && |bs'| == |ds'| == n
      requires var s := Slot(i, posted, n);
        && bs' == bs[s := bs'[s]] && bs'[s].Mapped? && ds' == ds[s := ds[s].(addr := bs'[s].dma)]
      ensures SlotsOk(n, ds', bs', i, filled, posted + 1, unseen)
    {
      var next := posted + 1;
      forall k | 0 <= k < n
        ensures SlotOk(n, ds', bs', i, k, filled, next, unseen)
      {
        assert SlotOk(n, ds, bs, i, k, filled, posted, unseen);
      }
    }

    /** A request for memory was refused between these two. */
    ghost predicate Refused(from: nat, to: nat) { exists r: nat :: from <= r < to && !memory(r) }

    /** A request for memory or for a mapping */
    method Request() returns (ok: bool)
      modifies `requests
      ensures requests == old(requests) + 1 && ok == memory(old(requests)) && (!ok ==> Refused(old(requests), requests))
    {
      ok, requests := memory(requests), requests + 1;
    }

    /** A buffer for slot `j`: the one it still has, or a new one. Allocation, the 64 kB checks
        and the mapping may fail. */
    method Supply(j: nat) returns (ok: bool)
      requires Shape() && j < count && Private()
      modifies buffers, `requests, `issued
      ensures Private()
      ensures old(requests) <= requests && (!ok ==> Refused(old(requests), requests))
      ensures ok ==> buffers[j].Mapped? && buffers[..] == old(buffers[..])[j := buffers[j]]
      ensures !ok ==> buffers[..] == old(buffers[..]) && !buffers[j].Mapped?
    {
      if buffers[j].Mapped? { return true; }
      ok := Request();
      if !ok { return; }
      var dma: nat := *;
      buffers[j], issued := Mapped(issued, dma), issued + 1;
      return true;
    }

    /** Part way through a refill: `got` slots have been supplied from nextToUse on. */
    ghost predicate Refilling(i: nat, j: nat, got: nat)
      reads this, desc, buffers
    {
      && Shape() && consumed + filled == |received|
      && SlotsOk(count, desc[..], buffers[..], i, filled, posted + got, received[consumed..])
      && rdh == Slot(i, filled, count) && nextToUse == Slot(i, posted, count) && j == Slot(i, posted + got, count)
      && (if started then filled < posted && rdt == Slot(i, posted - 1, count)
          else posted == filled == 0 && rdt == i)
    }

    method RefillOne(ghost i: nat, j: nat, ghost got: nat) returns (ok: bool, j': nat)
      requires Refilling(i, j, got) && posted + got + 1 < count && Private()
      modifies `requests, `issued, desc, buffers
      ensures Private()
      ensures old(requests) <= requests && (!ok ==> Refused(old(requests), requests))
      ensures ok ==> Refilling(i, j', got + 1)
      ensures !ok ==> j' == j && Refilling(i, j, got) && !buffers[j].Mapped?
    {
      assert i < count && j < count;
      hide SlotsOk, Private;
      j' := j;
      ok := Supply(j);
      if ok {
        desc[j] := desc[j].(addr := buffers[j].dma);
        j' := j' + 1;
        if j' == count { j' := 0; }
        Posted(count, old(desc[..]), old(buffers[..]), buffers[..], desc[..], i, filled, posted + got,
               received[consumed..]);
      }
    }

    /** e1000_alloc_rx_buffers: gives up to `cleanedCount` buffers to the hardware, fewer if
        memory runs out. The slots refilled are the caller's to give. */
    method AllocRxBuffers(ghost i: nat, cleanedCount: nat) returns (ok: bool)
      requires RingOk(i) && StreamOk() && posted + cleanedCount < count && Private()
      modifies `requests, `issued, `nextToUse, `rdt, `posted, `started, desc, buffers
      ensures Private()
      ensures old(requests) <= requests && (!ok ==> Refused(old(requests), requests))
      ensures RingOk(i) && StreamOk() && old(posted) <= posted <= old(posted) + cleanedCount
      ensures ok ==> posted == old(posted) + cleanedCount
      ensures !ok ==> !buffers[nextToUse].Mapped?
    {
      hide SlotsOk, Accepted, MidFrame, Private;
      var j, n := nextToUse, cleanedCount;
      ghost var got: nat := 0;
      ok := true;
      while n > 0 && ok
        invariant 0 <= n && got + n == cleanedCount && posted == old(posted)
        invariant Refilling(i, j, got) && (ok || !buffers[j].Mapped?) && Private()
        invariant old(requests) <= requests && (!ok ==> Refused(old(requests), requests))
        modifies `requests, `issued, desc, buffers
        decreases n, ok
      {
        ok, j := RefillOne(i, j, got);
        if ok { got, n := got + 1, n - 1; }
      }
      PublishTail(i, j, got);
    }

    /** Moves the tail register to one slot before nextToUse. */
    method PublishTail(ghost i: nat, j: nat, ghost got: nat)
      requires Refilling(i, j, got) && posted + got < count
      modifies `nextToUse, `rdt, `posted, `started
      ensures RingOk(i) && posted == old(posted) + got && nextToUse == j
    {
      if nextToUse != j {
        nextToUse := j;
        rdt := if j == 0 then count - 1 else j - 1;
        posted, started := posted + got, true;
      }
    }

    // ----- e1000_clean_rx_irq -----

    /** E1000_DESC_UNUSED */
    function Unused(): int
      reads this
    {
      (if nextToClean > nextToUse then 0 else count) + nextToClean - nextToUse - 1
    }

    static lemma Consumed(n: nat, ds: seq<Desc>, bs: seq<Buffer>, ds': seq<Desc>, bs': seq<Buffer>, i: nat, filled: nat,
                          posted: nat, unseen: seq<Frame>)
      requires SlotsOk(n, ds, bs, i, filled, posted, unseen) && 0 < filled && |ds'| == |bs'| == n
      requires bs' == bs[i := bs'[i]] && ds' == ds[i := ds[i].(dd := false)]
      ensures SlotsOk(n, ds', bs', Slot(i, 1, n), filled - 1, posted - 1, unseen[1..])
    {
      var i', f, p, u := Slot(i, 1, n), filled - 1, posted - 1, unseen[1..];
      forall k | 0 <= k < n
        ensures SlotOk(n, ds', bs', i', k, f, p, u)
      {
        var j := if k + 1 < n then k + 1 else 0;
        assert Slot(i', k, n) == Slot(i, j, n);
        assert SlotOk(n, ds, bs, i, j, filled, posted, unseen);
      }
    }

    /** Takes the buffer at `i` for the stack: copies a short frame and keeps the buffer, or
        builds the packet around the buffer, which may fail. */
    method TakeBuffer(i: nat, length: nat) returns (ok: bool)
      requires Shape() && i < count && Private() && buffers[i].Mapped?
      modifies buffers, `requests, `given
      ensures Private()
      ensures ok ==> given == old(given) + if buffers[i] == NoBuffer then {old(buffers[i].data)} else {}
      ensures ok ==> buffers[i] == NoBuffer || (buffers[i] == old(buffers[i]) && length <= copybreak)
      ensures ok && length <= copybreak && memory(old(requests)) ==> buffers[i] == old(buffers[i])
      ensures old(requests) <= requests && (!ok ==> Refused(old(requests), requests))
      ensures ok ==> buffers[..] == old(buffers[..])[i := buffers[i]]
      ensures !ok ==> buffers[..] == old(buffers[..]) && given == old(given)
    {
      if length <= copybreak {
        ok := Request();
        if ok { return; }
      }
      ok := Request();
      if !ok { return; }
      given := given + {buffers[i].data};
      buffers[i] := NoBuffer;
      return true;
    }

    /** What the driver does with one frame, given whether it is discarding. */
    method Judge(f: Frame)
      requires StreamOk() && consumed < |received| && f == received[consumed]
      modifies `discarding, `delivered
      ensures discarding == MidFrame(received[..consumed + 1])
      ensures delivered == Accepted(cfg, received[..consumed + 1])
    {
      assert received[..consumed + 1][..consumed] == received[..consumed];
      if !f.eop { discarding := true; }
      if discarding {
        if f.eop { discarding := false; }
      } else {
        var length: int := f.length;
        var keep := true;
        if f.errors & FRAME_ERR_MASK != 0 {
          if TbiAccept(cfg, f) { length := length - 1; }
          else if !cfg.rxAll { keep := false; }
        }
        if keep {
          if !cfg.rxFcs { length := length - FCS_SIZE; }
          delivered := delivered + [Packet(f, length)];
        }
      }
    }

    /** Clears the descriptor at `i` and moves on. */
    method Retire(i: nat, ghost bs: seq<Buffer>, ghost unseen: seq<Frame>) returns (i': nat)
      requires Shape() && 0 < filled && started && consumed + filled == |received| && unseen == received[consumed..]
      requires SlotsOk(count, desc[..], bs, i, filled, posted, unseen) && buffers[..] == bs[i := buffers[i]]
      requires rdh == Slot(i, filled, count) && nextToUse == Slot(i, posted, count)
      requires filled < posted && rdt == Slot(i, posted - 1, count)
      modifies `consumed, `posted, `filled, desc
      ensures RingOk(i') && consumed == old(consumed) + 1 && posted == old(posted) - 1
    {
      desc[i] := desc[i].(dd := false);
      i' := i + 1;
      if i' == count { i' := 0; }
      Consumed(count, old(desc[..]), bs, desc[..], buffers[..], i, filled, posted, unseen);
      consumed, posted, filled := consumed + 1, posted - 1, filled - 1;
      assert received[consumed..] == unseen[1..];
    }

    /** Consumes the frame at `i`, unless its packet cannot be built. */
    method CleanOne(i: nat) returns (ok: bool, i': nat)
      requires RingOk(i) && StreamOk() && desc[i].dd && Private()
      modifies `requests, `given, `discarding, `delivered, `consumed, `posted, `filled, desc, buffers
      ensures Private() && old(given) <= given
      // the packet is built around the buffer, which leaves the ring, or is a copy of a short frame
      ensures ok ==> i < count && old(buffers[i].Mapped?)
                     && given == (old(given) + if buffers[i] == NoBuffer then {old(buffers[i].data)} else {})
                     && (buffers[i] == NoBuffer
                         || (buffers[i] == old(buffers[i]) && old(desc[i].frame.length) <= copybreak))
      ensures old(requests) <= requests && (!ok ==> Refused(old(requests), requests))
      ensures RingOk(i') && StreamOk()
      ensures !ok ==> i' == i && posted == old(posted) && consumed == old(consumed)
      ensures ok ==> posted == old(posted) - 1 && consumed == old(consumed) + 1
    {
      hide SlotsOk, Accepted, MidFrame, Private;
      ghost var bs, unseen := buffers[..], received[consumed..];
      FrontSlot(i);
      i' := i;
      var f := desc[i].frame;
      ok := TakeBuffer(i, f.length);
      if ok {
        Judge(f);
        i' := Retire(i, bs, unseen);
      }
    }

    lemma FrontSlot(i: nat)
      requires RingOk(i)
      ensures i < count && desc.Length == count && consumed + filled == |received|
      ensures filled <= posted < count && (desc[i].dd <==> filled > 0)
      ensures filled > 0 ==> buffers[i].Mapped? && consumed < |received| && desc[i].frame == received[consumed]
    {
      assert SlotOk(count, desc[..], buffers[..], i, 0, filled, posted, received[consumed..]);
    }

    /** One turn of the loop: at most one frame is consumed, another may arrive meanwhile, and
        the buffers are given back once enough of them have been used up. */
    method CleanTurn(i: nat, cleanedCount: nat, arrived: bool, f: Frame)
      returns (ok: bool, i': nat, count': nat, taken: bool)
      requires RingOk(i) && StreamOk() && desc[i].dd && posted + cleanedCount < count && Private()
      modifies `requests, `issued, `given, `nextToUse, `discarding, `delivered, `rdh, `rdt
      modifies `received, `consumed, `posted, `filled, `started, desc, buffers
      ensures old(requests) <= requests && (!ok ==> Refused(old(requests), requests))
      ensures RingOk(i') && StreamOk() && posted + count' < count && Private() && old(given) <= given
      ensures (taken ==> arrived) && received == old(received) + if taken then [f] else []
      ensures consumed == old(consumed) + if ok then 1 else 0
      // what is used up is given back before it comes to RX_BUFFER_WRITE slots
      ensures cleanedCount < RX_BUFFER_WRITE ==> count' < RX_BUFFER_WRITE
      ensures !Refused(old(requests), requests) ==> posted + count' == old(posted) + cleanedCount
    {
      hide SlotsOk, Accepted, MidFrame, RingOk, StreamOk, Private;
      count', taken := cleanedCount, false;
      ok, i' := CleanOne(i);
      if ok {
        count' := cleanedCount + 1;
        if arrived { taken := Receive(f, i'); }
        if count' >= RX_BUFFER_WRITE {
          var all := AllocRxBuffers(i', count');
          count' := 0;
        }
      }
    }

    /** e1000_clean_rx_irq, with the hardware receiving `arrivals` while it runs, one after the other
        as it has buffers for them. Whatever the
        budget and whatever fails, the ring stays sound, the stack has exactly the packets the
        consumed part of the stream amounts to, and nothing is consumed twice or skipped. */
    method CleanRxIrq(workDone0: nat, budget: nat, arrivals: seq<Frame>) returns (workDone: nat, cleaned: bool)
      requires Valid()
      modifies `requests, `issued, `given, `nextToUse, `nextToClean, `discarding, `delivered, `rdh, `rdt
      modifies `received, `consumed, `posted, `filled, `started, desc, buffers
      ensures Valid() && old(given) <= given
      ensures exists m :: 0 <= m <= |arrivals| && received == old(received) + arrivals[..m]
      ensures old(consumed) <= consumed && workDone0 <= workDone <= if budget <= workDone0 then workDone0 else budget
      ensures consumed - old(consumed) <= workDone - workDone0 <= consumed - old(consumed) + 1
      ensures cleaned == (consumed > old(consumed))
      // it stops early only for want of memory or of frames
      ensures old(requests) <= requests
      ensures workDone < budget && !Refused(old(requests), requests) ==>
                workDone - workDone0 == consumed - old(consumed) && consumed == |received|
      ensures !Refused(old(requests), requests) ==> posted == count - 1
    {
      hide SlotsOk, Accepted, MidFrame, Private, RingOk, StreamOk;
      var i: nat, cleanedCount: nat, a: nat := nextToClean, 0, 0;
      FrontSlot(i);
      workDone, cleaned := workDone0, false;
      var ok := true;
      while ok && desc[i].dd && workDone < budget
        invariant i < count == desc.Length && filled <= posted < count && (desc[i].dd <==> filled > 0)
        invariant consumed + filled == |received|
        invariant RingOk(i) && StreamOk() && posted + cleanedCount < count && Private() && old(given) <= given
        invariant a <= |arrivals| && received == old(received) + arrivals[..a] && old(consumed) <= consumed
        invariant workDone0 <= workDone && (workDone <= budget || workDone == workDone0)
        invariant consumed - old(consumed) == workDone - workDone0 - (if ok then 0 else 1)
        invariant cleaned == (consumed > old(consumed))
        invariant old(requests) <= requests && (!ok ==> Refused(old(requests), requests))
        decreases budget - workDone, ok
      {
        workDone := workDone + 1;
        var arrived := a < |arrivals|;
        var taken;
        ok, i, cleanedCount, taken :=
          CleanTurn(i, cleanedCount, arrived, if arrived then arrivals[a] else desc[i].frame);
        cleaned, a := cleaned || ok, if taken then a + 1 else a;
        FrontSlot(i);
      }
      TopUp(i);
    }

    /** The end of e1000_clean_rx_irq: every slot not posted is given back. */
    method TopUp(i: nat)
      requires RingOk(i) && StreamOk() && Private()
      modifies `requests, `issued, `nextToUse, `nextToClean, `rdt, `posted, `started, desc, buffers
      ensures Valid() && old(requests) <= requests
      ensures !Refused(old(requests), requests) ==> posted == count - 1
    {
      hide SlotsOk, Accepted, MidFrame, Private;
      FrontSlot(i);
      nextToClean := i;
      var unused := Unused();
      if unused > 0 { var all := AllocRxBuffers(i, unused); }
    }

    // ----- What the invariant means -----

    /** RDT is one slot behind nextToUse once anything has been posted. */
    lemma TailBehind()
      requires Valid() && started
      ensures nextToUse == if rdt + 1 == count then 0 else rdt + 1
    {
    }

    /** Every slot the hardware owns has a mapped buffer, whose address its descriptor holds, and a
        clear report. No packet has been built around the buffer, and no other slot has it. */
    lemma OwnedSlots(k: nat)
      requires Valid() && k < count && Owned(k)
      ensures !desc[k].dd && buffers[k].Mapped? && desc[k].addr == buffers[k].dma
      ensures buffers[k].data !in given
      ensures forall t :: 0 <= t < count && t != k && buffers[t].Mapped? ==> buffers[t].data != buffers[k].data
    {
      var j := if k >= nextToClean then k - nextToClean else k + count - nextToClean;
      assert k == Slot(nextToClean, j, count);
      assert SlotOk(count, desc[..], buffers[..], nextToClean, j, filled, posted, received[consumed..]);
    }

    /** The hardware owns the slots from its head up to, not including, its tail. */
    ghost predicate Owned(k: nat)
      reads this
    {
      if rdh <= rdt then rdh <= k < rdt else k >= rdh || k < rdt
    }

    /** Refilling never overtakes cleaning: at least one slot before nextToClean is never given
        out, and the slots holding unseen frames come before those the hardware owns. */
    lemma NeverOvertaken()
      requires Valid()
      ensures Unused() == count - 1 - posted >= 0
      ensures rdh == Slot(nextToClean, |received| - consumed, count)
    {
    }
  }

  // ----- The stream -----

  /** However a stream is cut, its parts amount to what the whole does: a part is judged by its
      own frames and whether the part before ended in the middle of one. */
  function AcceptedAfter(cfg: Config, mid: bool, frames: seq<Frame>): seq<Packet>
    decreases |frames|
  {
    if frames == [] then [] else
      (if frames[0].eop && !mid && Passes(cfg, frames[0]) then [Packet(frames[0], FinalLength(cfg, frames[0]))] else [])
      + AcceptedAfter(cfg, !frames[0].eop, frames[1..])
  }

  lemma {:induction false} CutAnywhere(cfg: Config, a: seq<Frame>, b: seq<Frame>)
    ensures Accepted(cfg, a + b) == Accepted(cfg, a) + AcceptedAfter(cfg, MidFrame(a), b)
    decreases |b|
  {
    if b == [] {
      assert a + b == a;
    } else {
      var a', k := a + [b[0]], |a|;
      assert a'[..k] == a && a' + b[1..] == a + b;
      CutAnywhere(cfg, a', b[1..]);
    }
  }

  /** A packet of the stack is a whole, acceptable frame of the stream, and every such frame is
      there. */
  lemma {:induction false} AcceptedExactly(cfg: Config, frames: seq<Frame>, p: Packet)
    ensures p in Accepted(cfg, frames) <==>
            exists k :: 0 <= k < |frames| && Alone(frames, k) && Passes(cfg, frames[k])
                        && p == Packet(frames[k], FinalLength(cfg, frames[k]))
  {
    if frames == [] {
    } else {
      var n := |frames| - 1;
      var init := frames[..n];
      AcceptedExactly(cfg, init, p);
      forall k | 0 <= k < n
        ensures Alone(init, k) == Alone(frames, k)
      {
      }
    }
  }

  // ----- What is on the wire -----

  /** A frame as sent: its payload, four CRC bytes, and the carrier extension symbol where the link
      partner added one, which makes the CRC look wrong. */
  datatype Wire = Wire(payload: seq<nat>, crc: seq<nat>, extended: bool) {
    function Bytes(): seq<nat> { payload + crc + if extended then [CARRIER_EXTENSION] else [] }
  }

  /** A frame that arrives, and what the hardware reports of the buffers it takes */
  datatype Arrival = Arrival(wire: Wire, parts: seq<Frame>)

  /** Only the last buffer of a frame ends it. A frame in one buffer is reported with its bytes. */
  ghost predicate Reported(a: Arrival) {
    && |a.wire.crc| == 4 && a.parts != []
    && (forall i :: 0 <= i < |a.parts| ==> a.parts[i].eop == (i == |a.parts| - 1))
    && (|a.parts| == 1 ==>
          var f, bytes := a.parts[0], a.wire.Bytes();
          f.length == |bytes| && f.lastByte == bytes[|bytes| - 1])
  }

  /** The errors of a frame, each by its own bit: CRC, symbol, sequence, carrier extension and data */
  predicate CrcError(f: Frame) { f.errors & 0x01 != 0 }

  predicate OtherError(f: Frame) {
    f.errors & 0x02 != 0 || f.errors & 0x04 != 0 || f.errors & 0x10 != 0 || f.errors & 0x80 != 0
  }

  /** A CRC error and no other is forgiven, where link partners are known to extend frames, if the last
      byte is the extension and the frame without it has a size to be expected: with its tag, which
      the hardware may have taken off, from the least frame up to the largest and a tag. */
  predicate Forgiven(cfg: Config, a: Arrival) {
    && a.parts != []
    && var f, bytes := a.parts[0], a.wire.Bytes();
    && cfg.tbiCompat && CrcError(f) && !OtherError(f) && bytes != [] && bytes[|bytes| - 1] == 0x0F
    && cfg.minFrame <= |bytes| - 1 + (if f.vlan then 4 else 0) <= cfg.maxFrame + 4
  }

  /** A frame is for the stack: it lies in one buffer and has no error, or a forgiven one, or errors
      are wanted. */
  predicate ForStack(cfg: Config, a: Arrival) {
    && |a.parts| == 1
    && ((!CrcError(a.parts[0]) && !OtherError(a.parts[0])) || Forgiven(cfg, a) || cfg.rxAll)
  }

  /** The bytes the stack is to have of it */
  function Data(cfg: Config, w: Wire): seq<nat> { w.payload + if cfg.rxFcs then w.crc else [] }

  function Buffers(arrivals: seq<Arrival>): seq<Frame> {
    if arrivals == [] then [] else Buffers(arrivals[..|arrivals| - 1]) + arrivals[|arrivals| - 1].parts
  }

  function Wanted(cfg: Config, arrivals: seq<Arrival>): (wanted: seq<Arrival>)
    ensures forall a :: a in wanted ==> a in arrivals && ForStack(cfg, a)
  {
    if arrivals == [] then [] else
      var n := |arrivals| - 1;
      Wanted(cfg, arrivals[..n]) + if ForStack(cfg, arrivals[n]) then [arrivals[n]] else []
  }

  lemma ErrorBits(errors: bv8)
    ensures errors & FRAME_ERR_MASK == 0 <==>
            errors & 0x01 == 0 && errors & 0x02 == 0 && errors & 0x04 == 0 && errors & 0x10 == 0 && errors & 0x80 == 0
    ensures errors & FRAME_ERR_MASK == ERR_CE <==>
            errors & 0x01 != 0 && errors & 0x02 == 0 && errors & 0x04 == 0 && errors & 0x10 == 0 && errors & 0x80 == 0
  {
  }

  /** The error rules of the driver, for a frame in one buffer */
  lemma PassesMeans(cfg: Config, a: Arrival)
    requires Reported(a) && |a.parts| == 1
    ensures TbiAccept(cfg, a.parts[0]) <==> Forgiven(cfg, a)
    ensures Passes(cfg, a.parts[0]) <==> ForStack(cfg, a)
  {
    ErrorBits(a.parts[0].errors);
  }

  /** The bytes handed over are those wanted exactly when the frame was extended just if it is
      forgiven. */
  lemma DataExactly(cfg: Config, a: Arrival)
    requires Reported(a) && ForStack(cfg, a) && |a.wire.payload| > 0
    ensures var bytes, n := a.wire.Bytes(), FinalLength(cfg, a.parts[0]);
            && 0 <= n <= |bytes|
            && (bytes[..n] == Data(cfg, a.wire) <==> (a.wire.extended <==> Forgiven(cfg, a)))
  {
    PassesMeans(cfg, a);
    ErrorBits(a.parts[0].errors);
    var bytes, n, data := a.wire.Bytes(), FinalLength(cfg, a.parts[0]), Data(cfg, a.wire);
    assert bytes[..|data|] == data;
    assert |bytes[..n]| == n;
  }

  /** The buffers of one more arrival: its packet, if it is for the stack. */
  lemma OneArrival(cfg: Config, before: seq<Frame>, a: Arrival)
    requires Reported(a) && !MidFrame(before)
    ensures !MidFrame(before + a.parts)
    ensures Accepted(cfg, before + a.parts)
            == Accepted(cfg, before)
               + if ForStack(cfg, a) then [Packet(a.parts[0], FinalLength(cfg, a.parts[0]))] else []
  {
    CutAnywhere(cfg, before, a.parts);
    var n := |a.parts| - 1;
    if n == 0 {
      PassesMeans(cfg, a);
      assert a.parts == [a.parts[0]];
    } else {
      Fragments(cfg, a.parts, false);
    }
  }

  /** The buffers of a frame that takes several amount to nothing. */
  lemma {:induction false} Fragments(cfg: Config, parts: seq<Frame>, mid: bool)
    requires parts != [] && (mid || |parts| > 1)
    requires forall i :: 0 <= i < |parts| ==> parts[i].eop == (i == |parts| - 1)
    ensures AcceptedAfter(cfg, mid, parts) == []
    decreases |parts|
  {
    if |parts| == 1 {
      assert parts[1..] == [];
    } else {
      Fragments(cfg, parts[1..], true);
    }
  }

  lemma {:induction false} Between(arrivals: seq<Arrival>)
    requires forall a :: a in arrivals ==> Reported(a)
    ensures !MidFrame(Buffers(arrivals))
  {
    if arrivals == [] {
    } else {
      var n := |arrivals| - 1;
      assert arrivals[n] in arrivals;
      Between(arrivals[..n]);
    }
  }

  /** A packet of the stack is that arrival, with the bytes wanted. */
  ghost predicate Gets(cfg: Config, packet: Packet, a: Arrival) {
    && ForStack(cfg, a) && packet.frame == a.parts[0] && 0 <= packet.length <= |a.wire.Bytes()|
    && a.wire.Bytes()[..packet.length] == Data(cfg, a.wire)
  }

  ghost predicate AllGet(cfg: Config, packets: seq<Packet>, wanted: seq<Arrival>) {
    |packets| == |wanted| && forall j :: 0 <= j < |packets| ==> Gets(cfg, packets[j], wanted[j])
  }

  /** An arrival is as reported, and if it is for the stack its sender has extended it just if that is
      forgiven. */
  ghost predicate Regular(cfg: Config, a: Arrival) {
    Reported(a) && |a.wire.payload| > 0 && (ForStack(cfg, a) ==> (a.wire.extended <==> Forgiven(cfg, a)))
  }

  lemma OneMoreGets(cfg: Config, packets: seq<Packet>, wanted: seq<Arrival>, a: Arrival)
    requires AllGet(cfg, packets, wanted) && Regular(cfg, a) && ForStack(cfg, a)
    ensures AllGet(cfg, packets + [Packet(a.parts[0], FinalLength(cfg, a.parts[0]))], wanted + [a])
  {
    DataExactly(cfg, a);
  }

  /** The stack gets exactly the arrivals that are for it, in order, each with the bytes wanted. */
  lemma {:induction false} StackGets(cfg: Config, arrivals: seq<Arrival>)
    requires forall a :: a in arrivals ==> Regular(cfg, a)
    ensures AllGet(cfg, Accepted(cfg, Buffers(arrivals)), Wanted(cfg, arrivals))
  {
    if arrivals == [] {
    } else {
      hide Accepted, AllGet, ForStack, Forgiven, MidFrame, FinalLength;
      var n := |arrivals| - 1;
      var before, a := arrivals[..n], arrivals[n];
      assert a in arrivals;
      StackGets(cfg, before);
      Between(before);
      OneArrival(cfg, Buffers(before), a);
      if ForStack(cfg, a) {
        OneMoreGets(cfg, Accepted(cfg, Buffers(before)), Wanted(cfg, before), a);
      } else {
        assert Accepted(cfg, Buffers(before)) + [] == Accepted(cfg, Buffers(before));
        assert Wanted(cfg, before) + [] == Wanted(cfg, before);
      }
    }
  }
}
