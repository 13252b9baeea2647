/** The transmit ring as the driver updates it in place: a packet is mapped into the
    buffer table, copied into the descriptor table, and reclaimed after the hardware has
    reported it (e1000_tx_map, e1000_tx_queue, e1000_xmit_frame, e1000_clean_tx_irq). */
module TxRing {
  import opened Rings
  import opened TxPacket

  datatype Kind = Context | Data

  /** A descriptor: `rs` asks for a status report, `dd` is that report. */
  datatype Desc = Desc(kind: Kind, addr: nat, len: nat, rs: bool, dd: bool)

  datatype Buffer = Buffer(skb: Option<nat>, addr: nat, len: nat, watch: nat, page: bool)

  /** One slot in flight: the packet it belongs to and how many slots of it follow. */
  datatype Cell = Cell(id: nat, toEnd: nat)

  datatype XmitResult = Sent | Busy | Dropped

  const MIN_TXD := 48
  const MAX_SKB_FRAGS := 17
  const TX_WAKE_THRESHOLD := 32

  /** The packets that end within a run of cells, in order. */
  function Ends(cells: seq<Cell>): seq<nat> {
    if cells == [] then [] else
      (if cells[0].toEnd == 0 then [cells[0].id] else []) + Ends(cells[1..])
  }

  lemma ConsEnds(cells: seq<Cell>)
    requires cells != []
    ensures Ends(cells) == (if cells[0].toEnd == 0 then [cells[0].id] else []) + Ends(cells[1..])
  {
  }

  lemma Regroup(a: seq<nat>, b: seq<nat>, c: seq<nat>)
    ensures a + (b + c) == a + b + c
  {
  }

  lemma {:induction false} EndsConcat(a: seq<Cell>, b: seq<Cell>)
    ensures Ends(a + b) == Ends(a) + Ends(b)
  {
    if a == [] {
      assert a + b == b;
    } else {
      hide Ends;
      var ab, rest := a + b, a[1..];
      EndsConcat(rest, b);
      ConsEnds(ab);
      ConsEnds(a);
      assert ab[1..] == rest + b && ab[0] == a[0];
      Regroup(if a[0].toEnd == 0 then [a[0].id] else [], Ends(rest), Ends(b));
    }
  }

  /** A cell that is not the last of its packet is followed by the next one. */
  ghost predicate Linked(cells: seq<Cell>, k: nat)
    requires k < |cells|
  {
    cells[k].toEnd > 0 ==> k + 1 < |cells| && cells[k + 1] == Cell(cells[k].id, cells[k].toEnd - 1)
  }

  /** Every packet in the run is complete. */
  ghost predicate Whole(cells: seq<Cell>) {
    forall k {:trigger Linked(cells, k)} :: 0 <= k < |cells| ==> Linked(cells, k)
  }

  /** Cell `k` is the first of its packet. */
  ghost predicate Starts(cells: seq<Cell>, k: nat)
    requires k < |cells|
  {
    k == 0 || cells[k - 1].toEnd == 0
  }

  /** The cells of a packet of `n` slots. */
  function PacketCells(id: nat, n: nat): (cells: seq<Cell>)
    ensures |cells| == n
    ensures forall k :: 0 <= k < n ==> cells[k] == Cell(id, n - 1 - k)
  {
    seq(n, k requires 0 <= k < n => Cell(id, n - 1 - k))
  }

  /** A packet ends where it says it does. */
  lemma {:induction false} WholeReach(cells: seq<Cell>, k: nat, d: nat)
    requires Whole(cells) && k < |cells| && d <= cells[k].toEnd
    ensures k + d < |cells| && cells[k + d] == Cell(cells[k].id, cells[k].toEnd - d)
  {
    if d == 0 {
    } else {
      WholeReach(cells, k, d - 1);
      assert Linked(cells, k + d - 1);
    }
  }

  /** Moving the next chunk from what is left to what is done. */
  lemma TakeChunk(r: Rules, test: nat, dma: nat, len: nat, first: bool, page: bool,
                  done: seq<Piece>, left: seq<Piece>, all: seq<Piece>)
    returns (done': seq<Piece>, left': seq<Piece>)
    requires r.Valid() && len > 0
    requires r.trim && first ==> len > 8
    requires left == Chop(r, test, dma, len, first, page) && done + left == all
    ensures var size := Chunk(r, test, len, first);
      && done' == done + [Piece(dma, size, page)] && done' + left' == all
      && left' == Chop(r, test + size, dma + size, len - size, false, page)
    ensures |done'| == |done| + 1 <= |all|
  {
    var size := Chunk(r, test, len, first);
    var p := Piece(dma, size, page);
    left' := Chop(r, test + size, dma + size, len - size, false, page);
    done' := done + [p];
    assert done + ([p] + left') == (done + [p]) + left';
  }

  /** What the tables say about one slot in flight; `end` is the slot of the packet's last. */
  ghost predicate InFlight(b: Buffer, d: Desc, cell: Cell, starts: bool, done: bool, end: nat) {
    && b.skb == (if cell.toEnd == 0 then Some(cell.id) else None)
    && d.rs == (cell.toEnd == 0)
    && d.dd == (done && cell.toEnd == 0)
    && (starts ==> b.watch == end)
  }

  ghost predicate Unowned(b: Buffer, d: Desc) { b.skb == None && !d.dd }

  ghost predicate CellAt(n: nat, bs: seq<Buffer>, ds: seq<Desc>, c: nat, flight: seq<Cell>, finished: nat, k: nat)
    requires |bs| == |ds| == n && c < n && k < |flight| < n
  {
    var s := Slot(c, k, n);
    k + flight[k].toEnd < |flight|
    && InFlight(bs[s], ds[s], flight[k], Starts(flight, k), k < finished, Slot(c, k + flight[k].toEnd, n))
  }

  ghost predicate FreeAt(n: nat, bs: seq<Buffer>, ds: seq<Desc>, c: nat, k: nat)
    requires |bs| == |ds| == n && c < n && k < n
  {
    Unowned(bs[Slot(c, k, n)], ds[Slot(c, k, n)])
  }

  /** The tables of a ring of `n` slots agree with the cells in flight behind slot `c`, of
      which the first `m` are already cleaned and the first `finished` are finished. */
  ghost predicate Tables(n: nat, bs: seq<Buffer>, ds: seq<Desc>, c: nat, flight: seq<Cell>, finished: nat, m: nat)
    requires |bs| == |ds| == n && c < n && |flight| < n
  {
    && (forall k {:trigger CellAt(n, bs, ds, c, flight, finished, k)} :: m <= k < |flight| ==>
          CellAt(n, bs, ds, c, flight, finished, k))
    && (forall k {:trigger FreeAt(n, bs, ds, c, k)} :: 0 <= k < n && !(m <= k < |flight|) ==> FreeAt(n, bs, ds, c, k))
    && (forall s :: 0 <= s < n ==> bs[s].watch < n)
  }

  lemma FragPiecesGrow(hw: Hw, mss: nat, frags: seq<Frag>, n: nat)
    requires 0 < n <= |frags|
    ensures FragPieces(hw, mss, frags, n) == FragPieces(hw, mss, frags, n - 1) + FragGroup(hw, mss, frags, n - 1)
    ensures |FragPieces(hw, mss, frags, n)| <= |FragPieces(hw, mss, frags, |frags|)|
  {
    FragPiecesMonotone(hw, mss, frags, n, |frags|);
  }

  lemma {:induction false} FragPiecesMonotone(hw: Hw, mss: nat, frags: seq<Frag>, m: nat, n: nat)
    requires m <= n <= |frags|
    ensures |FragPieces(hw, mss, frags, m)| <= |FragPieces(hw, mss, frags, n)|
  {
    if m == n {
    } else {
      FragPiecesMonotone(hw, mss, frags, m, n - 1);
    }
  }

  /** A padded packet has at least one byte, so at least one data descriptor. */
  lemma PiecesExist(hw: Hw, skb: Skb, lastTxTso: bool)
    requires Padded(skb)
    ensures |Pieces(hw, skb, lastTxTso)| > 0
    ensures |HeadPieces(hw, skb, lastTxTso)| > 0 <==> skb.headLen > 0
  {
    if skb.headLen == 0 { FragPiecesExist(hw, skb.gsoSize, skb.frags); }
  }

  lemma {:induction false} FragPiecesExist(hw: Hw, mss: nat, frags: seq<Frag>)
    requires TotalSize(frags) > 0
    ensures |FragPieces(hw, mss, frags, |frags|)| > 0
  {
    var f := PickNonEmpty(frags);
    FragPiecesGrow(hw, mss, frags, f + 1);
  }

  lemma {:induction false} PickNonEmpty(frags: seq<Frag>) returns (f: nat)
    requires TotalSize(frags) > 0
    ensures f < |frags| && frags[f].size > 0
  {
    if frags[0].size > 0 {
      f := 0;
    } else {
      f := PickNonEmpty(frags[1..]);
      f := f + 1;
    }
  }

  class TxRing {
    const count: nat
    const desc: array<Desc>
    const buffers: array<Buffer>
    var nextToUse: nat
    var nextToClean: nat
    var lastTxTso: bool
    var tdt: nat
    var stopped: bool

    /** The slots from nextToClean to nextToUse, and how many the hardware has finished. */
    ghost var flight: seq<Cell>
    ghost var finished: nat

    ghost predicate Shape()
      reads this
    {
      && count >= MIN_TXD && desc.Length == count && buffers.Length == count
      && nextToUse < count && nextToClean < count
    }

    ghost predicate Valid()
      reads this, desc, buffers
    {
      && Shape()
      && |flight| < count && Whole(flight) && finished <= |flight|
      && nextToUse == Slot(nextToClean, |flight|, count) && tdt == nextToUse
      && Tables(count, buffers[..], desc[..], nextToClean, flight, finished, 0)
    }

    constructor (count: nat)
      requires count >= MIN_TXD
      ensures Valid() && flight == [] && fresh(desc) && fresh(buffers) && this.count == count && !stopped && !lastTxTso
    {
      this.count := count;
      desc := new Desc[count](_ => Desc(Data, 0, 0, false, false));
      buffers := new Buffer[count](_ => Buffer(None, 0, 0, 0, false));
      nextToUse, nextToClean, tdt := 0, 0, 0;
      lastTxTso, stopped := false, false;
      flight, finished := [], 0;
    }

    /** E1000_DESC_UNUSED */
    function Unused(): nat
      requires Shape()
      reads this
    {
      (if nextToClean > nextToUse then 0 else count) + nextToClean - nextToUse - 1
    }

    lemma UnusedCounts()
      requires Valid()
      ensures Unused() == count - 1 - |flight|
    {
    }

    // ----- e1000_tx_map -----

    /** Slots `from` .. `from + |ps|` after `start` hold the pieces, each watching itself. */
    ghost predicate Holds(start: nat, from: nat, ps: seq<Piece>)
      requires Shape() && start < count && from + |ps| <= count
      reads this, buffers
    {
      forall k :: 0 <= k < |ps| ==>
        var s := Slot(start, from + k, count);
        buffers[s].addr == ps[k].addr && buffers[s].len == ps[k].len && buffers[s].page == ps[k].page
        && buffers[s].watch == s
    }

    /** Compared with the table `was`, only those slots have changed, and none got an skb. */
    ghost predicate OnlyMapped(was: seq<Buffer>, start: nat, from: nat, to: nat)
      requires Shape() && start < count && |was| == count
      reads this, buffers
    {
      forall k {:trigger Slot(start, k, count)} :: 0 <= k < count ==>
        var s := Slot(start, k, count);
        buffers[s].skb == was[s].skb && (from <= k < to || buffers[s] == was[s])
    }

    /** One mapped piece: the entry for `i`, which follows those of `done`. */
    method MapOne(ghost start: nat, ghost from: nat, ghost done: seq<Piece>, i: nat, p: Piece)
      requires Shape() && start < count && from + |done| < count
      requires i == Slot(start, from + |done|, count) && Holds(start, from, done)
      modifies buffers
      ensures Holds(start, from, done + [p])
      ensures forall s :: 0 <= s < count && s != i ==> buffers[s] == old(buffers[s])
      ensures buffers[i].skb == old(buffers[i]).skb
    {
      buffers[i] := buffers[i].(addr := p.addr, len := p.len, page := p.page, watch := i);
      ghost var ps := done + [p];
      forall k | 0 <= k < |ps|
        ensures var s := Slot(start, from + k, count);
          buffers[s].addr == ps[k].addr && buffers[s].len == ps[k].len && buffers[s].page == ps[k].page
          && buffers[s].watch == s
      {
        if k < |done| { assert ps[k] == done[k] && Slot(start, from + k, count) != i; }
      }
    }

    /** The size of the next descriptor of the linear area; spends the trim. */
    method HeadSize(hw: Hw, skb: Skb, maxPerTxd: nat, len: nat, offset: nat, cnt: nat, ghost was: bool)
      returns (size: nat)
      requires Padded(skb) && maxPerTxd == MaxPerTxd(skb.gsoSize) && len > 0
      requires cnt == 0 ==> len == skb.headLen && lastTxTso == was
      requires cnt > 0 ==> !TrimFirst(skb, lastTxTso)
      modifies `lastTxTso
      ensures size == Chunk(HeadRules(hw, skb, was), skb.headAddr + offset, len, cnt == 0)
      ensures lastTxTso == (old(lastTxTso) && !TrimFirst(skb, old(lastTxTso)))
    {
      ghost var r := HeadRules(hw, skb, was);
      size := Min(len, maxPerTxd);
      if skb.DataLen() == 0 && lastTxTso && !skb.IsGso() {
        lastTxTso := false;
        size := size - 4;
      }
      if skb.IsGso() && skb.frags == [] && size == len && size > 8 {
        size := size - 4;
      }
      if hw.pcix && size > PCIX_FIRST_LIMIT && cnt == 0 {
        size := PCIX_FIRST_LIMIT;
      }
      if hw.Pcix82544() && !Bit2(skb.headAddr + offset + size - 1) && size > 4 {
        size := size - 4;
      }
    }

    /** Part way through the linear area: `done` is mapped, `left` is still to come. */
    ghost predicate HeadInv(hw: Hw, skb: Skb, was: seq<Buffer>, wasTso: bool, i: nat, len: nat, offset: nat,
                            done: seq<Piece>, left: seq<Piece>)
      requires Padded(skb) && |was| == count
      reads this, buffers
    {
      var r := HeadRules(hw, skb, wasTso);
      var all := HeadPieces(hw, skb, wasTso);
      && Shape() && |all| < count && done + left == all && offset + len == skb.headLen
      && (r.trim && done == [] ==> len > 8)
      && left == Chop(r, skb.headAddr + offset, skb.headAddr + offset, len, done == [], false)
      && i == Slot(nextToUse, if len == 0 && done != [] then |done| - 1 else |done|, count)
      && (if done == [] then len == skb.headLen && lastTxTso == wasTso
          else lastTxTso == (wasTso && !TrimFirst(skb, wasTso)))
      && Holds(nextToUse, 0, done) && OnlyMapped(was, nextToUse, 0, |done|)
    }

    method HeadStep(hw: Hw, skb: Skb, maxPerTxd: nat, i: nat, len: nat, offset: nat, cnt: nat,
                    ghost was: seq<Buffer>, ghost wasTso: bool, ghost done: seq<Piece>, ghost left: seq<Piece>)
      returns (i': nat, size: nat, ghost done': seq<Piece>, ghost left': seq<Piece>)
      requires Padded(skb) && |was| == count && maxPerTxd == MaxPerTxd(skb.gsoSize) && len > 0 && cnt == |done|
      requires HeadInv(hw, skb, was, wasTso, i, len, offset, done, left)
      modifies buffers, `lastTxTso
      ensures 0 < size <= len && |done'| == cnt + 1
      ensures HeadInv(hw, skb, was, wasTso, i', len - size, offset + size, done', left')
    {
      hide HeadPieces, Chop, HeadRules;
      size := HeadSize(hw, skb, maxPerTxd, len, offset, cnt, wasTso);
      var p := Piece(skb.headAddr + offset, size, false);
      done', left' := TakeChunk(HeadRules(hw, skb, wasTso), p.addr, p.addr, len, cnt == 0, false, done, left,
                                HeadPieces(hw, skb, wasTso));
      MapOne(nextToUse, 0, done, i, p);
      assert done' == done + [p];
      i' := i;
      if len - size != 0 {
        i' := i' + 1;
        if i' == count { i' := 0; }
      }
    }

    method MapHead(hw: Hw, skb: Skb, maxPerTxd: nat) returns (i: nat, cnt: nat)
      requires Shape() && Padded(skb) && maxPerTxd == MaxPerTxd(skb.gsoSize)
      requires |HeadPieces(hw, skb, lastTxTso)| < count
      modifies buffers, `lastTxTso
      ensures cnt == |HeadPieces(hw, skb, old(lastTxTso))|
      ensures i == Slot(nextToUse, if cnt == 0 then 0 else cnt - 1, count)
      ensures Holds(nextToUse, 0, HeadPieces(hw, skb, old(lastTxTso)))
      ensures OnlyMapped(old(buffers[..]), nextToUse, 0, cnt)
      ensures lastTxTso == (old(lastTxTso) && !TrimFirst(skb, old(lastTxTso)))
    {
      ghost var done: seq<Piece>, left := [], HeadPieces(hw, skb, lastTxTso);
      var len, offset := skb.headLen, 0;
      var size: nat;
      i, cnt := nextToUse, 0;
      while len != 0
        invariant 0 <= len && 0 <= offset && cnt == |done|
        invariant HeadInv(hw, skb, old(buffers[..]), old(lastTxTso), i, len, offset, done, left)
        decreases len
      {
        i, size, done, left := HeadStep(hw, skb, maxPerTxd, i, len, offset, cnt, old(buffers[..]), old(lastTxTso),
                                        done, left);
        len, offset, cnt := len - size, offset + size, cnt + 1;
      }
      assert left == [] && done == HeadPieces(hw, skb, old(lastTxTso));
    }

    /** The size of the next descriptor of fragment `f`. */
    method FragSize(hw: Hw, mss: nat, frags: seq<Frag>, f: nat, maxPerTxd: nat, len: nat, offset: nat)
      returns (size: nat)
      requires f < |frags| && len > 0 && maxPerTxd == MaxPerTxd(mss)
      ensures size == Chunk(FragRules(hw, mss, f == |frags| - 1), frags[f].page + offset, len, false)
    {
      ghost var r := FragRules(hw, mss, f == |frags| - 1);
      size := Min(len, maxPerTxd);
      if mss != 0 && f == |frags| - 1 && size == len && size > 8 {
        size := size - 4;
      }
      var bufend := frags[f].page;
      bufend := bufend + (offset + size - 1);
      if hw.Pcix82544() && !Bit2(bufend) && size > 4 {
        size := size - 4;
      }
    }

    /** Part way through fragment `f`: the pieces `prior` came before it. */
    ghost predicate FragInv(hw: Hw, mss: nat, frags: seq<Frag>, f: nat, was: seq<Buffer>, shift: nat, i: nat,
                            len: nat, offset: nat, prior: seq<Piece>, done: seq<Piece>, left: seq<Piece>)
      requires f < |frags| && |was| == count
      reads this, buffers
    {
      var all := FragGroup(hw, mss, frags, f);
      && Shape() && shift + |prior| + |all| < count && 0 < shift + |prior|
      && done + left == all && offset + len == frags[f].size
      && left == Chop(FragRules(hw, mss, f == |frags| - 1), frags[f].page + offset,
                      frags[f].page + frags[f].pageOffset + offset, len, false, true)
      && i == Slot(nextToUse, shift + |prior + done| - 1, count)
      && Holds(nextToUse, shift, prior + done) && OnlyMapped(was, nextToUse, shift, shift + |prior + done|)
    }

    method FragStep(hw: Hw, mss: nat, frags: seq<Frag>, f: nat, maxPerTxd: nat, i: nat, len: nat, offset: nat,
                    ghost was: seq<Buffer>, ghost shift: nat, ghost prior: seq<Piece>, ghost done: seq<Piece>,
                    ghost left: seq<Piece>)
      returns (i': nat, size: nat, ghost done': seq<Piece>, ghost left': seq<Piece>)
      requires f < |frags| && |was| == count && maxPerTxd == MaxPerTxd(mss) && len > 0
      requires FragInv(hw, mss, frags, f, was, shift, i, len, offset, prior, done, left)
      modifies buffers
      ensures 0 < size <= len && |done'| == |done| + 1
      ensures FragInv(hw, mss, frags, f, was, shift, i', len - size, offset + size, prior, done', left')
    {
      i' := i + 1;
      if i' == count { i' := 0; }
      size := FragSize(hw, mss, frags, f, maxPerTxd, len, offset);
      var p := Piece(frags[f].page + frags[f].pageOffset + offset, size, true);
      done', left' := TakeChunk(FragRules(hw, mss, f == |frags| - 1), frags[f].page + offset,
                                frags[f].page + frags[f].pageOffset + offset, len, false, true, done, left,
                                FragGroup(hw, mss, frags, f));
      MapOne(nextToUse, shift, prior + done, i', p);
      assert prior + done + [p] == prior + done';
    }

    method MapFrag(hw: Hw, mss: nat, frags: seq<Frag>, f: nat, maxPerTxd: nat, i0: nat,
                   ghost was: seq<Buffer>, ghost shift: nat, ghost prior: seq<Piece>) returns (i: nat, cnt: nat)
      requires Shape() && f < |frags| && |was| == count && maxPerTxd == MaxPerTxd(mss)
      requires 0 < shift + |prior| && shift + |prior| + |FragGroup(hw, mss, frags, f)| < count
      requires i0 == Slot(nextToUse, shift + |prior| - 1, count)
      requires Holds(nextToUse, shift, prior) && OnlyMapped(was, nextToUse, shift, shift + |prior|)
      modifies buffers
      ensures cnt == |FragGroup(hw, mss, frags, f)|
      ensures i == Slot(nextToUse, shift + |prior| + cnt - 1, count)
      ensures Holds(nextToUse, shift, prior + FragGroup(hw, mss, frags, f))
      ensures OnlyMapped(was, nextToUse, shift, shift + |prior| + cnt)
    {
      ghost var done: seq<Piece>, left := [], FragGroup(hw, mss, frags, f);
      var len, offset := frags[f].size, 0;
      var size: nat;
      i, cnt := i0, 0;
      assert prior + [] == prior;
      while len != 0
        invariant 0 <= len && 0 <= offset && cnt == |done|
        invariant FragInv(hw, mss, frags, f, was, shift, i, len, offset, prior, done, left)
        decreases len
      {
        i, size, done, left := FragStep(hw, mss, frags, f, maxPerTxd, i, len, offset, was, shift, prior, done, left);
        len, offset, cnt := len - size, offset + size, cnt + 1;
      }
      assert left == [] && done == FragGroup(hw, mss, frags, f);
    }

    /** The first `f` fragments are mapped, as the pieces `sofar`. */
    ghost predicate FragsMapped(hw: Hw, mss: nat, frags: seq<Frag>, f: nat, was: seq<Buffer>, shift: nat,
                                prior: seq<Piece>, sofar: seq<Piece>, i: nat, cnt: nat)
      requires f <= |frags| && |was| == count
      reads this, buffers
    {
      && Shape() && 0 < shift + |prior| && shift + |prior| + |FragPieces(hw, mss, frags, |frags|)| < count
      && sofar == FragPieces(hw, mss, frags, f) && cnt == |sofar| <= |FragPieces(hw, mss, frags, |frags|)|
      && i == Slot(nextToUse, shift + |prior| + cnt - 1, count)
      && Holds(nextToUse, shift, prior + sofar) && OnlyMapped(was, nextToUse, shift, shift + |prior| + cnt)
    }

    method NextFrag(hw: Hw, mss: nat, frags: seq<Frag>, f: nat, maxPerTxd: nat, i: nat, cnt: nat,
                    ghost was: seq<Buffer>, ghost shift: nat, ghost prior: seq<Piece>, ghost sofar: seq<Piece>)
      returns (i': nat, cnt': nat, ghost sofar': seq<Piece>)
      requires f < |frags| && |was| == count && maxPerTxd == MaxPerTxd(mss)
      requires FragsMapped(hw, mss, frags, f, was, shift, prior, sofar, i, cnt)
      modifies buffers
      ensures FragsMapped(hw, mss, frags, f + 1, was, shift, prior, sofar', i', cnt')
    {
      hide FragPieces, FragGroup, Holds, OnlyMapped;
      FragPiecesGrow(hw, mss, frags, f + 1);
      var c;
      i', c := MapFrag(hw, mss, frags, f, maxPerTxd, i, was, shift, prior + sofar);
      assert prior + (sofar + FragGroup(hw, mss, frags, f)) == prior + sofar + FragGroup(hw, mss, frags, f);
      sofar' := sofar + FragGroup(hw, mss, frags, f);
      cnt' := cnt + c;
    }

    method MapFrags(hw: Hw, skb: Skb, maxPerTxd: nat, i0: nat,
                    ghost was: seq<Buffer>, ghost shift: nat, ghost prior: seq<Piece>) returns (i: nat, cnt: nat)
      requires Shape() && |was| == count && maxPerTxd == MaxPerTxd(skb.gsoSize)
      requires 0 < shift + |prior| && shift + |prior| + |FragPieces(hw, skb.gsoSize, skb.frags, |skb.frags|)| < count
      requires i0 == Slot(nextToUse, shift + |prior| - 1, count)
      requires Holds(nextToUse, shift, prior) && OnlyMapped(was, nextToUse, shift, shift + |prior|)
      modifies buffers
      ensures cnt == |FragPieces(hw, skb.gsoSize, skb.frags, |skb.frags|)|
      ensures i == Slot(nextToUse, shift + |prior| + cnt - 1, count)
      ensures Holds(nextToUse, shift, prior + FragPieces(hw, skb.gsoSize, skb.frags, |skb.frags|))
      ensures OnlyMapped(was, nextToUse, shift, shift + |prior| + cnt)
    {
      var frags, mss := skb.frags, skb.gsoSize;
      i, cnt := i0, 0;
      ghost var sofar: seq<Piece> := [];
      assert prior + [] == prior;
      FragPiecesMonotone(hw, mss, frags, 0, |frags|);
      for f := 0 to |frags|
        invariant FragsMapped(hw, mss, frags, f, was, shift, prior, sofar, i, cnt)
      {
        i, cnt, sofar := NextFrag(hw, mss, frags, f, maxPerTxd, i, cnt, was, shift, prior, sofar);
      }
    }

    /** The packet's pieces lie in the slots from `shift` after `start` on; its last slot holds
        the skb, the slot `first` watches that last slot, and nothing else has changed. */
    static ghost predicate Mapped(n: nat, was: seq<Buffer>, now: seq<Buffer>, start: nat, shift: nat, ps: seq<Piece>,
                                  first: nat, id: nat)
      requires |was| == |now| == n && start < n && first < n && 0 < |ps| && shift + |ps| < n
    {
      var last := Slot(start, shift + |ps| - 1, n);
      && now[first].watch == last
      && (forall k :: 0 <= k < |ps| ==>
            var s := Slot(start, shift + k, n);
            && now[s].addr == ps[k].addr && now[s].len == ps[k].len && now[s].page == ps[k].page
            && (s != first ==> now[s].watch == s)
            && now[s].skb == (if k == |ps| - 1 then Some(id) else was[s].skb))
      && (forall k {:trigger Slot(start, k, n)} :: 0 <= k < n && !(shift <= k < shift + |ps|) ==>
            var s := Slot(start, k, n);
            now[s] == if s == first then was[s].(watch := last) else was[s])
    }

    /** How far the pieces lie behind nextToUse: an empty linear area leaves one slot out. */
    static function Shift(skb: Skb): nat { if skb.headLen == 0 then 1 else 0 }

    method TxMap(hw: Hw, skb: Skb, first: nat, maxPerTxd: nat) returns (cnt: nat)
      requires Shape() && Padded(skb) && maxPerTxd == MaxPerTxd(skb.gsoSize) && first < count
      requires first == nextToUse || (first + 1 == if nextToUse == 0 then count else nextToUse)
      requires Shift(skb) + |Pieces(hw, skb, lastTxTso)| + 1 < count
      modifies buffers, `lastTxTso
      ensures cnt == |Pieces(hw, skb, old(lastTxTso))| > 0
      ensures lastTxTso == (old(lastTxTso) && !TrimFirst(skb, old(lastTxTso)))
      ensures Mapped(count, old(buffers[..]), buffers[..], nextToUse, Shift(skb), Pieces(hw, skb, old(lastTxTso)),
                     first, skb.id)
    {
      ghost var was, head, ps := buffers[..], HeadPieces(hw, skb, lastTxTso), Pieces(hw, skb, lastTxTso);
      PiecesExist(hw, skb, lastTxTso);
      var i, c;
      i, cnt := MapHead(hw, skb, maxPerTxd);
      i, c := MapFrags(hw, skb, maxPerTxd, i, was, Shift(skb), head);
      cnt := cnt + c;
      Seal(was, Shift(skb), ps, i, first, skb.id);
    }

    /** Hangs the skb on its last slot and lets its first slot watch that one. */
    method Seal(ghost was: seq<Buffer>, ghost shift: nat, ghost ps: seq<Piece>, i: nat, first: nat, id: nat)
      requires Shape() && |was| == count && first < count && 0 < |ps| && shift + |ps| < count
      requires i == Slot(nextToUse, shift + |ps| - 1, count)
      requires Holds(nextToUse, shift, ps) && OnlyMapped(was, nextToUse, shift, shift + |ps|)
      modifies buffers
      ensures Mapped(count, was, buffers[..], nextToUse, shift, ps, first, id)
    {
      buffers[i] := buffers[i].(skb := Some(id));
      buffers[first] := buffers[first].(watch := i);
    }

    // ----- e1000_tso, e1000_tx_csum, e1000_tx_queue -----

    /** The offload context takes one slot. */
    method TxContext()
      requires Shape()
      modifies `nextToUse, desc, buffers
      ensures nextToUse == Slot(old(nextToUse), 1, count)
      ensures buffers[..] == old(buffers[..])[old(nextToUse) := old(buffers[nextToUse]).(watch := old(nextToUse))]
      ensures desc[..] == old(desc[..])[old(nextToUse) := old(desc[nextToUse]).(kind := Context, rs := false)]
    {
      var i := nextToUse;
      desc[i] := desc[i].(kind := Context, rs := false);
      buffers[i] := buffers[i].(watch := i);
      i := i + 1;
      if i == count { i := 0; }
      nextToUse := i;
    }

    /** The descriptor the hardware should see for a mapped slot. */
    static function Queued(b: Buffer, last: bool): Desc {
      Desc(Data, b.addr, b.len, last, false)
    }

    /** The first `cnt` slots from `start` on are queued, and no other descriptor changed. */
    static ghost predicate QueuedSlots(n: nat, bs: seq<Buffer>, was: seq<Desc>, now: seq<Desc>, start: nat, cnt: nat,
                                       ended: bool)
      requires |bs| == |was| == |now| == n && start < n
    {
      forall k {:trigger Slot(start, k, n)} :: 0 <= k < n ==>
        var s := Slot(start, k, n);
        now[s] == if k < cnt then Queued(bs[s], ended && k == cnt - 1) else was[s]
    }

    method TxQueue(cnt: nat)
      requires Shape() && 0 < cnt < count
      modifies `nextToUse, `tdt, desc
      ensures nextToUse == tdt == Slot(old(nextToUse), cnt, count)
      ensures QueuedSlots(count, buffers[..], old(desc[..]), desc[..], old(nextToUse), cnt, true)
    {
      var i, n := nextToUse, cnt;
      var last := i;
      while n != 0
        invariant 0 <= n <= cnt && i == Slot(nextToUse, cnt - n, count)
        invariant n < cnt ==> last == Slot(nextToUse, cnt - n - 1, count)
        invariant QueuedSlots(count, buffers[..], old(desc[..]), desc[..], nextToUse, cnt - n, false)
        modifies desc
      {
        desc[i] := Desc(Data, buffers[i].addr, buffers[i].len, false, false);
        last := i;
        i := i + 1;
        if i == count { i := 0; }
        n := n - 1;
      }
      desc[last] := desc[last].(rs := true);
      nextToUse := i;
      tdt := i;
    }

    /** Descriptors `start` on show the pieces; the last one asks for a report. */
    static ghost predicate Shows(n: nat, ds: seq<Desc>, start: nat, ps: seq<Piece>)
      requires |ds| == n && start < n && |ps| < n
    {
      forall k {:trigger Slot(start, k, n)} :: 0 <= k < |ps| ==>
        ds[Slot(start, k, n)] == Desc(Data, ps[k].addr, ps[k].len, k == |ps| - 1, false)
    }

    /** What an empty linear area leads to: the first queued descriptor shows what its slot held
        before, the others show the pieces one late, and the last piece is not queued. */
    static ghost predicate Skewed(n: nat, was: seq<Buffer>, wasDesc: seq<Desc>, ds: seq<Desc>, start: nat,
                                  ps: seq<Piece>)
      requires |was| == |wasDesc| == |ds| == n && start < n && 0 < |ps| < n
    {
      && ds[start] == Desc(Data, was[start].addr, was[start].len, |ps| == 1, false)
      && (forall k {:trigger Slot(start, k, n)} :: 1 <= k < |ps| ==>
            ds[Slot(start, k, n)] == Desc(Data, ps[k - 1].addr, ps[k - 1].len, k == |ps| - 1, false))
      && ds[Slot(start, |ps|, n)] == wasDesc[Slot(start, |ps|, n)]
    }

    static lemma EmptyHeadShifts(n: nat, was: seq<Buffer>, bs: seq<Buffer>, wasDesc: seq<Desc>, ds: seq<Desc>,
                                 start: nat, ps: seq<Piece>, first: nat, id: nat)
      requires |was| == |bs| == |wasDesc| == |ds| == n && start < n && first < n && 0 < |ps| && 1 + |ps| < n
      requires Mapped(n, was, bs, start, 1, ps, first, id) && QueuedSlots(n, bs, wasDesc, ds, start, |ps|, true)
      ensures Skewed(n, was, wasDesc, ds, start, ps)
    {
      assert start == Slot(start, 0, n);
      forall k {:trigger Slot(start, k, n)} | 1 <= k < |ps|
        ensures ds[Slot(start, k, n)] == Desc(Data, ps[k - 1].addr, ps[k - 1].len, k == |ps| - 1, false)
      {
        var s := Slot(start, 1 + (k - 1), n);
        assert bs[s].addr == ps[k - 1].addr && bs[s].len == ps[k - 1].len;
      }
    }

    static lemma FullHeadShows(n: nat, was: seq<Buffer>, bs: seq<Buffer>, wasDesc: seq<Desc>, ds: seq<Desc>,
                               start: nat, ps: seq<Piece>, first: nat, id: nat)
      requires |was| == |bs| == |wasDesc| == |ds| == n && start < n && first < n && 0 < |ps| < n
      requires Mapped(n, was, bs, start, 0, ps, first, id) && QueuedSlots(n, bs, wasDesc, ds, start, |ps|, true)
      ensures Shows(n, ds, start, ps)
    {
      forall k {:trigger Slot(start, k, n)} | 0 <= k < |ps|
        ensures ds[Slot(start, k, n)] == Desc(Data, ps[k].addr, ps[k].len, k == |ps| - 1, false)
      {
        var s := Slot(start, 0 + k, n);
        assert bs[s].addr == ps[k].addr && bs[s].len == ps[k].len;
      }
    }

    /** Whatever the tables held, a packet that is mapped `shift` slots on and queued is shown. */
    static ghost predicate AlwaysShown(n: nat, start: nat, shift: nat, ps: seq<Piece>, first: nat, id: nat)
      requires start < n && first < n && 0 < |ps| && shift + |ps| < n
    {
      forall was: seq<Buffer>, bs: seq<Buffer>, wasDesc: seq<Desc>, ds: seq<Desc>
        {:trigger Mapped(n, was, bs, start, shift, ps, first, id),
                  QueuedSlots(n, bs, wasDesc, ds, start, |ps|, true)} ::
        (&& |was| == |bs| == |wasDesc| == |ds| == n && Mapped(n, was, bs, start, shift, ps, first, id)
         && QueuedSlots(n, bs, wasDesc, ds, start, |ps|, true))
        ==> Shows(n, ds, start, ps)
    }

    /** How far slot `s` lies behind `start` */
    static function Back(start: nat, s: nat, n: nat): (k: nat)
      requires start < n && s < n
      ensures k < n && Slot(start, k, n) == s
    {
      if s >= start then s - start else s + n - start
    }

    static lemma BackOf(start: nat, k: nat, n: nat)
      requires start < n && k < n
      ensures Slot(start, k, n) < n && Back(start, Slot(start, k, n), n) == k
    {
    }

    /** A buffer table after mapping behind an empty linear area */
    static function Skew(n: nat, was: seq<Buffer>, start: nat, ps: seq<Piece>, first: nat, id: nat): (bs: seq<Buffer>)
      requires |was| == n && start < n && first < n && 0 < |ps| && 1 + |ps| < n
      ensures |bs| == n
    {
      var mapped := seq(n, s requires 0 <= s < n => SkewedSlot(was[s], ps, id, Back(start, s, n), s));
      mapped[first := mapped[first].(watch := Slot(start, |ps|, n))]
    }

    static function SkewedSlot(was: Buffer, ps: seq<Piece>, id: nat, k: nat, s: nat): Buffer {
      if 1 <= k <= |ps| then
        Buffer(if k == |ps| then Some(id) else was.skb, ps[k - 1].addr, ps[k - 1].len, s, ps[k - 1].page)
      else was
    }

    static lemma SkewAt(n: nat, was: seq<Buffer>, start: nat, ps: seq<Piece>, first: nat, id: nat, k: nat)
      requires |was| == n && start < n && first < n && 0 < |ps| && 1 + |ps| < n && k < n
      ensures var s, b := Slot(start, k, n), SkewedSlot(was[Slot(start, k, n)], ps, id, k, Slot(start, k, n));
              Skew(n, was, start, ps, first, id)[s] == if s == first then b.(watch := Slot(start, |ps|, n)) else b
    {
      hide SkewedSlot;
      BackOf(start, k, n);
    }

    static ghost predicate AllSkewed(n: nat, was: seq<Buffer>, now: seq<Buffer>, start: nat, ps: seq<Piece>,
                                     first: nat, id: nat)
    {
      && |was| == |now| == n && start < n && first < n && 0 < |ps| && 1 + |ps| < n
      && now[first].watch == Slot(start, |ps|, n)
      && forall k {:trigger Slot(start, k, n)} :: 0 <= k < n ==>
           var s := Slot(start, k, n);
           now[s] == if s == first then SkewedSlot(was[s], ps, id, k, s).(watch := Slot(start, |ps|, n))
                     else SkewedSlot(was[s], ps, id, k, s)
    }

    static lemma SkewAll(n: nat, was: seq<Buffer>, start: nat, ps: seq<Piece>, first: nat, id: nat)
      requires |was| == n && start < n && first < n && 0 < |ps| && 1 + |ps| < n
      ensures AllSkewed(n, was, Skew(n, was, start, ps, first, id), start, ps, first, id)
    {
      hide Skew, SkewedSlot;
      forall k {:trigger Slot(start, k, n)} | 0 <= k < n
        ensures var s, now := Slot(start, k, n), Skew(n, was, start, ps, first, id);
          now[s] == if s == first then SkewedSlot(was[s], ps, id, k, s).(watch := Slot(start, |ps|, n))
                    else SkewedSlot(was[s], ps, id, k, s)
      {
        SkewAt(n, was, start, ps, first, id, k);
      }
      SkewAt(n, was, start, ps, first, id, Back(start, first, n));
    }

    static lemma SkewMapped(n: nat, was: seq<Buffer>, now: seq<Buffer>, start: nat, ps: seq<Piece>, first: nat, id: nat)
      requires AllSkewed(n, was, now, start, ps, first, id)
      ensures Mapped(n, was, now, start, 1, ps, first, id)
    {
    }

    /** A table with other contents at `start`, and what that mapping makes of it */
    static lemma SkewedTable(n: nat, start: nat, ps: seq<Piece>, first: nat, id: nat)
      returns (was: seq<Buffer>, bs: seq<Buffer>)
      requires start < n && first < n && 0 < |ps| && 1 + |ps| < n
      ensures |was| == |bs| == n && Mapped(n, was, bs, start, 1, ps, first, id) && was[start].addr != ps[0].addr
    {
      hide Mapped, Skew, AllSkewed;
      was := seq(n, _ => Buffer(None, ps[0].addr + 1, 0, 0, false));
      bs := Skew(n, was, start, ps, first, id);
      SkewAll(n, was, start, ps, first, id);
      SkewMapped(n, was, bs, start, ps, first, id);
    }

    static lemma QueueOf(n: nat, bs: seq<Buffer>, start: nat, cnt: nat) returns (was: seq<Desc>, ds: seq<Desc>)
      requires |bs| == n && start < n
      ensures |was| == |ds| == n && QueuedSlots(n, bs, was, ds, start, cnt, true)
    {
      was := seq(n, _ => Desc(Data, 0, 0, false, false));
      ds := seq(n, s requires 0 <= s < n =>
        var k := Back(start, s, n);
        if k < cnt then Queued(bs[s], k == cnt - 1) else was[s]);
      forall k | 0 <= k < n
        ensures Slot(start, k, n) < n && Back(start, Slot(start, k, n), n) == k
      {
        BackOf(start, k, n);
      }
    }

    /** The queued descriptors show the packet, whatever the tables held before, if and only if its
        linear area is not empty. */
    static lemma ShownExactly(n: nat, start: nat, hw: Hw, skb: Skb, lastTxTso: bool, first: nat)
      requires Padded(skb) && start < n && first < n
      requires 0 < |Pieces(hw, skb, lastTxTso)| && 1 + |Pieces(hw, skb, lastTxTso)| < n
      ensures AlwaysShown(n, start, Shift(skb), Pieces(hw, skb, lastTxTso), first, skb.id) <==> skb.headLen > 0
    {
      var ps, id := Pieces(hw, skb, lastTxTso), skb.id;
      hide Mapped, QueuedSlots, Pieces;
      if skb.headLen > 0 {
        forall was: seq<Buffer>, bs: seq<Buffer>, wasDesc: seq<Desc>, ds: seq<Desc>
          | |was| == |bs| == |wasDesc| == |ds| == n && Mapped(n, was, bs, start, 0, ps, first, id)
            && QueuedSlots(n, bs, wasDesc, ds, start, |ps|, true)
          ensures Shows(n, ds, start, ps)
        {
          FullHeadShows(n, was, bs, wasDesc, ds, start, ps, first, id);
        }
      } else {
        var was, bs := SkewedTable(n, start, ps, first, id);
        var wasDesc, ds := QueueOf(n, bs, start, |ps|);
        EmptyHeadShifts(n, was, bs, wasDesc, ds, start, ps, first, id);
        assert start == Slot(start, 0, n);
      }
    }

    // ----- e1000_xmit_frame -----

    /** The reservation, counted as the driver counts it. */
    method CountDescriptors(hw: Hw, skb: Skb, len: nat) returns (cnt: nat)
      ensures cnt == Estimate(hw, skb, len, lastTxTso)
    {
      hide MaxTxdPwr, UseCount;
      var pwr := MaxTxdPwr(skb.gsoSize);
      cnt := 0;
      if skb.IsGso() || skb.csumPartial { cnt := cnt + 1; }
      cnt := cnt + 1;
      if skb.DataLen() == 0 && lastTxTso && !skb.IsGso() { cnt := cnt + 1; }
      cnt := cnt + UseCount(len, pwr);
      if hw.Pcix82544() { cnt := cnt + 1; }
      if hw.pcix && len > PCIX_FIRST_LIMIT { cnt := cnt + 1; }
      ghost var fixed := cnt;
      for f := 0 to |skb.frags|
        invariant cnt == fixed + FragEstimate(skb.gsoSize, skb.frags, f)
      {
        cnt := cnt + UseCount(skb.frags[f].size, pwr);
      }
      if hw.Pcix82544() { cnt := cnt + |skb.frags|; }
    }

    /** e1000_maybe_stop_tx, run without interruption */
    method MaybeStopTx(size: nat) returns (busy: bool)
      requires Shape()
      modifies `stopped
      ensures busy == (Unused() < size)
      ensures stopped == (old(stopped) || busy)
    {
      if Unused() >= size { return false; }
      stopped := true;
      busy := Unused() < size;
      stopped := busy;
    }

    /** What a packet of `n` slots written from `first` on leaves in the tables. */
    static ghost predicate Written(size: nat, wasBuffers: seq<Buffer>, wasDesc: seq<Desc>, bs: seq<Buffer>,
                                   ds: seq<Desc>, first: nat, n: nat, id: nat)
      requires |wasBuffers| == |wasDesc| == |bs| == |ds| == size && first < size && 0 < n < size
    {
      && (forall k {:trigger Slot(first, k, size)} :: 0 <= k < n ==>
            var s := Slot(first, k, size);
            && bs[s].skb == (if k == n - 1 then Some(id) else None)
            && ds[s].rs == (k == n - 1) && !ds[s].dd && bs[s].watch < size
            && (k == 0 ==> bs[s].watch == Slot(first, n - 1, size)))
      && (forall k {:trigger Slot(first, k, size)} :: n <= k < size ==>
            var s := Slot(first, k, size);
            bs[s] == wasBuffers[s] && ds[s] == wasDesc[s])
    }

    /** The premises under which a written packet joins what is in flight. */
    static ghost predicate Joining(n: nat, was: seq<Buffer>, wasDesc: seq<Desc>, bs: seq<Buffer>, ds: seq<Desc>,
                                   c: nat, before: seq<Cell>, finished: nat, len: nat, id: nat)
    {
      && |was| == |wasDesc| == |bs| == |ds| == n && c < n && 0 < len && |before| + len < n
      && Whole(before) && finished <= |before| && Tables(n, was, wasDesc, c, before, finished, 0)
      && Written(n, was, wasDesc, bs, ds, Slot(c, |before|, n), len, id)
    }

    static lemma JoinedWhole(before: seq<Cell>, id: nat, len: nat)
      requires Whole(before)
      ensures Whole(before + PacketCells(id, len))
    {
      var all := before + PacketCells(id, len);
      forall k | 0 <= k < |all|
        ensures Linked(all, k)
      {
        if k < |before| { assert Linked(before, k); }
      }
    }

    static lemma JoinedOld(n: nat, was: seq<Buffer>, wasDesc: seq<Desc>, bs: seq<Buffer>, ds: seq<Desc>,
                           c: nat, before: seq<Cell>, finished: nat, len: nat, id: nat, k: nat)
      requires Joining(n, was, wasDesc, bs, ds, c, before, finished, len, id) && k < |before|
      ensures CellAt(n, bs, ds, c, before + PacketCells(id, len), finished, k)
      ensures bs[Slot(c, k, n)] == was[Slot(c, k, n)] && ds[Slot(c, k, n)] == wasDesc[Slot(c, k, n)]
    {
      var m := |before|;
      assert Slot(c, k, n) == Slot(Slot(c, m, n), n - m + k, n);
      assert CellAt(n, was, wasDesc, c, before, finished, k);
    }

    static lemma JoinedNew(n: nat, was: seq<Buffer>, wasDesc: seq<Desc>, bs: seq<Buffer>, ds: seq<Desc>,
                           c: nat, before: seq<Cell>, finished: nat, len: nat, id: nat, k: nat)
      requires Joining(n, was, wasDesc, bs, ds, c, before, finished, len, id) && |before| <= k < |before| + len
      ensures CellAt(n, bs, ds, c, before + PacketCells(id, len), finished, k)
    {
      var m, all := |before|, before + PacketCells(id, len);
      assert Slot(c, k, n) == Slot(Slot(c, m, n), k - m, n);
      assert Slot(c, m + len - 1, n) == Slot(Slot(c, m, n), len - 1, n);
      assert all[k] == Cell(id, len - 1 - (k - m));
    }

    static lemma JoinedRest(n: nat, was: seq<Buffer>, wasDesc: seq<Desc>, bs: seq<Buffer>, ds: seq<Desc>,
                            c: nat, before: seq<Cell>, finished: nat, len: nat, id: nat)
      requires Joining(n, was, wasDesc, bs, ds, c, before, finished, len, id)
      ensures forall k :: |before| + len <= k < n ==> FreeAt(n, bs, ds, c, k)
      ensures forall s :: 0 <= s < n ==> bs[s].watch < n
    {
      var m, first := |before|, Slot(c, |before|, n);
      forall k | m + len <= k < n
        ensures FreeAt(n, bs, ds, c, k)
      {
        assert FreeAt(n, was, wasDesc, c, k);
        assert Slot(c, k, n) == Slot(first, k - m, n);
      }
      forall s | 0 <= s < n
        ensures bs[s].watch < n
      {
        var k := if s >= first then s - first else s + n - first;
        assert s == Slot(first, k, n);
      }
    }

    /** A written packet joins what is in flight. */
    static lemma Joined(n: nat, was: seq<Buffer>, wasDesc: seq<Desc>, bs: seq<Buffer>, ds: seq<Desc>,
                        c: nat, before: seq<Cell>, finished: nat, len: nat, id: nat)
      requires Joining(n, was, wasDesc, bs, ds, c, before, finished, len, id)
      ensures Whole(before + PacketCells(id, len))
      ensures Tables(n, bs, ds, c, before + PacketCells(id, len), finished, 0)
    {
      var m, flight := |before|, before + PacketCells(id, len);
      JoinedWhole(before, id, len);
      forall k | 0 <= k < |flight|
        ensures CellAt(n, bs, ds, c, flight, finished, k)
      {
        if k < m { JoinedOld(n, was, wasDesc, bs, ds, c, before, finished, len, id, k); }
        else { JoinedNew(n, was, wasDesc, bs, ds, c, before, finished, len, id, k); }
      }
      JoinedRest(n, was, wasDesc, bs, ds, c, before, finished, len, id);
    }

    /** The `k` slots from `first` on are unused. */
    static ghost predicate FreeFrom(n: nat, was: seq<Buffer>, wasDesc: seq<Desc>, first: nat, k: nat) {
      && |was| == |wasDesc| == n && first < n && k <= n
      && forall j {:trigger Slot(first, j, n)} :: 0 <= j < k ==>
           was[Slot(first, j, n)].skb == None && !wasDesc[Slot(first, j, n)].dd
    }

    /** The offload context, if the packet needs one. */
    method Begin(hw: Hw, skb: Skb) returns (c: nat)
      requires Shape()
      modifies `nextToUse, `lastTxTso, desc, buffers
      ensures c == Flag(skb.NeedsContext()) && nextToUse == Slot(old(nextToUse), c, count)
      ensures buffers[..] == if c == 0 then old(buffers[..])
                             else old(buffers[..])[old(nextToUse) := old(buffers[nextToUse]).(watch := old(nextToUse))]
      ensures desc[..] == if c == 0 then old(desc[..])
                          else old(desc[..])[old(nextToUse) := old(desc[nextToUse]).(kind := Context, rs := false)]
      ensures lastTxTso == (old(lastTxTso) || (skb.IsGso() && !hw.mac82544))
    {
      c := 0;
      if skb.NeedsContext() {
        TxContext();
        c := 1;
        if skb.IsGso() && !hw.mac82544 { lastTxTso := true; }
      }
    }

    /** The context and the mapping of a packet. */
    method MapPacket(hw: Hw, skb: Skb) returns (c: nat, cnt: nat, ghost ps: seq<Piece>, ghost mid: seq<Buffer>)
      requires Shape() && Padded(skb) && Shift(skb) + Used(hw, skb, lastTxTso) + 1 < count
      modifies `nextToUse, `lastTxTso, desc, buffers
      ensures ps == Pieces(hw, skb, old(lastTxTso)) && cnt == |ps| > 0 && c == Flag(skb.NeedsContext())
      ensures nextToUse == Slot(old(nextToUse), c, count)
      ensures mid == if c == 0 then old(buffers[..])
                     else old(buffers[..])[old(nextToUse) := old(buffers[nextToUse]).(watch := old(nextToUse))]
      ensures desc[..] == if c == 0 then old(desc[..])
                          else old(desc[..])[old(nextToUse) := old(desc[nextToUse]).(kind := Context, rs := false)]
      ensures Mapped(count, mid, buffers[..], nextToUse, Shift(skb), ps, old(nextToUse), skb.id)
      ensures lastTxTso == if skb.IsGso() then old(lastTxTso) || !hw.mac82544
                           else old(lastTxTso) && !TrimFirst(skb, old(lastTxTso))
    {
      var first := nextToUse;
      c := Begin(hw, skb);
      mid := buffers[..];
      SamePieces(hw, skb, old(lastTxTso), lastTxTso);
      ps := Pieces(hw, skb, lastTxTso);
      cnt := TxMap(hw, skb, first, MaxPerTxd(skb.gsoSize));
    }

    /** What a packet of these pieces leaves in the tables from `first` on. */
    static ghost predicate Filled(n: nat, was: seq<Buffer>, wasDesc: seq<Desc>, bs: seq<Buffer>, ds: seq<Desc>,
                                  first: nat, skb: Skb, ps: seq<Piece>)
    {
      var c := Flag(skb.NeedsContext());
      && |was| == |wasDesc| == |bs| == |ds| == n && first < n && 0 < |ps| && c + |ps| < n
      && if skb.headLen > 0 then
           && Written(n, was, wasDesc, bs, ds, first, c + |ps|, skb.id)
           && (c == 1 ==> ds[first].kind == Context && !ds[first].rs)
           && Shows(n, ds, Slot(first, c, n), ps)
         else Skewed(n, was, wasDesc, ds, Slot(first, c, n), ps)
    }

    /** The context, the mapping and the queueing of a packet, in the driver's order. */
    method FillTables(hw: Hw, skb: Skb) returns (used: nat, ghost ps: seq<Piece>)
      requires Shape() && Padded(skb)
      requires Shift(skb) + Used(hw, skb, lastTxTso) + 1 < count
      modifies `nextToUse, `tdt, `lastTxTso, desc, buffers
      ensures Shape() && ps == Pieces(hw, skb, old(lastTxTso)) && used == Flag(skb.NeedsContext()) + |ps|
      ensures 0 < |ps| && used + 1 < count && nextToUse == tdt == Slot(old(nextToUse), used, count)
      ensures FreeFrom(count, old(buffers[..]), old(desc[..]), old(nextToUse), used) ==>
                Filled(count, old(buffers[..]), old(desc[..]), buffers[..], desc[..], old(nextToUse), skb, ps)
      ensures skb.headLen > 0 ==>
                Shows(count, desc[..], Slot(old(nextToUse), Flag(skb.NeedsContext()), count), ps)
      ensures lastTxTso == if skb.IsGso() then old(lastTxTso) || !hw.mac82544
                           else old(lastTxTso) && !TrimFirst(skb, old(lastTxTso))
    {
      hide Mapped, QueuedSlots, Filled, Shows, Pieces, FreeFrom;
      ghost var was, wasDesc := buffers[..], desc[..];
      var first := nextToUse;
      var c, cnt;
      ghost var mid;
      c, cnt, ps, mid := MapPacket(hw, skb);
      ghost var midDesc := desc[..];
      TxQueue(cnt);
      Leaves(count, was, wasDesc, mid, midDesc, buffers[..], desc[..], first, skb, ps);
      used := c + cnt;
    }

    /** The ring has room for the packet. */
    ghost predicate Room(hw: Hw, skb: Skb)
      requires Padded(skb)
      reads this
    {
      |flight| + Shift(skb) + Used(hw, skb, lastTxTso) + 1 < count
    }

    /** With room, a packet with a linear area joins those in flight, whole. With an empty one the
        ring is left skewed. */
    method Transmit(hw: Hw, skb: Skb) returns (used: nat)
      requires Valid() && Padded(skb) && Shift(skb) + Used(hw, skb, lastTxTso) + 1 < count
      requires skb.headLen == 0 ==> Room(hw, skb)
      modifies `nextToUse, `tdt, `lastTxTso, `flight, desc, buffers
      ensures used == Used(hw, skb, old(lastTxTso)) && Shape()
      ensures flight == old(flight) + if skb.headLen > 0 && old(Room(hw, skb)) then PacketCells(skb.id, used) else []
      ensures 0 < |Pieces(hw, skb, old(lastTxTso))| < count && nextToUse == tdt == Slot(old(nextToUse), used, count)
      ensures skb.headLen > 0 ==>
                Shows(count, desc[..], Slot(old(nextToUse), Flag(skb.NeedsContext()), count),
                      Pieces(hw, skb, old(lastTxTso)))
      ensures skb.headLen > 0 && old(Room(hw, skb)) ==>
                && Valid()
                && (skb.NeedsContext() ==> desc[old(nextToUse)].kind == Context && !desc[old(nextToUse)].rs)
      ensures skb.headLen == 0 ==>
                Skewed(count, old(buffers[..]), old(desc[..]), desc[..],
                       Slot(old(nextToUse), Flag(skb.NeedsContext()), count), Pieces(hw, skb, old(lastTxTso)))
      ensures lastTxTso == if skb.IsGso() then old(lastTxTso) || !hw.mac82544
                           else old(lastTxTso) && !TrimFirst(skb, old(lastTxTso))
      ensures skb.headLen > 0 && old(Room(hw, skb)) ==>
                forall k {:trigger Slot(nextToClean, k, count)} :: 0 <= k < |old(flight)| ==>
                  var s := Slot(nextToClean, k, count); desc[s] == old(desc[s]) && buffers[s] == old(buffers[s])
    {
      hide Written, Shows, Skewed, Pieces;
      ghost var was, wasDesc, before, first := buffers[..], desc[..], flight, nextToUse;
      ghost var room := Room(hw, skb);
      if room { FreeAhead(Used(hw, skb, lastTxTso)); }
      ghost var ps;
      used, ps := FillTables(hw, skb);
      assert flight + [] == flight;
      if skb.headLen > 0 && room {
        flight := flight + PacketCells(skb.id, used);
        Joined(count, was, wasDesc, buffers[..], desc[..], nextToClean, before, finished, used, skb.id);
        forall k {:trigger Slot(nextToClean, k, count)} | 0 <= k < |before|
          ensures var s := Slot(nextToClean, k, count); desc[s] == wasDesc[s] && buffers[s] == was[s]
        {
          JoinedOld(count, was, wasDesc, buffers[..], desc[..], nextToClean, before, finished, used, skb.id, k);
        }
      }
    }

    /** For a packet that needs no trim, the flag does not matter. */
    static lemma SamePieces(hw: Hw, skb: Skb, a: bool, b: bool)
      requires Padded(skb) && (a == b || skb.IsGso())
      ensures Pieces(hw, skb, a) == Pieces(hw, skb, b)
      ensures skb.IsGso() ==> !TrimFirst(skb, a) && !TrimFirst(skb, b)
    {
    }

    /** The slots from nextToUse on, up to nextToClean, are free. */
    lemma FreeAhead(n: nat)
      requires Valid() && n <= count - |flight|
      ensures FreeFrom(count, buffers[..], desc[..], nextToUse, n)
    {
      forall k {:trigger Slot(nextToUse, k, count)} | 0 <= k < n
        ensures buffers[Slot(nextToUse, k, count)].skb == None && !desc[Slot(nextToUse, k, count)].dd
      {
        assert Slot(nextToUse, k, count) == Slot(nextToClean, |flight| + k, count);
        assert FreeAt(count, buffers[..], desc[..], nextToClean, |flight| + k);
      }
    }

    /** What holds when context, mapping and queueing are through. */
    static ghost predicate Through(n: nat, was: seq<Buffer>, wasDesc: seq<Desc>, mid: seq<Buffer>, midDesc: seq<Desc>,
                                   bs: seq<Buffer>, ds: seq<Desc>, first: nat, c: nat, shift: nat, ps: seq<Piece>,
                                   id: nat)
    {
      && |was| == |wasDesc| == |mid| == |midDesc| == |bs| == |ds| == n && first < n
      && c <= 1 && 0 < |ps| && c + shift + |ps| < n
      && (forall k {:trigger Slot(first, k, n)} :: 0 <= k < c + |ps| ==>
            was[Slot(first, k, n)].skb == None && !wasDesc[Slot(first, k, n)].dd)
      && mid == (if c == 0 then was else was[first := was[first].(watch := first)])
      && midDesc == (if c == 0 then wasDesc else wasDesc[first := wasDesc[first].(kind := Context, rs := false)])
      && Mapped(n, mid, bs, Slot(first, c, n), shift, ps, first, id)
      && QueuedSlots(n, bs, midDesc, ds, Slot(first, c, n), |ps|, true)
    }

    static lemma IsThrough(n: nat, was: seq<Buffer>, wasDesc: seq<Desc>, mid: seq<Buffer>, midDesc: seq<Desc>,
                           bs: seq<Buffer>, ds: seq<Desc>, first: nat, c: nat, shift: nat, ps: seq<Piece>, id: nat)
      requires |was| == |wasDesc| == |mid| == |midDesc| == |bs| == |ds| == n && first < n
      requires c <= 1 && 0 < |ps| && c + shift + |ps| < n
      requires forall k {:trigger Slot(first, k, n)} :: 0 <= k < c + |ps| ==>
                 was[Slot(first, k, n)].skb == None && !wasDesc[Slot(first, k, n)].dd
      requires mid == if c == 0 then was else was[first := was[first].(watch := first)]
      requires midDesc == if c == 0 then wasDesc else wasDesc[first := wasDesc[first].(kind := Context, rs := false)]
      requires Mapped(n, mid, bs, Slot(first, c, n), shift, ps, first, id)
      requires QueuedSlots(n, bs, midDesc, ds, Slot(first, c, n), |ps|, true)
      ensures Through(n, was, wasDesc, mid, midDesc, bs, ds, first, c, shift, ps, id)
    {
    }

    static lemma ThroughFits(n: nat, was: seq<Buffer>, wasDesc: seq<Desc>, mid: seq<Buffer>, midDesc: seq<Desc>,
                             bs: seq<Buffer>, ds: seq<Desc>, first: nat, c: nat, shift: nat, ps: seq<Piece>, id: nat)
      requires Through(n, was, wasDesc, mid, midDesc, bs, ds, first, c, shift, ps, id)
      ensures |was| == |wasDesc| == |bs| == |ds| == n && first < n && 0 < |ps| && c + shift + |ps| < n
    {
    }

    /** One data slot, `k` places into the packet. */
    static lemma WrittenData(n: nat, was: seq<Buffer>, wasDesc: seq<Desc>, mid: seq<Buffer>, midDesc: seq<Desc>,
                             bs: seq<Buffer>, ds: seq<Desc>, first: nat, c: nat, ps: seq<Piece>, id: nat, k: nat)
      requires Through(n, was, wasDesc, mid, midDesc, bs, ds, first, c, 0, ps, id) && c <= k < c + |ps|
      ensures var s := Slot(first, k, n);
        && bs[s].skb == (if k == c + |ps| - 1 then Some(id) else None)
        && ds[s] == Desc(Data, ps[k - c].addr, ps[k - c].len, k == c + |ps| - 1, false) && bs[s].watch < n
        && (k == 0 ==> bs[s].watch == Slot(first, c + |ps| - 1, n))
    {
      var start, s := Slot(first, c, n), Slot(first, k, n);
      var p := ps[k - c];
      assert s == Slot(start, 0 + (k - c), n) && bs[s].addr == p.addr;
    }

    /** The context slot. */
    static lemma WrittenContext(n: nat, was: seq<Buffer>, wasDesc: seq<Desc>, mid: seq<Buffer>, midDesc: seq<Desc>,
                                bs: seq<Buffer>, ds: seq<Desc>, first: nat, ps: seq<Piece>, id: nat)
      requires Through(n, was, wasDesc, mid, midDesc, bs, ds, first, 1, 0, ps, id)
      ensures bs[first].skb == None && bs[first].watch == Slot(first, |ps|, n)
      ensures ds[first].kind == Context && !ds[first].rs && !ds[first].dd
    {
      var start := Slot(first, 1, n);
      assert first == Slot(start, n - 1, n) && first == Slot(first, 0, n);
      assert Slot(first, |ps|, n) == Slot(start, |ps| - 1, n);
    }

    /** A slot behind the packet. */
    static lemma WrittenRest(n: nat, was: seq<Buffer>, wasDesc: seq<Desc>, mid: seq<Buffer>, midDesc: seq<Desc>,
                             bs: seq<Buffer>, ds: seq<Desc>, first: nat, c: nat, ps: seq<Piece>, id: nat, k: nat)
      requires Through(n, was, wasDesc, mid, midDesc, bs, ds, first, c, 0, ps, id) && c + |ps| <= k < n
      ensures var s := Slot(first, k, n); bs[s] == was[s] && ds[s] == wasDesc[s]
    {
      assert Slot(first, k, n) == Slot(Slot(first, c, n), k - c, n);
    }

    /** Context, mapping and queueing together write the packet. */
    static lemma WrittenBy(n: nat, was: seq<Buffer>, wasDesc: seq<Desc>, mid: seq<Buffer>, midDesc: seq<Desc>,
                           bs: seq<Buffer>, ds: seq<Desc>, first: nat, c: nat, ps: seq<Piece>, id: nat)
      requires Through(n, was, wasDesc, mid, midDesc, bs, ds, first, c, 0, ps, id)
      ensures Written(n, was, wasDesc, bs, ds, first, c + |ps|, id)
      ensures Shows(n, ds, Slot(first, c, n), ps)
      ensures c == 1 ==> ds[first].kind == Context && !ds[first].rs
    {
      if c == 1 { WrittenContext(n, was, wasDesc, mid, midDesc, bs, ds, first, ps, id); }
      forall k {:trigger Slot(first, k, n)} | 0 <= k < c + |ps|
        ensures var s := Slot(first, k, n);
          && bs[s].skb == (if k == c + |ps| - 1 then Some(id) else None)
          && ds[s].rs == (k == c + |ps| - 1) && !ds[s].dd && bs[s].watch < n
          && (k == 0 ==> bs[s].watch == Slot(first, c + |ps| - 1, n))
      {
        if k >= c { WrittenData(n, was, wasDesc, mid, midDesc, bs, ds, first, c, ps, id, k); }
      }
      forall k {:trigger Slot(first, k, n)} | c + |ps| <= k < n
        ensures var s := Slot(first, k, n); bs[s] == was[s] && ds[s] == wasDesc[s]
      {
        WrittenRest(n, was, wasDesc, mid, midDesc, bs, ds, first, c, ps, id, k);
      }
      forall k {:trigger Slot(Slot(first, c, n), k, n)} | 0 <= k < |ps|
        ensures ds[Slot(Slot(first, c, n), k, n)] == Desc(Data, ps[k].addr, ps[k].len, k == |ps| - 1, false)
      {
        assert Slot(Slot(first, c, n), k, n) == Slot(first, c + k, n);
        WrittenData(n, was, wasDesc, mid, midDesc, bs, ds, first, c, ps, id, c + k);
      }
    }

    /** What context, mapping and queueing leave: the packet is shown, and on free slots it is whole. */
    static lemma Leaves(n: nat, was: seq<Buffer>, wasDesc: seq<Desc>, mid: seq<Buffer>, midDesc: seq<Desc>,
                        bs: seq<Buffer>, ds: seq<Desc>, first: nat, skb: Skb, ps: seq<Piece>)
      requires |was| == |wasDesc| == |mid| == |midDesc| == |bs| == |ds| == n && first < n
      requires 0 < |ps| && Flag(skb.NeedsContext()) + Shift(skb) + |ps| < n
      requires mid == if Flag(skb.NeedsContext()) == 0 then was else was[first := was[first].(watch := first)]
      requires midDesc == if Flag(skb.NeedsContext()) == 0 then wasDesc
                          else wasDesc[first := wasDesc[first].(kind := Context, rs := false)]
      requires Mapped(n, mid, bs, Slot(first, Flag(skb.NeedsContext()), n), Shift(skb), ps, first, skb.id)
      requires QueuedSlots(n, bs, midDesc, ds, Slot(first, Flag(skb.NeedsContext()), n), |ps|, true)
      ensures FreeFrom(n, was, wasDesc, first, Flag(skb.NeedsContext()) + |ps|) ==>
                Filled(n, was, wasDesc, bs, ds, first, skb, ps)
      ensures skb.headLen > 0 ==> Shows(n, ds, Slot(first, Flag(skb.NeedsContext()), n), ps)
    {
      hide Mapped, QueuedSlots, Filled, Shows, Through;
      var c := Flag(skb.NeedsContext());
      if FreeFrom(n, was, wasDesc, first, c + |ps|) {
        IsThrough(n, was, wasDesc, mid, midDesc, bs, ds, first, c, Shift(skb), ps, skb.id);
        FilledBy(n, was, wasDesc, mid, midDesc, bs, ds, first, skb, ps);
      }
      if skb.headLen > 0 {
        FullHeadShows(n, mid, bs, midDesc, ds, Slot(first, c, n), ps, first, skb.id);
      }
    }

    /** With an empty linear area the context that came first makes no difference. */
    static lemma SkewedBy(n: nat, was: seq<Buffer>, wasDesc: seq<Desc>, mid: seq<Buffer>, midDesc: seq<Desc>,
                          bs: seq<Buffer>, ds: seq<Desc>, first: nat, c: nat, ps: seq<Piece>, id: nat)
      requires Through(n, was, wasDesc, mid, midDesc, bs, ds, first, c, 1, ps, id)
      ensures Skewed(n, was, wasDesc, ds, Slot(first, c, n), ps)
    {
      EmptyHeadShifts(n, mid, bs, midDesc, ds, Slot(first, c, n), ps, first, id);
      assert c == 1 ==> Slot(first, c, n) != first && Slot(Slot(first, c, n), |ps|, n) != first;
    }

    static lemma FilledBy(n: nat, was: seq<Buffer>, wasDesc: seq<Desc>, mid: seq<Buffer>, midDesc: seq<Desc>,
                          bs: seq<Buffer>, ds: seq<Desc>, first: nat, skb: Skb, ps: seq<Piece>)
      requires Through(n, was, wasDesc, mid, midDesc, bs, ds, first, Flag(skb.NeedsContext()), Shift(skb), ps, skb.id)
      ensures Filled(n, was, wasDesc, bs, ds, first, skb, ps)
    {
      hide Written, Shows, Skewed, Through;
      ThroughFits(n, was, wasDesc, mid, midDesc, bs, ds, first, Flag(skb.NeedsContext()), Shift(skb), ps, skb.id);
      if skb.headLen > 0 {
        WrittenBy(n, was, wasDesc, mid, midDesc, bs, ds, first, Flag(skb.NeedsContext()), ps, skb.id);
      } else {
        SkewedBy(n, was, wasDesc, mid, midDesc, bs, ds, first, Flag(skb.NeedsContext()), ps, skb.id);
      }
    }

    /** The reservation is enough for the packet. */
    static ghost predicate Covered(hw: Hw, p: Prepared, tso: bool)
      requires Padded(p.skb)
    {
      Used(hw, p.skb, tso) <= Estimate(hw, p.skb, p.len, tso)
    }

    static lemma CoveredOrPadded(hw: Hw, skb: Skb, hdrLen: nat, newHead: nat, tso: bool)
      ensures var p := Prepare(hw, skb, hdrLen, newHead);
              if skb.IsGso() && skb.Len() < ETH_ZLEN && skb.headLen < PADDED_GSO_MIN then PadShape(p.skb)
              else Covered(hw, p, tso)
    {
      if !(skb.IsGso() && skb.Len() < ETH_ZLEN && skb.headLen < PADDED_GSO_MIN) {
        ReservationCovers(hw, skb, hdrLen, newHead, tso);
      }
    }

    /** What a packet that is sent leaves behind, compared with the ring before: its descriptors show
        its pieces, and if the reservation covered it, it is in flight, whole. */
    ghost predicate Out(hw: Hw, skb: Skb, covered: bool, was: seq<Buffer>, wasDesc: seq<Desc>, before: seq<Cell>,
                        first: nat, tso: bool)
      requires Padded(skb)
      reads this, desc, buffers
    {
      var ps := Pieces(hw, skb, tso);
      && Shape() && |was| == |wasDesc| == count && first < count && 0 < |ps| < count
      && Used(hw, skb, tso) < count && nextToUse == tdt == Slot(first, Used(hw, skb, tso), count)
      && lastTxTso == (if skb.IsGso() then tso || !hw.mac82544 else tso && !TrimFirst(skb, tso))
      && if skb.headLen > 0 then
           && Shows(count, desc[..], Slot(first, Flag(skb.NeedsContext()), count), ps)
           && (covered ==>
                 && Valid() && flight == before + PacketCells(skb.id, Used(hw, skb, tso)) && Unused() >= 2
                 && (skb.NeedsContext() ==> desc[first].kind == Context))
         else Skewed(count, was, wasDesc, desc[..], Slot(first, Flag(skb.NeedsContext()), count), ps)
    }

    /** Transmits, and stops the queue ahead of the next packet if that might not fit. */
    method Commit(hw: Hw, skb: Skb, ghost covered: bool)
      requires Valid() && Padded(skb) && Shift(skb) + Used(hw, skb, lastTxTso) + 1 < count
      requires covered || skb.headLen == 0 ==> |flight| + Used(hw, skb, lastTxTso) + 2 < count
      modifies `nextToUse, `tdt, `lastTxTso, `flight, `stopped, desc, buffers
      ensures Out(hw, skb, covered, old(buffers[..]), old(desc[..]), old(flight), old(nextToUse), old(lastTxTso))
      ensures stopped == (old(stopped) || Unused() < MAX_SKB_FRAGS + 2)
    {
      hide Shows, Skewed, Pieces, Tables, Whole;
      var used := Transmit(hw, skb);
      if skb.headLen > 0 && covered { UnusedCounts(); }
      var busy := MaybeStopTx(MAX_SKB_FRAGS + 2);
    }

    /** Reserve and transmit. */
    method Send(hw: Hw, p: Prepared, headersFail: bool) returns (r: XmitResult)
      requires Valid() && Padded(p.skb)
      requires Covered(hw, p, lastTxTso) || PadShape(p.skb)
      modifies `nextToUse, `tdt, `lastTxTso, `flight, `stopped, desc, buffers
      ensures r == if old(Unused()) < Estimate(hw, p.skb, p.len, old(lastTxTso)) + 2 then Busy
                   else if p.skb.IsGso() && headersFail then Dropped else Sent
      ensures r == Busy ==> stopped
      ensures r == Dropped ==> stopped == old(stopped)
      ensures r != Sent ==> Valid() && flight == old(flight) && buffers[..] == old(buffers[..])
                            && desc[..] == old(desc[..]) && lastTxTso == old(lastTxTso)
      ensures r == Sent ==> Out(hw, p.skb, Covered(hw, p, old(lastTxTso)), old(buffers[..]), old(desc[..]),
                                old(flight), old(nextToUse), old(lastTxTso))
      ensures r == Sent ==> stopped == (old(stopped) || Unused() < MAX_SKB_FRAGS + 2)
    {
      if PadShape(p.skb) { PaddedFitsRing(hw, p.skb, lastTxTso); }
      hide Out, Used, Tables, Whole, Estimate, PadShape;
      var cnt := CountDescriptors(hw, p.skb, p.len);
      UnusedCounts();
      var busy := MaybeStopTx(cnt + 2);
      if busy { return Busy; }
      if p.skb.IsGso() && headersFail { return Dropped; }
      Commit(hw, p.skb, Covered(hw, p, lastTxTso));
      r := Sent;
    }

    /** e1000_xmit_frame: the packet goes out, whole if its reservation covers it, or the ring is left
        alone. The reservation covers it unless it is a segmentation packet that is padded and had
        less than 52 bytes of linear data. Memory may be wanting when the packet is changed, or for
        the headers of a segmentation packet. */
    method XmitFrame(hw: Hw, skb: Skb, hdrLen: nat, newHead: nat, changeFails: bool, headersFail: bool)
      returns (r: XmitResult, p: Prepared)
      requires Valid()
      modifies `nextToUse, `tdt, `lastTxTso, `flight, `stopped, desc, buffers
      ensures p == Prepare(hw, skb, hdrLen, newHead) && p.skb.id == skb.id
      ensures !(skb.IsGso() && skb.Len() < ETH_ZLEN && skb.headLen < PADDED_GSO_MIN) ==>
                Covered(hw, p, old(lastTxTso))
      ensures r == if p.skb != skb && changeFails then Dropped
                   else if old(Unused()) < Estimate(hw, p.skb, p.len, old(lastTxTso)) + 2 then Busy
                   else if skb.IsGso() && headersFail then Dropped else Sent
      ensures r == Busy ==> stopped
      ensures r == Dropped ==> stopped == old(stopped)
      ensures r != Sent ==> Valid() && flight == old(flight) && buffers[..] == old(buffers[..])
                            && desc[..] == old(desc[..]) && lastTxTso == old(lastTxTso)
      ensures r == Sent ==> Out(hw, p.skb, Covered(hw, p, old(lastTxTso)), old(buffers[..]), old(desc[..]),
                                old(flight), old(nextToUse), old(lastTxTso))
      // the queue runs on just if there is room for a packet with every fragment
      ensures r == Sent ==> stopped == (old(stopped) || Unused() < MAX_SKB_FRAGS + 2)
    {
      p := Prepare(hw, skb, hdrLen, newHead);
      CoveredOrPadded(hw, skb, hdrLen, newHead, lastTxTso);
      hide Valid, Out, Covered, PadShape, Prepare, Estimate;
      if p.skb != skb && changeFails { return Dropped, p; }
      r := Send(hw, p, headersFail);
    }

    // ----- The hardware -----

    /** The hardware finishes slot `s`, the next one, and reports on it if it is asked to. */
    method HardwareFinishes(s: nat)
      requires Valid() && finished < |flight| && s == Slot(nextToClean, finished, count)
      modifies `finished, desc
      ensures Valid() && finished == old(finished) + 1
    {
      FinishedOne(count, buffers[..], desc[..], nextToClean, flight, finished);
      if desc[s].rs { desc[s] := desc[s].(dd := true); }
      finished := finished + 1;
      assert desc[..] == old(desc[..])[s := desc[s]];
    }

    static lemma FinishedOne(n: nat, bs: seq<Buffer>, ds: seq<Desc>, c: nat, flight: seq<Cell>, finished: nat)
      requires |bs| == |ds| == n && c < n && finished < |flight| < n && Tables(n, bs, ds, c, flight, finished, 0)
      ensures var s := Slot(c, finished, n);
              Tables(n, bs, ds[s := if ds[s].rs then ds[s].(dd := true) else ds[s]], c, flight, finished + 1, 0)
    {
      var s := Slot(c, finished, n);
      var ds', next := ds[s := if ds[s].rs then ds[s].(dd := true) else ds[s]], finished + 1;
      forall k | 0 <= k < |flight|
        ensures CellAt(n, bs, ds', c, flight, next, k)
      {
        assert CellAt(n, bs, ds, c, flight, finished, k);
      }
      forall k | |flight| <= k < n
        ensures FreeAt(n, bs, ds', c, k)
      {
        assert FreeAt(n, bs, ds, c, k);
      }
    }

    // ----- e1000_clean_tx_irq -----

    /** Part way through a pass: the first `m` cells are cleaned, `i` is the next slot. */
    ghost predicate Cleaning(i: nat, m: nat, freed: seq<nat>)
      reads this, desc, buffers
    {
      && Shape() && |flight| < count && Whole(flight) && finished <= |flight| && m <= |flight|
      && nextToUse == Slot(nextToClean, |flight|, count) && tdt == nextToUse
      && i == Slot(nextToClean, m, count) && freed == Ends(flight[..m])
      && Tables(count, buffers[..], desc[..], nextToClean, flight, finished, m)
    }

    static lemma CleanedOne(n: nat, bs: seq<Buffer>, ds: seq<Desc>, c: nat, flight: seq<Cell>, finished: nat, m: nat)
      requires |bs| == |ds| == n && c < n && m < |flight| < n && Tables(n, bs, ds, c, flight, finished, m)
      ensures var i := Slot(c, m, n);
              Tables(n, bs[i := bs[i].(skb := None, addr := 0)], ds[i := ds[i].(dd := false)], c, flight, finished,
                     m + 1)
      ensures bs[Slot(c, m, n)].skb == if flight[m].toEnd == 0 then Some(flight[m].id) else None
    {
      var i := Slot(c, m, n);
      var bs', ds' := bs[i := bs[i].(skb := None, addr := 0)], ds[i := ds[i].(dd := false)];
      assert CellAt(n, bs, ds, c, flight, finished, m);
      forall k | m + 1 <= k < |flight|
        ensures CellAt(n, bs', ds', c, flight, finished, k)
      {
        assert CellAt(n, bs, ds, c, flight, finished, k);
      }
      forall k | 0 <= k < n && !(m + 1 <= k < |flight|)
        ensures FreeAt(n, bs', ds', c, k)
      {
        if k != m { assert FreeAt(n, bs, ds, c, k); }
      }
    }

    /** Frees one slot. */
    method CleanSlot(i: nat, ghost m: nat, ghost freed: seq<nat>) returns (i': nat, got: Option<nat>)
      requires Cleaning(i, m, freed) && m < |flight|
      modifies desc, buffers
      ensures got == if flight[m].toEnd == 0 then Some(flight[m].id) else None
      ensures Cleaning(i', m + 1, if got.Some? then freed + [got.value] else freed)
      ensures forall s :: 0 <= s < count ==> buffers[s].watch == old(buffers[s].watch)
    {
      CleanedOne(count, buffers[..], desc[..], nextToClean, flight, finished, m);
      got := buffers[i].skb;
      buffers[i] := buffers[i].(skb := None, addr := 0);
      desc[i] := desc[i].(dd := false);
      assert buffers[..] == old(buffers[..])[i := buffers[i]];
      assert desc[..] == old(desc[..])[i := desc[i]];
      i' := i + 1;
      if i' == count { i' := 0; }
      assert flight[..m + 1] == flight[..m] + [flight[m]];
      EndsConcat(flight[..m], [flight[m]]);
    }

    /** One packet: from its first slot `i` up to and including `eop`, its last. */
    method CleanPacket(i0: nat, eop: nat, ghost m0: nat, freed0: seq<nat>)
      returns (i: nat, cnt: nat, ghost m: nat, freed: seq<nat>)
      requires Cleaning(i0, m0, freed0) && m0 < |flight|
      requires m0 + flight[m0].toEnd < |flight| && eop == Slot(nextToClean, m0 + flight[m0].toEnd, count)
      modifies desc, buffers
      ensures m == m0 + flight[m0].toEnd + 1 && cnt == m - m0
      ensures Cleaning(i, m, freed)
    {
      hide Tables, Whole, Ends;
      ghost var last := m0 + flight[m0].toEnd;
      i, cnt, m, freed := i0, 0, m0, freed0;
      var cleaned := false;
      while !cleaned
        invariant m0 <= m <= last + 1 && cnt == m - m0 && cleaned == (m == last + 1)
        invariant Cleaning(i, m, freed)
        decreases last + 1 - m
      {
        cleaned := i == eop;
        var got;
        i, got := CleanSlot(i, m, freed);
        if got.Some? { freed := freed + [got.value]; }
        m, cnt := m + 1, cnt + 1;
      }
    }

    /** Whether the pass may go on at `i` follows from the tables alone: the watched slot of a
        packet's first slot reports the packet finished, and no other slot reports at all. */
    lemma Reported(i: nat, m: nat, freed: seq<nat>)
      requires Cleaning(i, m, freed)
      requires m < |flight| ==> Starts(flight, m)
      ensures buffers[i].watch < count
      ensures desc[buffers[i].watch].dd <==> m < |flight| && m + flight[m].toEnd < finished
      ensures m < |flight| ==>
                m + flight[m].toEnd < |flight| && buffers[i].watch == Slot(nextToClean, m + flight[m].toEnd, count)
                && flight[m + flight[m].toEnd].toEnd == 0
    {
      var w := buffers[i].watch;
      if m < |flight| {
        assert CellAt(count, buffers[..], desc[..], nextToClean, flight, finished, m);
        WholeReach(flight, m, flight[m].toEnd);
        assert CellAt(count, buffers[..], desc[..], nextToClean, flight, finished, m + flight[m].toEnd);
      } else {
        var k := if w >= nextToClean then w - nextToClean else w + count - nextToClean;
        assert w == Slot(nextToClean, k, count);
        assert FreeAt(count, buffers[..], desc[..], nextToClean, k);
      }
    }

    /** Publishes the progress of a pass. */
    method Advance(i: nat, ghost m: nat, ghost freed: seq<nat>)
      requires Cleaning(i, m, freed) && m <= finished
      requires m < |flight| ==> Starts(flight, m)
      modifies `nextToClean, `flight, `finished
      ensures Valid() && nextToClean == i && flight == old(flight)[m..] && finished == old(finished) - m
    {
      Rebased(count, buffers[..], desc[..], nextToClean, flight, finished, m);
      nextToClean := i;
      flight, finished := flight[m..], finished - m;
    }

    static lemma Rebased(n: nat, bs: seq<Buffer>, ds: seq<Desc>, c: nat, flight: seq<Cell>, finished: nat, m: nat)
      requires |bs| == |ds| == n && c < n && m <= |flight| < n && m <= finished && Whole(flight)
      requires Tables(n, bs, ds, c, flight, finished, m) && (m < |flight| ==> Starts(flight, m))
      ensures Whole(flight[m..]) && Tables(n, bs, ds, Slot(c, m, n), flight[m..], finished - m, 0)
    {
      var c', flight', finished' := Slot(c, m, n), flight[m..], finished - m;
      forall k | 0 <= k < |flight'|
        ensures Linked(flight', k)
        ensures CellAt(n, bs, ds, c', flight', finished', k)
      {
        assert Linked(flight, m + k);
        assert CellAt(n, bs, ds, c, flight, finished, m + k);
        assert Slot(c', k, n) == Slot(c, m + k, n);
        var e := m + k + flight[m + k].toEnd;
        assert Slot(c', e - m, n) == Slot(c, e, n);
        assert Starts(flight', k) == Starts(flight, m + k);
      }
      forall k | |flight'| <= k < n
        ensures FreeAt(n, bs, ds, c', k)
      {
        var j := if m + k < n then m + k else m + k - n;
        assert Slot(c', k, n) == Slot(c, j, n);
        assert FreeAt(n, bs, ds, c, j);
      }
    }

    /** The loop of e1000_clean_tx_irq: packet after packet while the watched slot reports. */
    method CleanPackets() returns (i: nat, cnt: nat, ghost m: nat, freed: seq<nat>)
      requires Valid()
      modifies desc, buffers
      ensures Cleaning(i, m, freed) && cnt == m <= finished
      ensures m < |flight| ==> Starts(flight, m) && m + flight[m].toEnd >= finished
      ensures m > 0 ==> flight[m - 1].toEnd == 0
    {
      i, cnt, m, freed := nextToClean, 0, 0, [];
      assert Cleaning(i, 0, []);
      hide Tables, Whole, Ends, Starts, Slot;
      Reported(i, m, freed);
      var eop := buffers[i].watch;
      while desc[eop].dd && cnt < count
        invariant Cleaning(i, m, freed) && cnt == m <= finished
        invariant m < |flight| ==> Starts(flight, m)
        invariant m > 0 ==> flight[m - 1].toEnd == 0
        invariant eop == buffers[i].watch < count
        modifies desc, buffers
        decreases |flight| - m
      {
        Reported(i, m, freed);
        var c;
        i, c, m, freed := CleanPacket(i, eop, m, freed);
        cnt := cnt + c;
        Follows(flight, m);
        Reported(i, m, freed);
        eop := buffers[i].watch;
      }
      Reported(i, m, freed);
    }

    static lemma Follows(cells: seq<Cell>, m: nat)
      requires 0 < m <= |cells| && cells[m - 1].toEnd == 0
      ensures m < |cells| ==> Starts(cells, m)
    {
    }

    /** e1000_clean_tx_irq: frees the finished packets at the head of the ring, all of them and
        nothing else, in the order of submission. */
    method CleanTxIrq(carrierOk: bool, down: bool) returns (freed: seq<nat>)
      requires Valid()
      modifies `nextToClean, `flight, `finished, `stopped, desc, buffers
      ensures Valid() && |flight| <= |old(flight)|
      ensures var m := |old(flight)| - |flight|;
        && m <= old(finished) && finished == old(finished) - m
        && flight == old(flight)[m..] && freed == Ends(old(flight)[..m])
        && (m > 0 ==> old(flight)[m - 1].toEnd == 0)
        && stopped == (old(stopped) && !(m > 0 && carrierOk && Unused() >= TX_WAKE_THRESHOLD && !down))
      ensures flight != [] ==> flight[0].toEnd >= finished
    {
      hide Tables, Whole, Ends, Starts, Slot;
      var i, cnt;
      ghost var m;
      i, cnt, m, freed := CleanPackets();
      Advance(i, m, freed);
      if cnt > 0 && carrierOk && Unused() >= TX_WAKE_THRESHOLD {
        if stopped && !down { stopped := false; }
      }
    }
  }
}
