/** Transmit, hardware and reclaim running at the same time on one ring. Each access to the
    shared tables is a step of its own, and steps of the three agents interleave freely. */
module TxReclaim {
  import opened Rings
  import opened TxRing

  /** Where the transmitter is. A packet takes `total` slots behind those already published,
      the first of them for the offload context if `ctx`. */
  datatype Tx =
    | Idle
    | Mapping(id: nat, ctx: bool, total: nat, k: nat)   // k slots entered in the buffer table
    | Sealing(id: nat, ctx: bool, total: nat)           // the skb hangs on the last slot
    | Queueing(id: nat, ctx: bool, total: nat, k: nat)  // k slots copied to the descriptor table
    | Ended(id: nat, ctx: bool, total: nat)             // the last descriptor asks for a report

  /** Where the reclaimer is. */
  datatype Clean =
    | Resting
    | Loading             // about to read which slot to watch
    | Testing(eop: nat)   // about to look at that slot's report
    | Freeing(eop: nat)   // freeing slots up to `eop`

  datatype State = State(
    n: nat, bs: seq<Buffer>, ds: seq<Desc>,
    nextToUse: nat, nextToClean: nat,
    tx: Tx, clean: Clean,
    m: nat,               // slots freed since nextToClean was last written
    // The published slots from nextToClean on, and how many of them the hardware has finished
    cells: seq<Cell>, finished: nat,
    // Packets in the order of publication, and in the order of being freed
    submitted: seq<nat>, freed: seq<nat>)
  {
    ghost predicate Shape() {
      |bs| == |ds| == n && nextToUse < n && nextToClean < n && |cells| < n && m <= |cells| && finished <= |cells|
    }

    /** Slot `j` of the packet being built. */
    function Building(j: nat): nat
      requires nextToClean < n && |cells| + j <= n
    {
      Slot(nextToClean, |cells| + j, n)
    }

    /** E1000_DESC_UNUSED */
    function Unused(): int {
      (if nextToClean > nextToUse then 0 else n) + nextToClean - nextToUse - 1
    }

    function Total(): nat {
      match tx
      case Idle => 0
      case Mapping(_, _, total, _) => total
      case Sealing(_, _, total) => total
      case Queueing(_, _, total, _) => total
      case Ended(_, _, total) => total
    }
  }

  ghost predicate Init(s: State) {
    && s.n >= MIN_TXD && |s.bs| == |s.ds| == s.n && s.nextToUse == s.nextToClean == 0
    && s.tx == Idle && s.clean == Resting && s.m == 0 && s.cells == [] && s.finished == 0
    && s.submitted == [] && s.freed == []
    && (forall k :: 0 <= k < s.n ==> s.bs[k].skb == None && s.bs[k].watch < s.n && !s.ds[k].dd)
  }

  // ----- The transmitter -----

  /** A packet is begun only with two slots to spare. */
  ghost predicate Begin(s: State, t: State) {
    && s.tx == Idle && t.tx.Mapping? && t.tx.k == 0 && 0 < t.tx.total && t.tx.total + 2 <= s.Unused()
    && t == s.(tx := t.tx)
  }

  ghost predicate MapSlot(s: State, t: State)
    requires s.Shape()
  {
    && s.tx.Mapping? && s.tx.k < s.tx.total && |s.cells| + s.tx.total <= s.n
    && var i, context := s.Building(s.tx.k), s.tx.ctx && s.tx.k == 0;
    && t == s.(bs := s.bs[i := s.bs[i].(watch := i)],
               ds := if context then s.ds[i := s.ds[i].(kind := Context, rs := false)] else s.ds,
               nextToUse := if context then Slot(s.nextToUse, 1, s.n) else s.nextToUse,
               tx := Mapping(s.tx.id, s.tx.ctx, s.tx.total, s.tx.k + 1))
  }

  /** The skb goes to the last slot. */
  ghost predicate SealSkb(s: State, t: State)
    requires s.Shape()
  {
    && s.tx.Mapping? && s.tx.k == s.tx.total && 0 < s.tx.total && |s.cells| + s.tx.total <= s.n
    && var last := s.Building(s.tx.total - 1);
    && t == s.(bs := s.bs[last := s.bs[last].(skb := Some(s.tx.id))], tx := Sealing(s.tx.id, s.tx.ctx, s.tx.total))
  }

  /** The first slot watches the last one. */
  ghost predicate SealWatch(s: State, t: State)
    requires s.Shape()
  {
    && s.tx.Sealing? && 0 < s.tx.total && |s.cells| + s.tx.total <= s.n
    && var first, last := s.Building(0), s.Building(s.tx.total - 1);
    && t == s.(bs := s.bs[first := s.bs[first].(watch := last)],
               tx := Queueing(s.tx.id, s.tx.ctx, s.tx.total, if s.tx.ctx then 1 else 0))
  }

  ghost predicate QueueSlot(s: State, t: State)
    requires s.Shape()
  {
    && s.tx.Queueing? && s.tx.k < s.tx.total && |s.cells| + s.tx.total <= s.n
    && var i := s.Building(s.tx.k);
    && t == s.(ds := s.ds[i := Desc(Data, s.bs[i].addr, s.bs[i].len, false, false)],
               tx := Queueing(s.tx.id, s.tx.ctx, s.tx.total, s.tx.k + 1))
  }

  ghost predicate MarkEnd(s: State, t: State)
    requires s.Shape()
  {
    && s.tx.Queueing? && s.tx.k == s.tx.total && 0 < s.tx.total && |s.cells| + s.tx.total <= s.n
    && var last := s.Building(s.tx.total - 1);
    && t == s.(ds := s.ds[last := s.ds[last].(rs := true)], tx := Ended(s.tx.id, s.tx.ctx, s.tx.total))
  }

  /** The tail register is written. */
  ghost predicate Publish(s: State, t: State)
    requires s.Shape()
  {
    && s.tx.Ended? && 0 < s.tx.total && |s.cells| + s.tx.total <= s.n
    && t == s.(nextToUse := s.Building(s.tx.total), tx := Idle,
               cells := s.cells + PacketCells(s.tx.id, s.tx.total), submitted := s.submitted + [s.tx.id])
  }

  // ----- The hardware -----

  ghost predicate Finish(s: State, t: State)
    requires s.Shape()
  {
    && s.finished < |s.cells|
    && var i := Slot(s.nextToClean, s.finished, s.n);
    && t == s.(ds := s.ds[i := if s.ds[i].rs then s.ds[i].(dd := true) else s.ds[i]], finished := s.finished + 1)
  }

  // ----- The reclaimer -----

  ghost predicate Awake(s: State, t: State) { s.clean == Resting && t == s.(clean := Loading) }

  ghost predicate Load(s: State, t: State)
    requires s.Shape()
  {
    s.clean == Loading && t == s.(clean := Testing(s.bs[Slot(s.nextToClean, s.m, s.n)].watch))
  }

  ghost predicate Test(s: State, t: State)
    requires s.Shape()
  {
    && s.clean.Testing? && s.clean.eop < s.n && s.ds[s.clean.eop].dd && s.m < s.n
    && t == s.(clean := Freeing(s.clean.eop))
  }

  /** Frees the next slot; it counts as freed whatever was in it. */
  ghost predicate Free(s: State, t: State)
    requires s.Shape()
  {
    && s.clean.Freeing? && s.m < s.n
    && var i := Slot(s.nextToClean, s.m, s.n);
    && t == s.(bs := s.bs[i := s.bs[i].(skb := None, addr := 0)], ds := s.ds[i := s.ds[i].(dd := false)],
               freed := if s.bs[i].skb.Some? then s.freed + [s.bs[i].skb.value] else s.freed,
               m := s.m + 1, clean := if i == s.clean.eop then Loading else s.clean)
  }

  /** No report: the pass ends by writing nextToClean. */
  ghost predicate Rest(s: State, t: State)
    requires s.Shape()
  {
    && s.clean.Testing? && s.clean.eop < s.n && !s.ds[s.clean.eop].dd
    && t == s.(clean := Resting, nextToClean := Slot(s.nextToClean, s.m, s.n), m := 0,
               cells := s.cells[s.m..], finished := if s.m <= s.finished then s.finished - s.m else 0)
  }

  ghost predicate Next(s: State, t: State) {
    s.Shape() &&
    ( || Begin(s, t) || MapSlot(s, t) || SealSkb(s, t) || SealWatch(s, t) || QueueSlot(s, t) || MarkEnd(s, t)
      || Publish(s, t)
      || Finish(s, t)
      || Awake(s, t) || Load(s, t) || Test(s, t) || Free(s, t) || Rest(s, t))
  }

  ghost predicate Run(run: seq<State>) {
    && |run| > 0 && Init(run[0])
    && forall i {:trigger Next(run[i], run[i + 1])} :: 0 <= i < |run| - 1 ==> Next(run[i], run[i + 1])
  }

  // ----- The invariant -----

  /** The state of slot `j` of the packet being built from slot `first` on. */
  ghost predicate BuildAt(n: nat, bs: seq<Buffer>, ds: seq<Desc>, first: nat, tx: Tx, j: nat)
    requires |bs| == |ds| == n && first < n && j < n
  {
    var i := Slot(first, j, n);
    && !ds[i].dd
    && match tx
       case Idle => true
       case Mapping(_, ctx, _, k) => bs[i].skb == None && (ctx && j == 0 && k > 0 ==> !ds[i].rs)
       case Sealing(id, ctx, total) =>
         bs[i].skb == (if j == total - 1 then Some(id) else None) && (ctx && j == 0 ==> !ds[i].rs)
       case Queueing(id, ctx, total, k) =>
         Sealed(bs[i], id, total, j, first, n) && (j < k || (ctx && j == 0) ==> !ds[i].rs)
       case Ended(id, _, total) => Sealed(bs[i], id, total, j, first, n) && ds[i].rs == (j == total - 1)
  }

  ghost predicate Sealed(b: Buffer, id: nat, total: nat, j: nat, first: nat, n: nat)
    requires first < n
  {
    b.skb == (if j == total - 1 then Some(id) else None)
    && (j == 0 ==> 0 < total <= n && b.watch == Slot(first, total - 1, n))
  }

  /** Between packets. */
  ghost predicate Boundary(cells: seq<Cell>, m: nat)
    requires m <= |cells|
  {
    m == 0 || cells[m - 1].toEnd == 0
  }

  ghost predicate TxOk(s: State)
    requires s.Shape()
  {
    && |s.cells| + s.Total() + 2 < s.n
    && (match s.tx
        case Idle => true
        case Mapping(_, _, total, k) => k <= total && 0 < total
        case Sealing(_, _, total) => 0 < total
        case Queueing(_, ctx, total, k) => (if ctx then 1 else 0) <= k <= total && 0 < total
        case Ended(_, _, total) => 0 < total)
    && s.nextToUse == s.Building(match s.tx
                                 case Idle => 0
                                 case Mapping(_, ctx, _, k) => if ctx && k > 0 then 1 else 0
                                 case Sealing(_, ctx, _) => if ctx then 1 else 0
                                 case Queueing(_, ctx, _, _) => if ctx then 1 else 0
                                 case Ended(_, ctx, _) => if ctx then 1 else 0)
    && (forall j {:trigger BuildAt(s.n, s.bs, s.ds, s.Building(0), s.tx, j)} :: 0 <= j < s.Total() ==>
          BuildAt(s.n, s.bs, s.ds, s.Building(0), s.tx, j))
  }

  ghost predicate CleanOk(s: State)
    requires s.Shape()
  {
    && s.m <= s.finished
    && match s.clean
       case Resting => s.m == 0
       case Loading => Boundary(s.cells, s.m)
       case Testing(eop) => Boundary(s.cells, s.m) && eop < s.n
       case Freeing(eop) =>
         exists e :: s.m <= e < s.finished && eop == Slot(s.nextToClean, e, s.n) && s.cells[e].toEnd == 0
  }

  ghost predicate RingOk(s: State)
    requires s.Shape()
  {
    && Whole(s.cells)
    && (forall k {:trigger CellAt(s.n, s.bs, s.ds, s.nextToClean, s.cells, s.finished, k)} :: s.m <= k < |s.cells| ==>
          CellAt(s.n, s.bs, s.ds, s.nextToClean, s.cells, s.finished, k))
    && (forall k {:trigger FreeAt(s.n, s.bs, s.ds, s.nextToClean, k)} ::
          0 <= k < s.n && !(s.m <= k < |s.cells| + s.Total()) ==> FreeAt(s.n, s.bs, s.ds, s.nextToClean, k))
    && (forall k :: 0 <= k < s.n ==> s.bs[k].watch < s.n)
  }

  ghost predicate Inv(s: State) {
    s.Shape() && TxOk(s) && CleanOk(s) && RingOk(s) && s.submitted == s.freed + Ends(s.cells[s.m..])
  }

  // ----- Every step keeps the invariant -----

  lemma InitInv(s: State)
    requires Init(s)
    ensures Inv(s)
  {
    assert s.cells[s.m..] == [];
    forall k | 0 <= k < s.n
      ensures FreeAt(s.n, s.bs, s.ds, s.nextToClean, k)
    {
      assert Slot(0, k, s.n) == k;
    }
  }

  /** A step that writes only slot `j` of the packet being built leaves the rest of the ring as
      it was. */
  lemma RingKept(s: State, t: State, j: nat)
    requires Inv(s) && t.Shape() && j < s.Total() == t.Total()
    requires t.cells == s.cells && t.nextToClean == s.nextToClean && t.m == s.m
    requires t.finished == s.finished && t.n == s.n
    requires forall k :: 0 <= k < s.n && k != s.Building(j) ==> t.bs[k] == s.bs[k] && t.ds[k] == s.ds[k]
    requires t.bs[s.Building(j)].watch < s.n
    ensures RingOk(t)
  {
    forall k | t.m <= k < |t.cells|
      ensures CellAt(t.n, t.bs, t.ds, t.nextToClean, t.cells, t.finished, k)
    {
      assert CellAt(s.n, s.bs, s.ds, s.nextToClean, s.cells, s.finished, k);
    }
    forall k | 0 <= k < t.n && !(t.m <= k < |t.cells| + t.Total())
      ensures FreeAt(t.n, t.bs, t.ds, t.nextToClean, k)
    {
      assert FreeAt(s.n, s.bs, s.ds, s.nextToClean, k);
    }
  }

  /** A step of the transmitter alone leaves the invariant to the packet being built and the ring. */
  lemma TransmitterOnly(s: State, t: State)
    requires Inv(s) && t.Shape() && TxOk(t) && RingOk(t)
    requires t.n == s.n && t.cells == s.cells && t.nextToClean == s.nextToClean && t.m == s.m && t.clean == s.clean
    requires t.finished == s.finished && t.submitted == s.submitted && t.freed == s.freed
    ensures Inv(t)
  {
    hide TxOk, RingOk;
  }

  lemma WatchesFit(s: State)
    requires Inv(s)
    ensures forall k :: 0 <= k < s.n ==> s.bs[k].watch < s.n
  {
    hide TxOk, CleanOk;
  }

  lemma BeginInv(s: State, t: State)
    requires Inv(s) && Begin(s, t)
    ensures Inv(t)
  {
    forall j | 0 <= j < t.Total()
      ensures BuildAt(t.n, t.bs, t.ds, t.Building(0), t.tx, j)
    {
      assert FreeAt(s.n, s.bs, s.ds, s.nextToClean, |s.cells| + j);
    }
    forall k | t.m <= k < |t.cells|
      ensures CellAt(t.n, t.bs, t.ds, t.nextToClean, t.cells, t.finished, k)
    {
      assert CellAt(s.n, s.bs, s.ds, s.nextToClean, s.cells, s.finished, k);
    }
  }

  lemma MapSlotTx(s: State, t: State)
    requires Inv(s) && MapSlot(s, t)
    ensures t.Shape() && TxOk(t)
  {
    hide RingOk, CleanOk;
    forall j | 0 <= j < t.Total()
      ensures BuildAt(t.n, t.bs, t.ds, t.Building(0), t.tx, j)
    {
      assert BuildAt(s.n, s.bs, s.ds, s.Building(0), s.tx, j);
    }
  }

  lemma MapSlotInv(s: State, t: State)
    requires Inv(s) && MapSlot(s, t)
    ensures Inv(t)
  {
    hide TxOk, RingOk, CleanOk;
    MapSlotTx(s, t);
    WatchesFit(s);
    RingKept(s, t, s.tx.k);
    TransmitterOnly(s, t);
  }

  lemma SealSkbTx(s: State, t: State)
    requires Inv(s) && SealSkb(s, t)
    ensures t.Shape() && TxOk(t)
  {
    hide RingOk, CleanOk;
    forall j | 0 <= j < t.Total()
      ensures BuildAt(t.n, t.bs, t.ds, t.Building(0), t.tx, j)
    {
      assert BuildAt(s.n, s.bs, s.ds, s.Building(0), s.tx, j);
    }
  }

  lemma SealSkbInv(s: State, t: State)
    requires Inv(s) && SealSkb(s, t)
    ensures Inv(t)
  {
    hide TxOk, RingOk, CleanOk;
    SealSkbTx(s, t);
    WatchesFit(s);
    RingKept(s, t, s.tx.total - 1);
    TransmitterOnly(s, t);
  }

  lemma SealWatchTx(s: State, t: State)
    requires Inv(s) && SealWatch(s, t)
    ensures t.Shape() && TxOk(t)
  {
    hide RingOk, CleanOk;
    assert s.Building(s.tx.total - 1) == Slot(s.Building(0), s.tx.total - 1, s.n);
    forall j | 0 <= j < t.Total()
      ensures BuildAt(t.n, t.bs, t.ds, t.Building(0), t.tx, j)
    {
      assert BuildAt(s.n, s.bs, s.ds, s.Building(0), s.tx, j);
    }
  }

  lemma SealWatchInv(s: State, t: State)
    requires Inv(s) && SealWatch(s, t)
    ensures Inv(t)
  {
    hide TxOk, RingOk, CleanOk;
    SealWatchTx(s, t);
    WatchesFit(s);
    RingKept(s, t, 0);
    TransmitterOnly(s, t);
  }

  lemma QueueSlotTx(s: State, t: State)
    requires Inv(s) && QueueSlot(s, t)
    ensures t.Shape() && TxOk(t)
  {
    hide RingOk, CleanOk;
    forall j | 0 <= j < t.Total()
      ensures BuildAt(t.n, t.bs, t.ds, t.Building(0), t.tx, j)
    {
      assert BuildAt(s.n, s.bs, s.ds, s.Building(0), s.tx, j);
    }
  }

  lemma QueueSlotInv(s: State, t: State)
    requires Inv(s) && QueueSlot(s, t)
    ensures Inv(t)
  {
    hide TxOk, RingOk, CleanOk;
    QueueSlotTx(s, t);
    WatchesFit(s);
    RingKept(s, t, s.tx.k);
    TransmitterOnly(s, t);
  }

  lemma MarkEndTx(s: State, t: State)
    requires Inv(s) && MarkEnd(s, t)
    ensures t.Shape() && TxOk(t)
  {
    hide RingOk, CleanOk;
    forall j | 0 <= j < t.Total()
      ensures BuildAt(t.n, t.bs, t.ds, t.Building(0), t.tx, j)
    {
      assert BuildAt(s.n, s.bs, s.ds, s.Building(0), s.tx, j);
    }
  }

  lemma MarkEndInv(s: State, t: State)
    requires Inv(s) && MarkEnd(s, t)
    ensures Inv(t)
  {
    hide TxOk, RingOk, CleanOk;
    MarkEndTx(s, t);
    WatchesFit(s);
    RingKept(s, t, s.tx.total - 1);
    TransmitterOnly(s, t);
  }

  /** The finished tables of a packet make its slots published ones. */
  lemma PublishCell(s: State, t: State, k: nat)
    requires Inv(s) && Publish(s, t) && |s.cells| <= k < |t.cells| < t.n
    ensures CellAt(t.n, t.bs, t.ds, t.nextToClean, t.cells, t.finished, k)
  {
    hide RingOk, CleanOk;
    var l, total := |s.cells|, s.tx.total;
    var first := s.Building(0);
    assert BuildAt(s.n, s.bs, s.ds, first, s.tx, k - l);
    assert Slot(first, k - l, s.n) == Slot(s.nextToClean, k, s.n);
    assert Slot(first, total - 1, s.n) == Slot(s.nextToClean, l + total - 1, s.n);
    assert t.cells[k] == Cell(s.tx.id, total - 1 - (k - l));
    if k > l { assert t.cells[k - 1] == Cell(s.tx.id, total - (k - l)); }
  }

  lemma PublishedCell(s: State, t: State, k: nat)
    requires Inv(s) && Publish(s, t) && s.m <= k < |s.cells| && |t.cells| < t.n
    ensures CellAt(t.n, t.bs, t.ds, t.nextToClean, t.cells, t.finished, k)
  {
    hide TxOk, CleanOk;
    assert CellAt(s.n, s.bs, s.ds, s.nextToClean, s.cells, s.finished, k);
  }

  lemma PublishInv(s: State, t: State)
    requires Inv(s) && Publish(s, t)
    ensures Inv(t)
  {
    var id, total := s.tx.id, s.tx.total;
    TxRing.JoinedWhole(s.cells, id, total);
    forall k | t.m <= k < |t.cells|
      ensures CellAt(t.n, t.bs, t.ds, t.nextToClean, t.cells, t.finished, k)
    {
      if k < |s.cells| { PublishedCell(s, t, k); } else { PublishCell(s, t, k); }
    }
    forall k | 0 <= k < t.n && !(t.m <= k < |t.cells| + t.Total())
      ensures FreeAt(t.n, t.bs, t.ds, t.nextToClean, k)
    {
      assert FreeAt(s.n, s.bs, s.ds, s.nextToClean, k);
    }
    PublishLog(s, t);
  }

  lemma PublishLog(s: State, t: State)
    requires Inv(s) && Publish(s, t)
    ensures t.submitted == t.freed + Ends(t.cells[t.m..])
  {
    hide TxOk, RingOk, CleanOk;
    PacketEnds(s.tx.id, s.tx.total);
    EndsConcat(s.cells[s.m..], PacketCells(s.tx.id, s.tx.total));
    assert t.cells[t.m..] == s.cells[s.m..] + PacketCells(s.tx.id, s.tx.total);
  }

  lemma {:induction false} PacketEnds(id: nat, n: nat)
    requires n > 0
    ensures Ends(PacketCells(id, n)) == [id]
    decreases n
  {
    var cells := PacketCells(id, n);
    if n == 1 {
      assert cells[1..] == [];
    } else {
      assert cells[1..] == PacketCells(id, n - 1);
      PacketEnds(id, n - 1);
    }
  }

  /** Steps of the other two agents leave the packet being built alone. */
  lemma BuildKept(s: State, t: State, i: nat, k: nat)
    requires Inv(s) && t.Shape() && |t.cells| + t.Total() + 2 < t.n
    requires t.n == s.n && t.tx == s.tx && t.nextToUse == s.nextToUse && t.Building(0) == s.Building(0)
    requires k < |s.cells| && i == Slot(s.nextToClean, k, s.n)
    requires forall j :: 0 <= j < s.n && j != i ==> t.bs[j] == s.bs[j] && t.ds[j] == s.ds[j]
    ensures TxOk(t)
  {
    forall j | 0 <= j < t.Total()
      ensures BuildAt(t.n, t.bs, t.ds, t.Building(0), t.tx, j)
    {
      assert BuildAt(s.n, s.bs, s.ds, s.Building(0), s.tx, j);
      assert Slot(s.Building(0), j, s.n) == Slot(s.nextToClean, |s.cells| + j, s.n);
    }
  }

  lemma FinishInv(s: State, t: State)
    requires Inv(s) && Finish(s, t)
    ensures Inv(t)
  {
    FinishRing(s, t);
    FinishTx(s, t);
    hide TxOk, RingOk;
  }

  lemma FinishTx(s: State, t: State)
    requires Inv(s) && Finish(s, t) && t.Shape()
    ensures TxOk(t)
  {
    RoomLeft(s);
    hide TxOk, RingOk, CleanOk;
    BuildKept(s, t, Slot(s.nextToClean, s.finished, s.n), s.finished);
  }

  lemma RoomLeft(s: State)
    requires Inv(s)
    ensures |s.cells| + s.Total() + 2 < s.n
  {
    hide RingOk, CleanOk;
  }

  lemma FinishRing(s: State, t: State)
    requires Inv(s) && Finish(s, t)
    ensures t.Shape() && RingOk(t)
  {
    RoomLeft(s);
    hide TxOk, CleanOk;
    forall k | t.m <= k < |t.cells|
      ensures CellAt(t.n, t.bs, t.ds, t.nextToClean, t.cells, t.finished, k)
    {
      assert CellAt(s.n, s.bs, s.ds, s.nextToClean, s.cells, s.finished, k);
    }
    forall k | 0 <= k < t.n && !(t.m <= k < |t.cells| + t.Total())
      ensures FreeAt(t.n, t.bs, t.ds, t.nextToClean, k)
    {
      assert FreeAt(s.n, s.bs, s.ds, s.nextToClean, k);
    }
  }

  lemma SameRing(s: State, t: State)
    requires Inv(s) && t == s.(clean := t.clean)
    ensures TxOk(t) && RingOk(t)
  {
    forall j | 0 <= j < t.Total()
      ensures BuildAt(t.n, t.bs, t.ds, t.Building(0), t.tx, j)
    {
      assert BuildAt(s.n, s.bs, s.ds, s.Building(0), s.tx, j);
    }
    forall k | t.m <= k < |t.cells|
      ensures CellAt(t.n, t.bs, t.ds, t.nextToClean, t.cells, t.finished, k)
    {
      assert CellAt(s.n, s.bs, s.ds, s.nextToClean, s.cells, s.finished, k);
    }
    forall k | 0 <= k < t.n && !(t.m <= k < |t.cells| + t.Total())
      ensures FreeAt(t.n, t.bs, t.ds, t.nextToClean, k)
    {
      assert FreeAt(s.n, s.bs, s.ds, s.nextToClean, k);
    }
  }

  lemma NoReport(s: State, k: nat)
    requires Inv(s) && k < s.n && !(s.m <= k < |s.cells|)
    ensures !s.ds[Slot(s.nextToClean, k, s.n)].dd
  {
    if |s.cells| <= k < |s.cells| + s.Total() {
      var j := k - |s.cells|;
      assert BuildAt(s.n, s.bs, s.ds, s.Building(0), s.tx, j);
      assert Slot(s.Building(0), j, s.n) == Slot(s.nextToClean, k, s.n);
    } else {
      assert FreeAt(s.n, s.bs, s.ds, s.nextToClean, k);
    }
  }

  /** A report can only come from a slot the hardware has finished, the last of its packet,
      and not yet freed: everything else in the ring is clear. */
  lemma ReportMeansFinished(s: State, w: nat) returns (e: nat)
    requires Inv(s) && w < s.n && s.ds[w].dd
    ensures s.m <= e < s.finished && w == Slot(s.nextToClean, e, s.n) && s.cells[e].toEnd == 0
  {
    e := if w >= s.nextToClean then w - s.nextToClean else w + s.n - s.nextToClean;
    if s.m <= e < |s.cells| {
      assert CellAt(s.n, s.bs, s.ds, s.nextToClean, s.cells, s.finished, e);
    } else {
      NoReport(s, e);
    }
  }

  lemma TestInv(s: State, t: State)
    requires Inv(s) && Test(s, t)
    ensures Inv(t)
  {
    SameRing(s, t);
    var e := ReportMeansFinished(s, s.clean.eop);
  }

  lemma FreeInv(s: State, t: State)
    requires Inv(s) && Free(s, t)
    ensures Inv(t)
  {
    BuildKept(s, t, Slot(s.nextToClean, s.m, s.n), s.m);
    FreeRing(s, t);
    FreeLog(s, t);
    FreeClean(s, t);
  }

  lemma FreeLog(s: State, t: State)
    requires Inv(s) && Free(s, t) && s.m < |s.cells|
    ensures t.submitted == t.freed + Ends(t.cells[t.m..])
  {
    hide TxOk, CleanOk;
    assert CellAt(s.n, s.bs, s.ds, s.nextToClean, s.cells, s.finished, s.m);
    assert s.cells[s.m..] == [s.cells[s.m]] + s.cells[s.m + 1..];
  }

  lemma FreeClean(s: State, t: State)
    requires Inv(s) && Free(s, t)
    ensures CleanOk(t)
  {
    var e :| s.m <= e < s.finished && s.clean.eop == Slot(s.nextToClean, e, s.n) && s.cells[e].toEnd == 0;
    if e > s.m {
      assert t.m <= e < t.finished && t.clean.eop == Slot(t.nextToClean, e, t.n) && t.cells[e].toEnd == 0;
    }
  }

  lemma FreeRing(s: State, t: State)
    requires Inv(s) && Free(s, t) && s.m < |s.cells|
    ensures RingOk(t)
  {
    forall k | t.m <= k < |t.cells|
      ensures CellAt(t.n, t.bs, t.ds, t.nextToClean, t.cells, t.finished, k)
    {
      assert CellAt(s.n, s.bs, s.ds, s.nextToClean, s.cells, s.finished, k);
    }
    forall k | 0 <= k < t.n && !(t.m <= k < |t.cells| + t.Total())
      ensures FreeAt(t.n, t.bs, t.ds, t.nextToClean, k)
    {
      if k != s.m { assert FreeAt(s.n, s.bs, s.ds, s.nextToClean, k); }
    }
  }

  lemma LoadInv(s: State, t: State)
    requires Inv(s) && Load(s, t)
    ensures Inv(t)
  {
    SameRing(s, t);
  }

  lemma RestInv(s: State, t: State)
    requires Inv(s) && Rest(s, t)
    ensures Inv(t)
  {
    var m := s.m;
    assert s.Building(0) == t.Building(0);
    forall j | 0 <= j < t.Total()
      ensures BuildAt(t.n, t.bs, t.ds, t.Building(0), t.tx, j)
    {
      assert BuildAt(s.n, s.bs, s.ds, s.Building(0), s.tx, j);
    }
    RestCells(s, t);
    forall k | 0 <= k < t.n && !(t.m <= k < |t.cells| + t.Total())
      ensures FreeAt(t.n, t.bs, t.ds, t.nextToClean, k)
    {
      var j := if m + k < s.n then m + k else m + k - s.n;
      assert Slot(t.nextToClean, k, t.n) == Slot(s.nextToClean, j, s.n);
      assert FreeAt(s.n, s.bs, s.ds, s.nextToClean, j);
    }
  }

  lemma RestCells(s: State, t: State)
    requires Inv(s) && Rest(s, t)
    ensures t.Shape() && Whole(t.cells)
    ensures forall k :: 0 <= k < |t.cells| ==> CellAt(t.n, t.bs, t.ds, t.nextToClean, t.cells, t.finished, k)
  {
    var m := s.m;
    forall k | 0 <= k < |t.cells|
      ensures Linked(t.cells, k)
      ensures CellAt(t.n, t.bs, t.ds, t.nextToClean, t.cells, t.finished, k)
    {
      assert Linked(s.cells, m + k);
      assert CellAt(s.n, s.bs, s.ds, s.nextToClean, s.cells, s.finished, m + k);
      assert Slot(t.nextToClean, k, t.n) == Slot(s.nextToClean, m + k, s.n);
      var e := m + k + s.cells[m + k].toEnd;
      assert Slot(t.nextToClean, e - m, t.n) == Slot(s.nextToClean, e, s.n);
      assert Starts(t.cells, k) == Starts(s.cells, m + k);
    }
  }

  lemma NextInv(s: State, t: State)
    requires Inv(s) && Next(s, t)
    ensures Inv(t)
  {
    if Begin(s, t) { BeginInv(s, t); }
    else if MapSlot(s, t) { MapSlotInv(s, t); }
    else if SealSkb(s, t) { SealSkbInv(s, t); }
    else if SealWatch(s, t) { SealWatchInv(s, t); }
    else if QueueSlot(s, t) { QueueSlotInv(s, t); }
    else if MarkEnd(s, t) { MarkEndInv(s, t); }
    else if Publish(s, t) { PublishInv(s, t); }
    else if Finish(s, t) { FinishInv(s, t); }
    else if Awake(s, t) { SameRing(s, t); }
    else if Load(s, t) { LoadInv(s, t); }
    else if Test(s, t) { TestInv(s, t); }
    else if Free(s, t) { FreeInv(s, t); }
    else { RestInv(s, t); }
  }

  // ----- What the invariant gives for whole runs -----

  lemma {:induction false} RunInv(run: seq<State>, i: nat)
    requires Run(run) && i < |run|
    ensures Inv(run[i])
  {
    if i == 0 {
      InitInv(run[0]);
    } else {
      var j := i - 1;
      RunInv(run, j);
      assert Next(run[j], run[j + 1]);
      NextInv(run[j], run[i]);
    }
  }

  /** Reclaim frees only slots that the hardware has finished, whatever the interleaving, and
      even when the watched slot it read is out of date. */
  lemma FreesOnlyFinished(run: seq<State>, i: nat)
    requires Run(run) && i + 1 < |run| && run[i].Shape() && Free(run[i], run[i + 1])
    ensures run[i].m < run[i].finished
  {
    RunInv(run, i);
  }

  /** Packets are freed in the order of their publication and each at most once: what has been
      freed and what is still in the ring, in ring order, make up what was published. */
  lemma FreedOnceInOrder(run: seq<State>, i: nat)
    requires Run(run) && i < |run|
    ensures run[i].m <= |run[i].cells|
    ensures run[i].submitted == run[i].freed + Ends(run[i].cells[run[i].m..])
  {
    RunInv(run, i);
  }

  /** Nothing is overlooked: when reclaim reads the watch of the next unfreed slot and the
      packet there is finished, the watched slot reports it. */
  lemma FinishedIsSeen(run: seq<State>, i: nat)
    requires Run(run) && i + 1 < |run| && run[i].Shape() && Load(run[i], run[i + 1])
    ensures run[i].m < |run[i].cells| && run[i].m + run[i].cells[run[i].m].toEnd < run[i].finished ==>
              run[i + 1].clean.eop < run[i + 1].n && run[i + 1].ds[run[i + 1].clean.eop].dd
  {
    var s := run[i];
    RunInv(run, i);
    if s.m < |s.cells| {
      assert CellAt(s.n, s.bs, s.ds, s.nextToClean, s.cells, s.finished, s.m);
      var e := s.m + s.cells[s.m].toEnd;
      if e < s.finished {
        WholeReach(s.cells, s.m, s.cells[s.m].toEnd);
        assert CellAt(s.n, s.bs, s.ds, s.nextToClean, s.cells, s.finished, e);
      }
    }
  }

  // ----- Reclaim gets on -----

  /** A run of the reclaimer alone */
  ghost predicate CleanRun(run: seq<State>) {
    && |run| > 0
    && forall i {:trigger CleanStep(run[i], run[i + 1])} :: 0 <= i < |run| - 1 ==> CleanStep(run[i], run[i + 1])
  }

  ghost predicate CleanStep(s: State, t: State) { s.Shape() && (Load(s, t) || Test(s, t) || Free(s, t)) }

  lemma Prefixed(s: State, run: seq<State>)
    requires CleanRun(run) && CleanStep(s, run[0])
    ensures CleanRun([s] + run)
  {
    hide CleanStep;
    var all := [s] + run;
    forall i | 0 <= i < |all| - 1
      ensures CleanStep(all[i], all[i + 1])
    {
      if i > 0 {
        var j := i - 1;
        assert CleanStep(run[j], run[j + 1]);
      }
    }
  }

  /** One slot is freed. */
  lemma FreesOne(s: State, e: nat) returns (t: State)
    requires Inv(s) && s.m <= e < s.finished && s.cells[e].toEnd == 0
    requires s.clean == Freeing(Slot(s.nextToClean, e, s.n))
    ensures CleanStep(s, t) && Inv(t)
    ensures t == s.(bs := t.bs, ds := t.ds, freed := t.freed, m := s.m + 1,
                    clean := if s.m == e then Loading else s.clean)
    ensures t.freed == s.freed + if s.cells[s.m].toEnd == 0 then [s.cells[s.m].id] else []
  {
    hide TxOk;
    var i, m := Slot(s.nextToClean, s.m, s.n), s.m;
    t := s.(bs := s.bs[i := s.bs[i].(skb := None, addr := 0)], ds := s.ds[i := s.ds[i].(dd := false)],
            freed := if s.bs[i].skb.Some? then s.freed + [s.bs[i].skb.value] else s.freed,
            m := m + 1, clean := if i == s.clean.eop then Loading else s.clean);
    assert CellAt(s.n, s.bs, s.ds, s.nextToClean, s.cells, s.finished, m);
    assert Free(s, t);
    FreeInv(s, t);
  }

  /** Freeing goes on up to and including the watched slot. */
  lemma {:induction false} FreesUpTo(s: State, e: nat) returns (run: seq<State>)
    requires Inv(s) && s.m <= e < s.finished <= |s.cells| && s.cells[e].toEnd == 0 && s.nextToClean < s.n && e < s.n
    requires s.clean == Freeing(Slot(s.nextToClean, e, s.n))
    ensures CleanRun(run) && |run| > 0 && run[0] == s
    ensures var t := run[|run| - 1]; t.clean == Loading && t.freed == s.freed + Ends(s.cells[s.m..e + 1])
    decreases e - s.m
  {
    hide Inv, CleanStep, CleanRun, Ends, Slot;
    var m := s.m;
    var t := FreesOne(s, e);
    var ends := s.cells[m..e + 1];
    assert ends[0] == s.cells[m] && ends[1..] == s.cells[m + 1..e + 1];
    ConsEnds(ends);
    Alone(t);
    if m == e {
      assert ends[1..] == [];
      NoEnds();
      run := [t];
    } else {
      run := FreesUpTo(t, e);
      Regroup(s.freed, if ends[0].toEnd == 0 then [ends[0].id] else [], Ends(ends[1..]));
    }
    Prefixed(s, run);
    var last := run[|run| - 1];
    assert last.freed == s.freed + Ends(ends) && last.clean == Loading;
    run := [s] + run;
    assert run[|run| - 1] == last;
  }

  lemma Alone(s: State)
    ensures CleanRun([s])
  {
  }

  lemma NoEnds()
    ensures Ends([]) == []
  {
  }

  lemma {:induction false} EndsOfPacket(cells: seq<Cell>, k: nat)
    requires Whole(cells) && k < |cells|
    ensures k + cells[k].toEnd < |cells| && cells[k + cells[k].toEnd].toEnd == 0
    ensures Ends(cells[k..k + cells[k].toEnd + 1]) == [cells[k].id]
    decreases cells[k].toEnd
  {
    var d := cells[k].toEnd;
    assert Linked(cells, k);
    if d == 0 {
      assert cells[k..k + 1][1..] == [];
    } else {
      EndsOfPacket(cells, k + 1);
      var ps := cells[k..k + d + 1];
      assert ps[1..] == cells[k + 1..k + 1 + (d - 1) + 1];
      ConsEnds(ps);
    }
  }

  /** Reclaim gets on: from where it reads a watch, with the next packet finished, its own steps free
      that packet, whatever the others have done before. */
  lemma FinishedIsFreed(run: seq<State>, i: nat) returns (more: seq<State>)
    requires Run(run) && i < |run| && run[i].clean == Loading && run[i].m < |run[i].cells|
    requires run[i].m + run[i].cells[run[i].m].toEnd < run[i].finished
    ensures CleanRun(more) && more[0] == run[i]
    ensures var t := more[|more| - 1]; t.clean == Loading && t.freed == run[i].freed + [run[i].cells[run[i].m].id]
  {
    hide Run, Inv, CleanStep, CleanRun, Ends, Slot;
    var s := run[i];
    RunInv(run, i);
    var e := s.m + s.cells[s.m].toEnd;
    var loaded, tested := FoundFinished(s, e);
    more := FreesUpTo(tested, e);
    Prefixed(loaded, more);
    more := [loaded] + more;
    Prefixed(s, more);
    more := [s] + more;
  }

  /** The watched slot of a finished packet reports. */
  lemma FinishedReports(s: State, e: nat)
    requires Inv(s) && s.clean == Loading && s.m < |s.cells| && e == s.m + s.cells[s.m].toEnd < s.finished
    ensures s.nextToClean < s.n && s.finished <= |s.cells| < s.n == |s.bs| == |s.ds| && s.cells[e].toEnd == 0
    ensures s.bs[Slot(s.nextToClean, s.m, s.n)].watch == Slot(s.nextToClean, e, s.n)
    ensures s.ds[Slot(s.nextToClean, e, s.n)].dd
    ensures Ends(s.cells[s.m..e + 1]) == [s.cells[s.m].id]
  {
    hide TxOk;
    EndsOfPacket(s.cells, s.m);
    WholeReach(s.cells, s.m, s.cells[s.m].toEnd);
    assert CellAt(s.n, s.bs, s.ds, s.nextToClean, s.cells, s.finished, s.m);
    assert CellAt(s.n, s.bs, s.ds, s.nextToClean, s.cells, s.finished, e);
  }

  /** The watched slot of a finished packet is read and found to report. */
  lemma FoundFinished(s: State, e: nat) returns (loaded: State, tested: State)
    requires Inv(s) && s.clean == Loading && s.m < |s.cells| && e == s.m + s.cells[s.m].toEnd < s.finished
    ensures CleanStep(s, loaded) && CleanStep(loaded, tested) && Inv(tested)
    ensures s.nextToClean < s.n && s.finished <= |s.cells| < s.n && s.cells[e].toEnd == 0
    ensures Ends(s.cells[s.m..e + 1]) == [s.cells[s.m].id]
    ensures tested == s.(clean := Freeing(Slot(s.nextToClean, e, s.n)))
  {
    hide TxOk, RingOk, CleanOk, Ends;
    FinishedReports(s, e);
    loaded := s.(clean := Testing(s.bs[Slot(s.nextToClean, s.m, s.n)].watch));
    assert Load(s, loaded);
    LoadInv(s, loaded);
    tested := loaded.(clean := Freeing(loaded.clean.eop));
    assert Test(loaded, tested);
    TestInv(loaded, tested);
  }

  /** The transmitter never writes a slot that is published and not yet freed. */
  lemma BuildsOnFreeSlots(run: seq<State>, i: nat, j: nat, k: nat)
    requires Run(run) && i < |run| && j < run[i].Total() && run[i].nextToClean < run[i].n && k < |run[i].cells|
    ensures |run[i].cells| + j <= run[i].n && run[i].Building(j) != Slot(run[i].nextToClean, k, run[i].n)
  {
    RunInv(run, i);
  }
}
