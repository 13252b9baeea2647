/** Reconciling a netmap ring with the queue of a device: the transmit and receive sides of
    virtio-net and the transmit side of e1000. Slots belong to the user from hwcur up to hwtail and
    to the device otherwise. */
module NetmapSync {
  import Rings

  /** How far `b` is ahead of `a` on a ring of `n` slots */
  function Dist(a: nat, b: nat, n: nat): (d: nat)
    requires a < n && b < n
    ensures d < n
  {
    if b >= a then b - a else b - a + n
  }

  /** nm_next and nm_prev, with `lim` the last slot */
  function NmNext(i: nat, lim: nat): nat { if i == lim then 0 else i + 1 }

  function NmPrev(i: nat, lim: nat): nat { if i == 0 then lim else i - 1 }

  /** The check of the head a user hands in (nm_txsync_prologue with the bounds of the last round,
      nm_rxsync_prologue with hwcur and hwtail); a head beyond the ring is refused by the caller. */
  predicate HeadAccepted(from: nat, tail: nat, head: nat, n: nat) {
    head < n && if tail >= from then from <= head <= tail else !(tail < head < from)
  }

  /** The check with its cases says one thing: the head is on the ring and not beyond the tail. */
  lemma HeadAcceptedMeans(from: nat, tail: nat, head: nat, n: nat)
    requires from < n && tail < n
    ensures HeadAccepted(from, tail, head, n) <==> head < n && Dist(from, head, n) <= Dist(from, tail, n)
  {
  }

  /** ... for every head. */
  lemma AcceptsMeans(from: nat, tail: nat, n: nat)
    requires from < n && tail < n
    ensures forall h: nat :: HeadAccepted(from, tail, h, n) <==> h < n && Dist(from, h, n) <= Dist(from, tail, n)
  {
  }

  lemma Same(a: nat, n: nat)
    requires a < n
    ensures Dist(a, a, n) == 0
  {
  }

  /** Distances add up as long as they stay below one turn of the ring. */
  lemma DistSum(a: nat, b: nat, c: nat, n: nat)
    requires a < n && b < n && c < n
    ensures Dist(a, b, n) + Dist(b, c, n) == Dist(a, c, n) + (if Dist(a, b, n) + Dist(b, c, n) < n then 0 else n)
  {
  }

  // ----- virtio-net, transmit -----

  class VirtioTx {
    const n: nat
    var hwcur: nat
    var hwtail: nat
    /** Head and tail as of the last round */
    var rhead: nat
    var rtail: nat
    /** Buffers of this ring with the device: sent and not yet collected. Of these `done` have been
        used by the device. Other buffers may be in the queue as well. */
    var inflight: nat
    var done: nat
    var others: nat

    /** Conservation: every slot is free or in flight, but for one. */
    ghost predicate Valid()
      reads this
    {
      && n >= 2 && hwcur < n && hwtail < n && rhead < n && rtail < n && done <= inflight
      && inflight + Dist(hwcur, hwtail, n) == n - 1
      && Dist(hwcur, rhead, n) + Dist(rhead, rtail, n) <= Dist(hwcur, hwtail, n)
    }

    constructor (n: nat)
      requires n >= 2
      ensures Valid() && inflight == 0 && this.n == n
    {
      this.n, hwcur, hwtail, rhead, rtail, inflight, done, others := n, 0, n - 1, 0, n - 1, 0, 0, 0;
    }

    /** The device uses a buffer. */
    method Complete()
      requires Valid() && done < inflight
      modifies `done
      ensures Valid()
    {
      done := done + 1;
    }

    /** Collects the used buffers, counting those with the right token. */
    method Collect() returns (c: nat)
      requires done <= inflight
      modifies `done, `others, `inflight
      ensures c == old(done) && done == 0 && inflight == old(inflight) - c
    {
      c := 0;
      while done > 0 || others > 0
        invariant c + done == old(done) && inflight == old(inflight) - c && done <= inflight
        decreases done + others
      {
        if done > 0 && others > 0 {
          var ours: bool := *;
          if ours { done, inflight, c := done - 1, inflight - 1, c + 1; } else { others := others - 1; }
        } else if done > 0 {
          done, inflight, c := done - 1, inflight - 1, c + 1;
        } else {
          others := others - 1;
        }
      }
    }

    /** Sends the slots up to `head`, or as many as the queue has room for. */
    method Send(head: nat, room: nat) returns (full: bool)
      requires n >= 2 && hwcur < n && head < n
      modifies `hwcur, `inflight
      ensures hwcur < n && inflight == old(inflight) + Dist(old(hwcur), hwcur, n) && (!full ==> hwcur == head)
      ensures Dist(old(hwcur), hwcur, n) + Dist(hwcur, head, n) == Dist(old(hwcur), head, n)
      ensures full == (Dist(old(hwcur), head, n) > room)
      ensures Dist(old(hwcur), hwcur, n) == if full then room else Dist(old(hwcur), head, n)
    {
      full := false;
      var i: nat, left: nat := hwcur, room;
      ghost var sent: nat := 0;
      while i != head && !full
        invariant left == room - sent && i < n && sent == Dist(hwcur, i, n) && inflight == old(inflight) + sent
        invariant sent + Dist(i, head, n) == Dist(hwcur, head, n)
        invariant sent <= room && (full ==> sent == room && i != head)
        modifies `inflight
        decreases Dist(i, head, n), !full
      {
        full := left == 0;
        if !full {
          inflight := inflight + 1;
          left := left - 1;
          i, sent := NmNext(i, n - 1), sent + 1;
        }
      }
      hwcur := i;
    }

    /** The first part of virtio_netmap_txsync: the tail moves past the slots that came back. */
    method CollectTail()
      requires Valid()
      modifies `hwtail, `done, `others, `inflight
      ensures Valid() && Dist(old(hwtail), hwtail, n) == old(done) == old(inflight) - inflight
      ensures Dist(hwcur, hwtail, n) == Dist(hwcur, old(hwtail), n) + old(done)
    {
      var c := Collect();
      TailMoves(hwcur, hwtail, c, n);
      hwtail := hwtail + c;
      if hwtail > n - 1 { hwtail := hwtail - n; }
    }

    /** The check of a head, as the last round has left its bounds */
    ghost predicate Accepts(head: nat)
      requires rhead < n && rtail < n
      reads this
    {
      HeadAccepted(rhead, rtail, head, n)
    }

    /** The check, virtio_netmap_txsync and the end of the round. Slots up to `head` are sent, or
        fewer if the interface is down or the queue has less room; the tail moves past exactly the slots
        that came back, which takes one correction of its wrap at most. */
    method TxSync(head: nat, running: bool, room: nat) returns (accepted: bool, full: bool)
      requires Valid()
      modifies this
      ensures Valid() && accepted == (head < n && Dist(old(rhead), head, n) <= Dist(old(rhead), old(rtail), n))
      ensures !accepted ==> unchanged(this)
      ensures accepted ==> Dist(old(hwtail), hwtail, n) == old(done)
      ensures accepted && running ==>
                && full == (Dist(old(hwcur), head, n) > room)
                && Dist(old(hwcur), hwcur, n) == (if full then room else Dist(old(hwcur), head, n))
                && (!full ==> hwcur == head)
      ensures accepted && !running ==> hwcur == old(hwcur)
      ensures accepted ==> inflight == old(inflight) - old(done) + Dist(old(hwcur), hwcur, n)
      // the next round accepts exactly the heads that are not beyond the tail
      ensures accepted == old(Accepts(head)) && (accepted ==> rhead == head && rtail == hwtail)
      ensures accepted ==> forall h: nat :: Accepts(h) <==> h < n && Dist(head, h, n) <= Dist(head, hwtail, n)
    {
      hide Dist, HeadAccepted;
      full := false;
      accepted := HeadAccepted(rhead, rtail, head, n);
      HeadAcceptedMeans(rhead, rtail, head, n);
      if !accepted { return; }
      Same(hwcur, n);
      DistSum(hwcur, rhead, head, n);
      DistSum(hwcur, rhead, rtail, n);
      CollectTail();
      rhead := head;
      if running {
        ghost var start := hwcur;
        full := Send(head, room);
        DistSum(start, hwcur, hwtail, n);
        DistSum(hwcur, head, hwtail, n);
      }
      DistSum(hwcur, rhead, hwtail, n);
      rtail := hwtail;
      AcceptsMeans(head, hwtail, n);
    }

    /** The tail moved by `c` slots, with its wrap corrected once. */
    static lemma TailMoves(cur: nat, tail: nat, c: nat, n: nat)
      requires cur < n && tail < n && Dist(cur, tail, n) + c < n
      ensures var t := if tail + c > n - 1 then tail + c - n else tail + c;
              t < n && Dist(cur, t, n) == Dist(cur, tail, n) + c && Dist(tail, t, n) == c
    {
    }
  }

  // ----- virtio-net, receive -----

  class VirtioRx {
    const n: nat
    /** How many buffers the virtqueue can hold */
    const capacity: nat
    var hwcur: nat
    var hwtail: nat
    /** Buffers posted to the device, of which `used` hold packets */
    var posted: nat
    var used: nat
    ghost var initial: nat

    /** Conservation: what is posted and what the user holds are together the initial post. */
    ghost predicate Valid()
      reads this
    {
      && n >= 2 && hwcur < n && hwtail < n && used <= posted
      && posted + Dist(hwcur, hwtail, n) == initial && initial < n && initial <= capacity
    }

    /** virtio_netmap_init_buffers: posts one slot less than the ring has, or until the queue is
        full. */
    constructor (n: nat, capacity: nat)
      requires n >= 2
      ensures Valid() && this.n == n && this.capacity == capacity
      ensures posted == initial == if capacity < n - 1 then capacity else n - 1
    {
      this.n, this.capacity, hwcur, hwtail, used := n, capacity, 0, 0, 0;
      var i := 0;
      while i < n - 1 && i < capacity
        invariant 0 <= i <= n - 1 && i <= capacity
      {
        i := i + 1;
      }
      posted, initial := i, i;
    }

    /** The device fills a buffer. */
    method Receive()
      requires Valid() && used < posted
      modifies `used
      ensures Valid()
    {
      used := used + 1;
    }

    /** virtqueue_add_inbuf: it fails when the queue is full. */
    method AddInbuf() returns (nospace: bool)
      requires posted <= capacity
      modifies `posted
      ensures nospace == (old(posted) == capacity) && posted == old(posted) + if nospace then 0 else 1
    {
      nospace := posted == capacity;
      if !nospace { posted := posted + 1; }
    }

    /** The first part of virtio_netmap_rxsync: packets are handed to the user. */
    method Import()
      requires Valid()
      modifies `hwtail, `posted, `used
      ensures Valid() && used == 0 && Dist(old(hwtail), hwtail, n) == old(used)
      ensures Dist(hwcur, hwtail, n) == Dist(hwcur, old(hwtail), n) + old(used)
    {
      var i: nat := hwtail;
      ghost var taken: nat := 0;
      while used > 0
        invariant i < n && taken == Dist(hwtail, i, n) && taken + used == old(used) && posted == old(posted) - taken
        invariant used <= posted && Dist(hwcur, i, n) == Dist(hwcur, hwtail, n) + taken
        modifies `posted, `used
        decreases used
      {
        used, posted := used - 1, posted - 1;
        i, taken := NmNext(i, n - 1), taken + 1;
      }
      hwtail := i;
    }

    /** The second part: posts the released slots again, up to the first whose buffer index is
        invalid. The queue is never full. */
    method Repost(head: nat, bad: set<nat>) returns (reinit: bool, ghost back: nat)
      requires Valid() && head < n && Dist(hwcur, head, n) <= Dist(hwcur, hwtail, n)
      modifies `posted
      ensures posted == old(posted) + back && back <= Dist(hwcur, head, n)
      ensures forall k :: 0 <= k < back ==> Rings.Slot(hwcur, k, n) !in bad
      ensures if reinit then back < Dist(hwcur, head, n) && Rings.Slot(hwcur, back, n) in bad
              else back == Dist(hwcur, head, n)
    {
      reinit, back := false, 0;
      var i: nat := hwcur;
      while i != head
        invariant i < n && back == Dist(hwcur, i, n) && posted == old(posted) + back
        invariant back + Dist(i, head, n) == Dist(hwcur, head, n)
        invariant forall k :: 0 <= k < back ==> Rings.Slot(hwcur, k, n) !in bad
        modifies `posted
        decreases Dist(i, head, n)
      {
        assert Rings.Slot(hwcur, back, n) == i;
        if i in bad { return true, back; }
        var nospace := AddInbuf();
        assert !nospace;
        if nospace { break; }
        i, back := NmNext(i, n - 1), back + 1;
      }
    }

    /** The check and virtio_netmap_rxsync. `bad` are the slots whose buffer index is invalid: the
        first of them that the user has released ends the call early. Otherwise everything
        released is posted again, so setting hwcur to the head is right. */
    method RxSync(head: nat, update: bool, bad: set<nat>) returns (accepted: bool, reinit: bool, ghost excess: nat)
      requires Valid()
      modifies `hwcur, `hwtail, `posted, `used
      ensures accepted == (head < n && Dist(old(hwcur), head, n) <= Dist(old(hwcur), old(hwtail), n))
      ensures (!accepted ==> unchanged(this)) && hwcur < n && hwtail < n
      ensures accepted ==> Dist(old(hwtail), hwtail, n) == if update then old(used) else 0
      ensures accepted && !reinit ==> Valid() && hwcur == head
      ensures accepted ==>
                (reinit <==> exists k: nat :: k < Dist(old(hwcur), head, n) && Rings.Slot(old(hwcur), k, n) in bad)
      // an early end has posted the slots before the bad one without taking them from the user
      ensures reinit ==> accepted && hwcur == old(hwcur) && posted + Dist(hwcur, hwtail, n) == initial + excess
      ensures reinit ==> excess < n && Rings.Slot(hwcur, excess, n) in bad
                         && forall k: nat :: k < excess ==> Rings.Slot(hwcur, k, n) !in bad
    {
      hide Dist, HeadAccepted;
      reinit, excess := false, 0;
      accepted := HeadAccepted(hwcur, hwtail, head, n);
      HeadAcceptedMeans(hwcur, hwtail, head, n);
      Same(hwtail, n);
      if !accepted { return; }
      DistSum(hwcur, head, hwtail, n);
      if update { Import(); }
      reinit, excess := Repost(head, bad);
      if reinit { return; }
      DistSum(hwcur, head, hwtail, n);
      hwcur := head;
    }
  }

  // ----- e1000, transmit -----

  /** A slot of the user's ring: its buffer, the length, and NS_REPORT and NS_BUF_CHANGED */
  datatype UserSlot = UserSlot(buf: nat, len: nat, report: bool, changed: bool)

  datatype Desc = Desc(addr: nat, len: nat, rs: bool)

  class E1000Tx {
    const n: nat
    /** How far the user's ring is ahead of the NIC's (nkr_hwofs) */
    const ofs: int
    const bufSize: nat
    const headOffset: nat
    const slots: array<UserSlot>
    const desc: array<Desc>
    var hwcur: nat
    var hwtail: nat
    var rhead: nat
    var rcur: nat
    var rtail: nat
    /** The registers: the NIC owns the descriptors from tdh up to tdt. */
    var tdh: nat
    var tdt: nat
    /** Descriptors given to the NIC and not yet sent, by count */
    ghost var flying: nat

    /** netmap_idx_k2n and netmap_idx_n2k */
    function K2N(i: nat): nat
      requires 0 < ofs + n && ofs < n && i < n
    {
      var j := i - ofs;
      if j < 0 then j + n else if j < n then j else j - n
    }

    function N2K(i: nat): nat
      requires 0 < ofs + n && ofs < n && i < n
    {
      var j := i + ofs;
      if j < 0 then j + n else if j < n then j else j - n
    }

    ghost predicate Shape() {
      n >= 2 && 0 < ofs + n && ofs < n && slots.Length == n && desc.Length == n
    }

    ghost predicate Indexes()
      reads this
    {
      && Shape() && hwcur < n && hwtail < n && rhead < n && rtail < n && tdh < n && tdt < n
      && tdt == K2N(hwcur) && flying == Dist(tdh, tdt, n) && flying + Dist(hwcur, hwtail, n) <= n - 1
      && Dist(hwcur, rhead, n) + Dist(rhead, rtail, n) <= Dist(hwcur, hwtail, n)
    }

    /** A slot's descriptor has the address of its buffer, unless the slot says it has changed. */
    ghost predicate Mapped()
      requires Shape()
      reads slots, desc
    {
      forall i :: 0 <= i < n && !slots[i].changed ==> desc[K2N(i)].addr == slots[i].buf + headOffset
    }

    ghost predicate Valid()
      reads this, slots, desc
    {
      Indexes() && Mapped()
    }

    lemma Inverse(i: nat)
      requires Shape() && i < n
      ensures K2N(i) < n && N2K(i) < n && N2K(K2N(i)) == i && K2N(N2K(i)) == i
      ensures NmNext(K2N(i), n - 1) == K2N(NmNext(i, n - 1))
    {
    }

    lemma SameDist(i: nat, j: nat)
      requires Shape() && i < n && j < n
      ensures K2N(i) < n && K2N(j) < n && Dist(K2N(i), K2N(j), n) == Dist(i, j, n)
    {
    }

    constructor (n: nat, ofs: int, bufSize: nat, headOffset: nat)
      requires n >= 2 && 0 < ofs + n && ofs < n
      ensures Valid() && flying == 0 && fresh(slots) && fresh(desc) && this.n == n
    {
      this.n, this.ofs, this.bufSize, this.headOffset := n, ofs, bufSize, headOffset;
      slots := new UserSlot[n](_ => UserSlot(0, 0, false, true));
      desc := new Desc[n](_ => Desc(0, 0, false));
      tdh, tdt, flying := 0, 0, 0;
      var cur: nat := if ofs < 0 then ofs + n else ofs;
      hwcur, rhead, rcur := cur, cur, cur;
      hwtail, rtail := NmPrev(cur, n - 1), NmPrev(cur, n - 1);
    }

    /** The user fills a slot; a new buffer comes with the flag. */
    method UserWrites(i: nat, slot: UserSlot)
      requires Valid() && i < n && (slots[i].changed || slot.buf != slots[i].buf ==> slot.changed)
      modifies slots
      ensures Valid() && slots[..] == old(slots[..])[i := slot]
    {
      slots[i] := slot;
    }

    /** The NIC sends `k` packets. */
    method Sends(k: nat)
      requires Valid() && k <= flying
      modifies `tdh, `flying
      ensures Valid() && flying == old(flying) - k && Dist(old(tdh), tdh, n) == k
    {
      tdh := if tdh + k >= n then tdh + k - n else tdh + k;
      flying := flying - k;
    }

    /** The descriptor for a slot, given the address it had: the length is cut to a buffer, and a
        report is asked for where the user wants one and twice a turn. */
    function DescFor(slot: UserSlot, was: Desc, nic: nat): Desc {
      Desc(if slot.changed then slot.buf + headOffset else was.addr, if slot.len > bufSize then bufSize else slot.len,
           slot.report || nic == 0 || nic == n / 2)
    }

    function Cleared(slot: UserSlot): UserSlot { slot.(report := false, changed := false) }

    /** Whatever the user asks for, within half a turn of the ring a report is asked for. */
    lemma ReportComes(i: nat) returns (k: nat)
      requires Shape() && i < n
      ensures k < n - n / 2
      ensures forall slot: UserSlot, was: Desc :: DescFor(slot, was, Rings.Slot(i, k, n)).rs
    {
      k := if i == 0 then 0 else if i <= n / 2 then n / 2 - i else n - i;
    }

    /** Slot `i` after the slots from `from` up to `k` places on have been handed over. */
    ghost predicate Handed(ss: seq<UserSlot>, ds: seq<Desc>, ss': seq<UserSlot>, ds': seq<Desc>,
                           from: nat, k: nat, i: nat)
      requires Shape() && |ss| == |ds| == |ss'| == |ds'| == n && from < n && i < n
    {
      if Dist(from, i, n) < k then ds'[K2N(i)] == DescFor(ss[i], ds[K2N(i)], K2N(i)) && ss'[i] == Cleared(ss[i])
      else ds'[K2N(i)] == ds[K2N(i)] && ss'[i] == ss[i]
    }

    ghost predicate AllHanded(ss: seq<UserSlot>, ds: seq<Desc>, ss': seq<UserSlot>, ds': seq<Desc>,
                              from: nat, k: nat)
    {
      && Shape() && |ss| == |ds| == |ss'| == |ds'| == n && from < n
      && forall i {:trigger Handed(ss, ds, ss', ds', from, k, i)} :: 0 <= i < n ==>
           Handed(ss, ds, ss', ds', from, k, i)
    }

    /** A slot that has been handed over: its descriptor is for its buffer, as long as the user wants
        but never longer than a buffer, and asks for a report if the user does; the slot asks for
        nothing more. The other slots are as they were. */
    lemma HandedMeans(ss: seq<UserSlot>, ds: seq<Desc>, ss': seq<UserSlot>, ds': seq<Desc>, from: nat, k: nat, i: nat)
      requires AllHanded(ss, ds, ss', ds', from, k) && i < n
      requires !ss[i].changed ==> ds[K2N(i)].addr == ss[i].buf + headOffset
      ensures Dist(from, i, n) >= k ==> ss'[i] == ss[i] && ds'[K2N(i)] == ds[K2N(i)]
      ensures var d, slot := ds'[K2N(i)], ss'[i];
              Dist(from, i, n) < k ==>
                && d.addr == ss[i].buf + headOffset && d.len <= bufSize && d.len <= ss[i].len
                && (d.len == bufSize || d.len == ss[i].len) && (ss[i].report ==> d.rs)
                && slot.buf == ss[i].buf && slot.len == ss[i].len && !slot.report && !slot.changed
    {
      assert Handed(ss, ds, ss', ds', from, k, i);
    }

    /** One turn of the loop. */
    method HandOne(i: nat, nic: nat, ghost ss: seq<UserSlot>, ghost ds: seq<Desc>, ghost from: nat, ghost k: nat)
      requires AllHanded(ss, ds, slots[..], desc[..], from, k) && i < n && nic == K2N(i) && Dist(from, i, n) == k
      modifies slots, desc
      ensures AllHanded(ss, ds, slots[..], desc[..], from, k + 1)
    {
      assert Handed(ss, ds, slots[..], desc[..], from, k, i);
      ghost var ss1, ds1 := slots[..], desc[..];
      var slot := slots[i];
      var len := if slot.len > bufSize then bufSize else slot.len;
      var rs := slot.report || nic == 0 || nic == n / 2;
      desc[nic] := Desc(if slot.changed then slot.buf + headOffset else desc[nic].addr, len, rs);
      slots[i] := slot.(report := false, changed := false);
      ghost var ss2, ds2, k2 := slots[..], desc[..], k + 1;
      forall j | 0 <= j < n
        ensures Handed(ss, ds, ss2, ds2, from, k2, j)
      {
        assert Handed(ss, ds, ss1, ds1, from, k, j);
      }
    }

    /** The loop of e1000_netmap_txsync: hands the slots up to `head` to the NIC. */
    method Fill(head: nat) returns (nic: nat)
      requires Indexes() && head < n
      modifies slots, desc
      ensures nic == K2N(head)
      ensures AllHanded(old(slots[..]), old(desc[..]), slots[..], desc[..], hwcur, Dist(hwcur, head, n))
    {
      ghost var ss, ds, from := slots[..], desc[..], hwcur;
      ghost var k: nat := 0;
      var i: nat := hwcur;
      nic := K2N(hwcur);
      StartHanded(ss, ds, from);
      Same(hwcur, n);
      hide AllHanded, K2N;
      while i != head
        invariant i < n && nic == K2N(i) && k == Dist(from, i, n) && AllHanded(ss, ds, slots[..], desc[..], from, k)
        invariant k + Dist(i, head, n) == Dist(from, head, n)
        modifies slots, desc
        decreases Dist(i, head, n)
      {
        HandOne(i, nic, ss, ds, from, k);
        Inverse(i);
        i, nic, k := NmNext(i, n - 1), NmNext(nic, n - 1), k + 1;
      }
    }

    /** The first part of e1000_netmap_txsync. It writes no descriptor that the NIC owns. */
    method HandOver(head: nat)
      requires Valid() && head < n && Dist(hwcur, head, n) <= Dist(hwcur, hwtail, n)
      requires Dist(hwcur, head, n) + Dist(head, rtail, n) <= Dist(hwcur, hwtail, n) && rhead == head
      modifies `hwcur, `tdt, `flying, slots, desc
      ensures Valid() && hwcur == head && flying == old(flying) + Dist(old(hwcur), head, n)
      ensures AllHanded(old(slots[..]), old(desc[..]), slots[..], desc[..], old(hwcur), Dist(old(hwcur), head, n))
      ensures forall j :: 0 <= j < n && Dist(tdh, j, n) < old(flying) ==> desc[j] == old(desc[j])
    {
      ghost var ss, ds := slots[..], desc[..];
      assert forall i :: 0 <= i < n && !ss[i].changed ==> ds[K2N(i)].addr == ss[i].buf + headOffset;
      hide AllHanded, K2N, Dist, Mapped;
      var nic := Fill(head);
      ghost var k := Dist(hwcur, head, n);
      StillMapped(ss, ds, hwcur, k);
      forall j | 0 <= j < n && Dist(tdh, j, n) < flying
        ensures desc[j] == ds[j]
      {
        NicUndisturbed(ss, ds, slots[..], desc[..], hwcur, hwtail, k, tdh, flying, j);
      }
      SameDist(hwcur, head);
      DistSum(tdh, tdt, nic, n);
      DistSum(hwcur, head, hwtail, n);
      hwcur, tdt := head, nic;
      flying := flying + k;
      Same(head, n);
    }

    lemma StartHanded(ss: seq<UserSlot>, ds: seq<Desc>, from: nat)
      requires Shape() && |ss| == |ds| == n && from < n
      ensures AllHanded(ss, ds, ss, ds, from, 0)
    {
    }

    lemma StillMapped(ss: seq<UserSlot>, ds: seq<Desc>, from: nat, k: nat)
      requires AllHanded(ss, ds, slots[..], desc[..], from, k)
      requires forall i :: 0 <= i < n && !ss[i].changed ==> ds[K2N(i)].addr == ss[i].buf + headOffset
      ensures Mapped()
    {
      forall i | 0 <= i < n && !slots[i].changed
        ensures desc[K2N(i)].addr == slots[i].buf + headOffset
      {
        assert Handed(ss, ds, slots[..], desc[..], from, k, i);
      }
    }

    /** What is handed over leaves alone the descriptors the NIC owned before. */
    lemma NicUndisturbed(ss: seq<UserSlot>, ds: seq<Desc>, ss': seq<UserSlot>, ds': seq<Desc>,
                         from: nat, tail: nat, k: nat, head: nat, owned: nat, j: nat)
      requires AllHanded(ss, ds, ss', ds', from, k) && tail < n && head < n && j < n
      requires owned == Dist(head, K2N(from), n) && owned + Dist(from, tail, n) <= n - 1 && k <= Dist(from, tail, n)
      requires Dist(head, j, n) < owned
      ensures ds'[j] == ds[j]
    {
      Inverse(j);
      var i := N2K(j);
      assert Handed(ss, ds, ss', ds', from, k, i);
      SameDist(from, i);
      DistSum(head, j, K2N(from), n);
      DistSum(head, K2N(from), j, n);
    }

    /** The second part: the tail follows the NIC. */
    method Reclaim()
      requires Valid() && rhead == hwcur
      modifies `hwtail
      ensures Valid() && flying + Dist(hwcur, hwtail, n) == n - 1
    {
      var nic := tdh;
      if nic >= n { nic := nic - n; }
      Inverse(nic);
      SameDist(N2K(nic), hwcur);
      hwtail := NmPrev(N2K(nic), n - 1);
    }

    /** The check of a head, as the last round has left its bounds */
    ghost predicate Accepts(head: nat)
      requires rhead < n && rtail < n
      reads this
    {
      HeadAccepted(rhead, rtail, head, n)
    }

    /** e1000_netmap_txsync with the carrier up and a head that has passed the check */
    method Work(head: nat, force: bool, k: nat)
      requires Valid() && head < n && Dist(hwcur, head, n) <= Dist(hwcur, hwtail, n) && rhead == head
      requires Dist(hwcur, head, n) + Dist(head, rtail, n) <= Dist(hwcur, hwtail, n)
      modifies `hwcur, `hwtail, `tdh, `tdt, `flying, slots, desc
      ensures Valid() && hwcur == head
      ensures if force || rcur == old(hwtail) then flying + Dist(hwcur, hwtail, n) == n - 1 else hwtail == old(hwtail)
      ensures AllHanded(old(slots[..]), old(desc[..]), slots[..], desc[..], old(hwcur), Dist(old(hwcur), head, n))
      ensures forall j :: 0 <= j < n && Dist(old(tdh), j, n) < old(flying) ==> desc[j] == old(desc[j])
      ensures var given := old(flying) + Dist(old(hwcur), head, n);
              var sent := if k <= given then k else 0;
              flying == given - sent && Dist(old(tdh), tdh, n) == sent
    {
      hide Dist, AllHanded, Mapped, K2N;
      HandOver(head);
      Same(tdh, n);
      if k <= Dist(tdh, tdt, n) { Sends(k); }
      if force || rcur == hwtail { Reclaim(); }
    }

    /** The check, e1000_netmap_txsync and the end of the round, with the NIC sending `k` packets
        meanwhile. TDT never catches up with TDH: the descriptors between them are as many as have
        been given and not sent, which is less than the ring. */
    method TxSync(head: nat, cur: nat, carrier: bool, force: bool, k: nat) returns (accepted: bool)
      requires Valid()
      modifies this, slots, desc
      ensures Valid() && accepted == (head < n && Dist(old(rhead), head, n) <= Dist(old(rhead), old(rtail), n))
      ensures !accepted || !carrier ==> hwcur == old(hwcur) && slots[..] == old(slots[..]) && desc[..] == old(desc[..])
      ensures accepted && carrier ==> hwcur == head
      ensures accepted && carrier ==>
                AllHanded(old(slots[..]), old(desc[..]), slots[..], desc[..], old(hwcur), Dist(old(hwcur), head, n))
      ensures if accepted && carrier && (force || cur == old(hwtail)) then flying + Dist(hwcur, hwtail, n) == n - 1
              else hwtail == old(hwtail)
      ensures forall j :: 0 <= j < n && Dist(old(tdh), j, n) < old(flying) ==> desc[j] == old(desc[j])
      ensures accepted && carrier ==>
                && var given := old(flying) + Dist(old(hwcur), head, n);
                   var sent := if k <= given then k else 0;
                   flying == given - sent && Dist(old(tdh), tdh, n) == sent
      ensures !accepted || !carrier ==> flying == old(flying) && tdh == old(tdh) && tdt == old(tdt)
      ensures Dist(tdh, tdt, n) == flying <= n - 1
      // the next round accepts exactly the heads that are not beyond the tail
      ensures accepted == old(Accepts(head))
      ensures if accepted then rhead == head && rcur == cur && rtail == hwtail
              else rhead == old(rhead) && rcur == old(rcur) && rtail == old(rtail) && hwtail == old(hwtail)
      ensures accepted ==> forall h: nat :: Accepts(h) <==> h < n && Dist(head, h, n) <= Dist(head, hwtail, n)
    {
      hide Dist, HeadAccepted, AllHanded, Mapped, K2N;
      accepted := HeadAccepted(rhead, rtail, head, n);
      HeadAcceptedMeans(rhead, rtail, head, n);
      if !accepted { return; }
      DistSum(hwcur, rhead, head, n);
      DistSum(hwcur, rhead, rtail, n);
      DistSum(rhead, head, rtail, n);
      rhead, rcur := head, cur;
      if carrier { Work(head, force, k); }
      DistSum(hwcur, rhead, hwtail, n);
      rtail := hwtail;
      AcceptsMeans(head, hwtail, n);
    }
  }
}
