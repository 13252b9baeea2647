/** Stopping and waking the transmit queue (e1000_maybe_stop_tx against the end of
    e1000_clean_tx_irq): between the barriers the two run in any order. The link is up and
    the adapter is not going down. */
module TxWake {
  import opened TxRing

  /** `size` is what must be free: first for the packet at hand with two slots to spare, then,
      with `next`, for one more packet. */
  datatype Tx =
    | Idle
    | Checking(size: nat, next: bool)    // about to compare the free slots with `size`
    | Stopping(size: nat, next: bool)    // not enough: about to stop the queue
    | Rechecking(size: nat, next: bool)  // stopped: about to compare again
    | Starting(size: nat, next: bool)    // a reprieve: about to start the queue again
    | Sending(size: nat)                 // about to take at most `size - 2` slots

  datatype Clean =
    | Resting
    | Freeing(k: nat)        // k > 0 slots freed, about to write nextToClean
    | Written                // about to compare the free slots with the threshold
    | Waking                 // above it: about to look whether the queue is stopped

  /** The ring indexes are counted without wrapping: nextToUse - nextToClean slots are taken. */
  datatype State = State(n: nat, nextToUse: nat, nextToClean: nat, stopped: bool, tx: Tx, clean: Clean,
                         want: nat,    // the size that was last found not to fit
                         woken: bool)  // whether reclaim has woken the queue since the last packet was queued
  {
    ghost predicate Shape() { n >= MIN_TXD && nextToClean <= nextToUse <= nextToClean + n - 1 }

    function Unused(): int { n - 1 - (nextToUse - nextToClean) }
  }

  function Max(a: nat, b: nat): nat { if a >= b then a else b }

  ghost predicate Init(s: State) {
    s.n >= MIN_TXD && s.nextToUse == s.nextToClean && !s.stopped && s.tx == Idle && s.clean == Resting && s.want == 0
    && !s.woken
  }

  // ----- The transmitter -----

  /** The stack hands over a packet only while the queue runs; an empty ring would hold it. */
  ghost predicate Begin(s: State, t: State) {
    s.tx == Idle && !s.stopped && t.tx.Checking? && !t.tx.next && 2 <= t.tx.size <= s.n - 1 && t == s.(tx := t.tx)
  }

  /** What follows when there is room. */
  function Proceed(size: nat, next: bool): Tx { if next then Idle else Sending(size) }

  ghost predicate Check(s: State, t: State) {
    && s.tx.Checking?
    && t == s.(tx := if s.Unused() >= s.tx.size then Proceed(s.tx.size, s.tx.next) else Stopping(s.tx.size, s.tx.next))
  }

  ghost predicate Stop(s: State, t: State) {
    s.tx.Stopping? && t == s.(tx := Rechecking(s.tx.size, s.tx.next), stopped := true)
  }

  ghost predicate Recheck(s: State, t: State) {
    && s.tx.Rechecking?
    && t == if s.Unused() < s.tx.size then s.(tx := Idle, want := s.tx.size)
            else s.(tx := Starting(s.tx.size, s.tx.next))
  }

  ghost predicate Start(s: State, t: State) {
    s.tx.Starting? && t == s.(tx := Proceed(s.tx.size, s.tx.next), stopped := false)
  }

  /** The packet is queued; then the room for the next one is checked. */
  ghost predicate Send(s: State, t: State) {
    && s.tx.Sending? && s.nextToUse <= t.nextToUse <= s.nextToUse + s.tx.size - 2
    && t == s.(tx := Checking(MAX_SKB_FRAGS + 2, true), nextToUse := t.nextToUse, woken := false)
  }

  // ----- The reclaimer -----

  ghost predicate Free(s: State, t: State) {
    && s.clean == Resting && t.clean.Freeing? && 0 < t.clean.k <= s.nextToUse - s.nextToClean
    && t == s.(clean := t.clean)
  }

  ghost predicate Write(s: State, t: State) {
    s.clean.Freeing? && t == s.(clean := Written, nextToClean := s.nextToClean + s.clean.k)
  }

  ghost predicate Threshold(s: State, t: State) {
    s.clean == Written && t == s.(clean := if s.Unused() >= TX_WAKE_THRESHOLD then Waking else Resting)
  }

  ghost predicate Wake(s: State, t: State) {
    s.clean == Waking && t == s.(clean := Resting, stopped := false, woken := s.woken || s.stopped)
  }

  ghost predicate Next(s: State, t: State) {
    || Begin(s, t) || Check(s, t) || Stop(s, t) || Recheck(s, t) || Start(s, t) || Send(s, t)
    || Free(s, t) || Write(s, t) || Threshold(s, t) || Wake(s, t)
  }

  ghost predicate Run(run: seq<State>) {
    && |run| > 0 && Init(run[0])
    && forall i {:trigger Next(run[i], run[i + 1])} :: 0 <= i < |run| - 1 ==> Next(run[i], run[i + 1])
  }

  /** The queue is stopped and nobody is about to look at the ring again. */
  ghost predicate Asleep(s: State) {
    s.stopped && s.tx == Idle && s.clean != Written && s.clean != Waking
  }

  /** The queue runs and the transmitter is between two packets. */
  ghost predicate Ready(s: State) { !s.stopped && s.tx == Idle }

  /** The room looked for is that for the next packet. */
  ghost predicate ForNext(tx: Tx) { !tx.Idle? && !tx.Sending? && tx.next }

  ghost predicate Inv(s: State) {
    && s.Shape() && s.want <= s.n - 1
    && (match s.tx
        case Idle => true
        case Checking(size, _) => size <= s.n - 1 && (!s.tx.next ==> size >= 2)
        case Stopping(size, _) => size <= s.n - 1 && (!s.tx.next ==> size >= 2)
        case Rechecking(size, _) => size <= s.n - 1 && (!s.tx.next ==> size >= 2)
        case Starting(size, _) => size <= s.Unused() && (!s.tx.next ==> size >= 2)
        case Sending(size) => 2 <= size <= s.Unused())
    && (s.stopped ==> s.tx == Idle || s.tx.Rechecking? || s.tx.Starting?)
    && (s.clean.Freeing? ==> 0 < s.clean.k <= s.nextToUse - s.nextToClean)
    && (Asleep(s) ==> s.Unused() < Max(s.want, TX_WAKE_THRESHOLD))
    && (ForNext(s.tx) ==> s.tx.size == MAX_SKB_FRAGS + 2)
    && (s.tx.Rechecking? && !s.stopped ==> s.woken)
    && (Ready(s) && !s.woken ==> s.Unused() >= MAX_SKB_FRAGS + 2)
  }

  lemma TransmitterInv(s: State, t: State)
    requires Inv(s)
    requires Begin(s, t) || Check(s, t) || Stop(s, t) || Recheck(s, t) || Start(s, t) || Send(s, t)
    ensures Inv(t)
  {
  }

  lemma NextInv(s: State, t: State)
    requires Inv(s) && Next(s, t)
    ensures Inv(t)
  {
    if !(Free(s, t) || Write(s, t) || Threshold(s, t) || Wake(s, t)) { TransmitterInv(s, t); }
  }

  lemma {:induction false} RunInv(run: seq<State>, i: nat)
    requires Run(run) && i < |run|
    ensures Inv(run[i])
  {
    if i == 0 {
    } else {
      var j := i - 1;
      RunInv(run, j);
      assert Next(run[j], run[j + 1]);
      NextInv(run[j], run[i]);
    }
  }

  /** While the queue is stopped with no look at the ring pending, there is too little room:
      less than the refused packet wants, or less than the wake-up threshold. */
  lemma AsleepMeansShort(run: seq<State>, i: nat)
    requires Run(run) && i < |run| && Asleep(run[i])
    ensures run[i].Unused() < run[i].want || run[i].Unused() < TX_WAKE_THRESHOLD
  {
    RunInv(run, i);
  }

  /** No wake-up is lost: a stopped queue with no look pending has packets in its ring, so a
      later reclaim pass will look again. */
  lemma NoLostWakeUp(run: seq<State>, i: nat)
    requires Run(run) && i < |run| && Asleep(run[i])
    ensures run[i].nextToClean < run[i].nextToUse
  {
    RunInv(run, i);
  }

  /** A queue that runs has room for a packet with every fragment, unless reclaim has woken it since
      the last packet was queued. */
  lemma RunningHasRoom(run: seq<State>, i: nat)
    requires Run(run) && i < |run| && Ready(run[i]) && !run[i].woken
    ensures run[i].Unused() >= MAX_SKB_FRAGS + 2
  {
    RunInv(run, i);
  }

  /** Reclaim finds enough room, a packet takes it and stops the queue, and reclaim wakes it: the queue
      runs with nine slots free. */
  lemma StaleWake() returns (run: seq<State>)
    ensures Run(run) && Ready(run[|run| - 1]) && run[|run| - 1].woken && run[|run| - 1].Unused() == 9
  {
    var s0 := State(48, 0, 0, false, Idle, Resting, 0, false);
    var s1 := s0.(tx := Checking(3, false));
    var s2 := s1.(tx := Sending(3));
    var s3 := s2.(tx := Checking(19, true), nextToUse := 1);
    var s4 := s3.(tx := Idle, clean := Resting);
    var s5 := s4.(clean := Freeing(1));
    var s6 := s5.(clean := Written, nextToClean := 1);
    var s7 := s6.(clean := Waking);
    var s8 := s7.(tx := Checking(40, false));
    var s9 := s8.(tx := Sending(40));
    var s10 := s9.(tx := Checking(19, true), nextToUse := 39);
    var s11 := s10.(tx := Stopping(19, true));
    var s12 := s11.(tx := Rechecking(19, true), stopped := true);
    var s13 := s12.(tx := Idle, want := 19);
    var s14 := s13.(clean := Resting, stopped := false, woken := true);
    run := [s0, s1, s2, s3, s4, s5, s6, s7, s8, s9, s10, s11, s12, s13, s14];
    assert Begin(s0, s1) && Check(s1, s2) && Send(s2, s3) && Check(s3, s4) && Free(s4, s5) && Write(s5, s6);
    assert Threshold(s6, s7) && Begin(s7, s8) && Check(s8, s9) && Send(s9, s10) && Check(s10, s11);
    assert Stop(s11, s12) && Recheck(s12, s13) && Wake(s13, s14);
  }

  /** The transmitter never fills the ring: two slots stay free behind every packet. */
  lemma TwoStayFree(run: seq<State>, i: nat)
    requires Run(run) && i + 1 < |run| && Send(run[i], run[i + 1])
    ensures run[i + 1].Unused() >= 2
  {
    RunInv(run, i);
  }
}
