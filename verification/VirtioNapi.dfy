/** When the receive callback of virtio-net is re-armed (virtnet_poll, skb_recv_done,
    virtnet_napi_enable, virtnet_busy_poll): the device, interrupts, polling and the refill
    worker run in any order, each access to shared state being a step of its own. */
module VirtioNapi {
  const INDEX_RANGE := 0x1_0000

  /** Who holds NAPI_STATE_SCHED, and where they are. */
  datatype Holder =
    | Nobody
    | Claimed            // scheduled, callbacks not yet disabled
    | Receiving
    | Prepared(r: nat)   // callbacks enabled again, about to let go
    | Refill             // the refill worker, with NAPI disabled

  /** A poll that has let go of NAPI and has yet to look at the queue once more. */
  datatype Tail = Recheck(r: nat) | Found

  datatype Worker = Off | Disabling | Filling | Kicking

  /** The indexes of the queue are counted without wrapping. `checked` is how many used buffers
      the device had when it last decided whether to interrupt. */
  datatype State = State(
    eventIdx: bool, n: nat,
    avail: nat, used: nat, last: nat, checked: nat,
    cb: bool, event: nat,                // callbacks enabled; the entry to be told about
    irqs: nat, holder: Holder, tails: seq<Tail>, worker: Worker)

  ghost predicate Init(s: State) {
    && 0 < s.n < INDEX_RANGE && s.avail == s.used == s.last == s.checked == s.event == 0
    && s.irqs == 0 && s.holder == Refill && s.tails == [] && s.worker == Filling
  }

  // ----- The device (section 2.6.7 of VIRTIO 1.1) -----

  ghost predicate Use(s: State, t: State) { s.used < s.avail && t == s.(used := s.used + 1) }

  /** Whether the buffers used since the last check call for an interrupt. */
  predicate Notifies(s: State) { if s.eventIdx then s.checked <= s.event < s.used else s.checked < s.used && s.cb }

  ghost predicate Check(s: State, t: State) {
    t == s.(checked := s.used, irqs := if Notifies(s) then s.irqs + 1 else s.irqs)
  }

  ghost predicate Spurious(s: State, t: State) { t == s.(irqs := s.irqs + 1) }

  // ----- Scheduling -----

  /** napi_schedule_prep: it fails if somebody holds NAPI or is waiting to disable it. */
  predicate Free(s: State) { s.holder == Nobody && s.worker != Disabling }

  function Prep(s: State): State { if Free(s) then s.(holder := Claimed) else s }

  /** skb_recv_done */
  ghost predicate Interrupt(s: State, t: State) { s.irqs > 0 && t == Prep(s).(irqs := s.irqs - 1) }

  /** virtnet_busy_poll */
  ghost predicate BusyPoll(s: State, t: State) { t == Prep(s) }

  ghost predicate DisableCb(s: State, t: State) { s.holder == Claimed && t == s.(cb := false, holder := Receiving) }

  // ----- Polling -----

  ghost predicate GetBuf(s: State, t: State) {
    s.holder == Receiving && s.last < s.used && t == s.(last := s.last + 1)
  }

  ghost predicate Post(s: State, t: State) {
    s.holder in {Receiving, Refill} && s.avail < s.last + s.n && t == s.(avail := s.avail + 1)
  }

  /** virtqueue_enable_cb_prepare: at the end of a poll below its budget, or of a busy poll. */
  ghost predicate EnablePrepare(s: State, t: State) {
    s.holder == Receiving && t == s.(cb := true, event := s.last, holder := Prepared(s.last))
  }

  /** napi_complete, with one more look to follow. */
  ghost predicate Complete(s: State, t: State) {
    s.holder.Prepared? && t == s.(holder := Nobody, tails := s.tails + [Recheck(s.holder.r)])
  }

  /** A poll that used up its budget while somebody waits to disable NAPI is completed by the
      core. */
  ghost predicate Yield(s: State, t: State) {
    s.holder == Receiving && s.worker == Disabling && t == s.(holder := Nobody)
  }

  function Without<T>(xs: seq<T>, i: nat): seq<T>
    requires i < |xs|
  {
    xs[..i] + xs[i + 1..]
  }

  /** virtqueue_poll compares indexes of 16 bits. */
  ghost predicate PollTail(s: State, t: State, i: nat) {
    && i < |s.tails| && s.tails[i].Recheck?
    && t == s.(tails := if s.tails[i].r % INDEX_RANGE != s.used % INDEX_RANGE then s.tails[i := Found]
                        else Without(s.tails, i))
  }

  ghost predicate Again(s: State, t: State, i: nat) {
    i < |s.tails| && s.tails[i] == Found && t == Prep(s).(tails := Without(s.tails, i))
  }

  // ----- The refill worker -----

  ghost predicate StartDisable(s: State, t: State) { s.worker == Off && t == s.(worker := Disabling) }

  ghost predicate Disabled(s: State, t: State) {
    s.worker == Disabling && s.holder == Nobody && t == s.(worker := Filling, holder := Refill)
  }

  /** napi_enable */
  ghost predicate Enable(s: State, t: State) {
    s.worker == Filling && s.holder == Refill && t == s.(worker := Kicking, holder := Nobody)
  }

  /** The rest of virtnet_napi_enable */
  ghost predicate Kick(s: State, t: State) { s.worker == Kicking && t == Prep(s).(worker := Off) }

  ghost predicate TailStep(s: State, t: State, i: nat) { PollTail(s, t, i) || Again(s, t, i) }

  ghost predicate Next(s: State, t: State) {
    || Use(s, t) || Check(s, t) || Spurious(s, t) || Interrupt(s, t) || BusyPoll(s, t) || DisableCb(s, t)
    || GetBuf(s, t) || Post(s, t) || EnablePrepare(s, t) || Complete(s, t) || Yield(s, t)
    || (exists i: nat :: TailStep(s, t, i))
    || StartDisable(s, t) || Disabled(s, t) || Enable(s, t) || Kick(s, t)
  }

  ghost predicate Run(run: seq<State>) {
    && |run| > 0 && Init(run[0])
    && forall i {:trigger Next(run[i], run[i + 1])} :: 0 <= i < |run| - 1 ==> Next(run[i], run[i + 1])
  }

  // ----- What a run keeps -----

  /** A tail that is bound to see used buffers. */
  predicate Sees(s: State, tail: Tail) { tail == Found || tail == Recheck(s.last) }

  ghost predicate SomeTailSees(s: State) { exists i :: 0 <= i < |s.tails| && Sees(s, s.tails[i]) }

  /** Somebody will look at the queue: an interrupt is on its way or the device will raise one, or
      a poll has yet to look again. */
  ghost predicate Noticed(s: State) { s.irqs > 0 || Notifies(s) || SomeTailSees(s) }

  ghost predicate Inv(s: State) {
    && 0 < s.n < INDEX_RANGE && s.last <= s.used <= s.avail <= s.last + s.n && s.checked <= s.used
    && (s.holder == Refill <==> s.worker == Filling)
    && (s.holder.Prepared? ==> s.cb && s.event == s.last == s.holder.r)
    && (s.holder == Nobody && s.worker == Off ==>
          s.cb && s.event == s.last && (s.used > s.last ==> Noticed(s)))
    && forall i :: 0 <= i < |s.tails| && s.tails[i].Recheck? ==> s.tails[i].r <= s.last
  }

  lemma SeesWithout(s: State, t: State, i: nat)
    requires i < |s.tails| && t.tails == Without(s.tails, i) && t.last == s.last && SomeTailSees(s)
    ensures SomeTailSees(t) || Sees(s, s.tails[i])
  {
    var j :| 0 <= j < |s.tails| && Sees(s, s.tails[j]);
    if j < i { assert t.tails[j] == s.tails[j]; }
    if j > i { assert t.tails[j - 1] == s.tails[j]; }
  }

  lemma TailInv(s: State, t: State, i: nat)
    requires Inv(s) && TailStep(s, t, i)
    ensures Inv(t)
  {
    if t.holder == Nobody && t.worker == Off && s.used > s.last {
      if t.tails == s.tails[i := Found] {
        assert Sees(t, t.tails[i]);
      } else if SomeTailSees(s) {
        SeesWithout(s, t, i);
      }
    }
  }

  lemma CompleteInv(s: State, t: State)
    requires Inv(s) && Complete(s, t)
    ensures Inv(t)
  {
    assert Sees(t, t.tails[|s.tails|]);
  }

  /** Steps that leave the tails alone. */
  lemma OtherInv(s: State, t: State)
    requires Inv(s) && Next(s, t) && t.tails == s.tails && t.last == s.last
    requires !exists i: nat :: TailStep(s, t, i)
    ensures Inv(t)
  {
    if SomeTailSees(s) {
      var j :| 0 <= j < |s.tails| && Sees(s, s.tails[j]);
      assert Sees(t, t.tails[j]);
    }
  }

  lemma NextInv(s: State, t: State)
    requires Inv(s) && Next(s, t)
    ensures Inv(t)
  {
    if i: nat :| TailStep(s, t, i) {
      TailInv(s, t, i);
    } else if Complete(s, t) {
      CompleteInv(s, t);
    } else if !GetBuf(s, t) {
      OtherInv(s, t);
    }
  }

  lemma {:induction false} RunInv(run: seq<State>, i: nat)
    requires Run(run) && i < |run|
    ensures Inv(run[i])
  {
    if i == 0 {
    } else {
      var j := i - 1;
      RunInv(run, j);
      assert Next(run[j], run[j + 1]);
      NextInv(run[j], run[i]);
    }
  }

  // ----- Main results -----

  /** No receive event is lost: used buffers are never left pending while NAPI is idle, no
      interrupt is in flight, the device has made its last check and no poll or worker is yet to
      look at the queue. */
  lemma NoLostEvent(run: seq<State>, i: nat)
    requires Run(run) && i < |run| && run[i].holder == Nobody && run[i].irqs == 0 && run[i].checked == run[i].used
    requires run[i].worker == Off && run[i].tails == []
    ensures run[i].used == run[i].last
  {
    RunInv(run, i);
  }

  /** Each of the things that may still be pending does lead to a poll. */
  lemma EventLeadsToPoll(run: seq<State>, i: nat, t: State)
    requires Run(run) && i < |run| && run[i].holder == Nobody && run[i].worker == Off && run[i].used > run[i].last
    ensures run[i].irqs > 0 || (Check(run[i], t) ==> t.irqs > 0) || SomeTailSees(run[i])
    ensures Interrupt(run[i], t) ==> t.holder == Claimed
    ensures forall j: nat :: PollTail(run[i], t, j) && Sees(run[i], run[i].tails[j]) ==>
              t.tails == run[i].tails[j := Found]
    ensures forall j: nat :: Again(run[i], t, j) ==> t.holder == Claimed
  {
    RunInv(run, i);
  }

  /** While somebody else is polling, callbacks may be off, but whoever lets go of NAPI has
      switched them on first and looks at the queue once more. */
  lemma LettingGo(run: seq<State>, i: nat)
    requires Run(run) && i + 1 < |run| && Complete(run[i], run[i + 1])
    ensures run[i + 1].cb && run[i + 1].event == run[i + 1].last && SomeTailSees(run[i + 1])
  {
    RunInv(run, i);
    assert Sees(run[i + 1], run[i + 1].tails[|run[i].tails|]);
  }

  /** The last look is needed: a buffer used while callbacks were off, after the poll has run
      dry, raises no interrupt, and once NAPI is let go only the look finds it. */
  lemma RecheckIsNeeded() returns (run: seq<State>)
    ensures Run(run) && |run| > 1 && Complete(run[|run| - 2], run[|run| - 1])
    ensures var s := run[|run| - 1];
            s.used > s.last && s.irqs == 0 && !Notifies(s) && s.worker == Off && s.holder == Nobody
  {
    var s0 := State(false, 1, 0, 0, 0, 0, true, 0, 0, Refill, [], Filling);
    var s1 := s0.(avail := 1);
    var s2 := s1.(worker := Kicking, holder := Nobody);
    var s3 := s2.(worker := Off, holder := Claimed);
    var s4 := s3.(cb := false, holder := Receiving);
    var s5 := s4.(used := 1);
    var s6 := s5.(checked := 1);
    var s7 := s6.(cb := true, holder := Prepared(0));
    var s8 := s7.(holder := Nobody, tails := [Recheck(0)]);
    run := [s0, s1, s2, s3, s4, s5, s6, s7, s8];
    assert Post(s0, s1) && Enable(s1, s2) && Kick(s2, s3) && DisableCb(s3, s4);
    assert Use(s4, s5) && Check(s5, s6) && EnablePrepare(s6, s7) && Complete(s7, s8);
  }
}
