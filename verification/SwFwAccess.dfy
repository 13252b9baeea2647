/** The accessors of the 80003ES2LAN driver, as one software agent runs them. What the other
    agents do is given: a turn of theirs comes before each access of this agent, and changes
    whatever this agent has not secured. SwFwSync shows that they keep to this. */
module SwFwAccess {
  const EEP_SM: nat := 0
  const PHY0_SM: nat := 1
  const PHY1_SM: nat := 2
  const CSR_SM: nat := 3
  const TIMEOUT := 50
  const PAGE_SHIFT := 0x20
  const MIN_ALT_REG := 30
  /** A Kumeran register is named with five bits, a PHY register and its page with sixteen. */
  const KMRN_OFFSETS := 0x20
  const PHY_OFFSETS := 0x1_0000
  const PAGE_SELECT: nat := 22
  const PAGE_SELECT_ALT: nat := 29

  datatype Status = Success | SyncError | PhyError | NvmError

  /** A register that has never been written reads as zero. */
  function At(m: map<nat, nat>, k: nat): nat { if k in m then m[k] else 0 }

  /** Registers 22 and 29 select the pages, and are the same on every page. */
  predicate IsSelect(reg: nat) { reg == PAGE_SELECT || reg == PAGE_SELECT_ALT }

  /** The PHY: its two selected pages, and its registers numbered by page and register. Registers
      0 to 29 are of the first page, 30 and 31 of the alternative one. */
  datatype Phy = Phy(page: nat, altPage: nat, regs: map<nat, nat>) {
    function PageFor(reg: nat): nat { if reg < MIN_ALT_REG then page else altPage }

    function Select(reg: nat, to: nat): Phy { if reg < MIN_ALT_REG then this.(page := to) else this.(altPage := to) }

    function Read(reg: nat): nat {
      if reg == PAGE_SELECT then page
      else if reg == PAGE_SELECT_ALT then altPage
      else At(regs, PageFor(reg) * PAGE_SHIFT + reg)
    }

    function Write(reg: nat, data: nat): Phy {
      if reg == PAGE_SELECT then this.(page := data)
      else if reg == PAGE_SELECT_ALT then this.(altPage := data)
      else this.(regs := regs[PageFor(reg) * PAGE_SHIFT + reg := data])
    }
  }

  /** What a turn of the others leaves in all they can write */
  datatype Turn = Turn(sw: set<nat>, fw: set<nat>, phy: Phy, kmrn: map<nat, nat>)

  /** What becomes of an MDI access: it is done; or it is reported done, but if it selects a page the
      next `span` accesses still find the page selected before; or an error is reported, whether or
      not it took effect. */
  datatype Mdi = Done | Late(span: nat) | Failed(effect: bool)

  function Span(outcome: Mdi): nat { if outcome.Late? then outcome.span else 0 }

  /** What a write finds and leaves: no change if it came to nothing or is late. */
  function Written(p: Phy, outcome: Mdi, reg: nat, data: nat): Phy {
    if outcome == Failed(false) || (IsSelect(reg) && Span(outcome) > 0) then p else p.Write(reg, data)
  }

  /** A page select that is still to take effect */
  datatype Due = Nothing | Due(reg: nat, to: nat, span: nat)

  /** The page and the register that an offset of sixteen bits names */
  function PageOf(offset: nat): nat { offset % PHY_OFFSETS / PAGE_SHIFT }

  function RegOf(offset: nat): nat { offset % PAGE_SHIFT }

  class Port {
    /** The function of the port: it decides which PHY resource is the port's */
    const func: nat
    const mdicWorkaround: bool
    /** The turns of the others, whether an attempt at a turn gets the hardware semaphore, and what
        becomes of each MDI access */
    const world: nat -> Turn
    const gets: nat -> bool
    const mdi: nat -> Mdi
    var now: nat
    var accesses: nat
    /** The SW_FW_SYNC register, and whether this agent has the hardware semaphore */
    var sw: set<nat>
    var fw: set<nat>
    var sem: bool
    var phy: Phy
    var late: Due
    var kmrn: map<nat, nat>
    /** The EEPROM grant */
    var grant: bool
    /** The resources this agent holds */
    var held: set<nat>
    /** The marks the other agents have made, for software and for firmware */
    ghost var others: set<nat>
    ghost var othersFw: set<nat>

    function PhySm(): nat { if func != 0 then PHY1_SM else PHY0_SM }

    /** The register has this agent's marks, for software, and those the others have made, and
        nobody else has marked what this agent holds. */
    ghost predicate Valid()
      reads `sw, `fw, `held, `others, `othersFw, `grant
    {
      && sw == held + others && fw == othersFw && held !! others && held !! othersFw
      && (grant ==> EEP_SM in held)
    }

    /** The others' marks are those of turn `t`, but for what this agent held then. */
    ghost predicate MarksOf(t: nat, h: set<nat>)
      reads `others, `othersFw
    {
      others == world(t).sw - h && othersFw == world(t).fw - h
    }

    /** The PHY is as turn `t` left it, and nothing of this agent's is due. */
    ghost predicate PhyOf(t: nat)
      reads `phy, `late
    {
      phy == world(t).phy && late == Nothing
    }

    ghost predicate KmrnOf(t: nat)
      reads `kmrn
    {
      kmrn == world(t).kmrn
    }

    /** Some later attempt gets the hardware semaphore. */
    ghost predicate Eventually(t: nat) { exists k: nat :: GetsAfter(t, k) }

    ghost predicate GetsAfter(t: nat, k: nat) { gets(t + k) }

    ghost predicate Fair() { forall t: nat :: Eventually(t) }

    constructor (func: nat, mdicWorkaround: bool, world: nat -> Turn, gets: nat -> bool, mdi: nat -> Mdi)
      ensures Valid() && held == {} && !sem && this.func == func && this.mdicWorkaround == mdicWorkaround
      ensures this.world == world && this.gets == gets && this.mdi == mdi
    {
      this.func, this.mdicWorkaround, this.world, this.gets, this.mdi := func, mdicWorkaround, world, gets, mdi;
      now, accesses := 0, 0;
      sw, fw, sem, phy, late, kmrn, grant, held := {}, {}, false, Phy(0, 0, map[]), Nothing, map[], false, {};
      others, othersFw := {}, {};
    }

    /** A turn of the others. */
    method Others()
      requires Valid()
      modifies `now, `sw, `fw, `phy, `late, `kmrn, `others, `othersFw
      ensures Valid() && now == old(now) + 1
      ensures if sem then others == old(others) && othersFw == old(othersFw) else MarksOf(old(now), held)
      ensures if PhySm() in held then phy == old(phy) && late == old(late)
              else PhyOf(old(now))
      ensures if CSR_SM in held then kmrn == old(kmrn) else KmrnOf(old(now))
    {
      var t := world(now);
      now := now + 1;
      if !sem { OthersMark(t.sw, t.fw); }
      if PhySm() !in held { phy, late := t.phy, Nothing; }
      if CSR_SM !in held { kmrn := t.kmrn; }
    }

    /** The others' marks become these, but for what this agent holds. */
    method OthersMark(s: set<nat>, f: set<nat>)
      requires Valid()
      modifies `sw, `fw, `others, `othersFw
      ensures Valid() && others == s - held && othersFw == f - held
    {
      sw, fw := s + held, f - held;
      others, othersFw := s - held, f - held;
    }

    /** e1000e_get_hw_semaphore: exclusive, and it may fail. */
    method GetHwSemaphore() returns (ok: bool)
      requires Valid() && !sem
      modifies `now, `sem, `sw, `fw, `phy, `late, `kmrn, `others, `othersFw
      ensures Valid() && sem == ok == gets(old(now)) && now == old(now) + 1 && MarksOf(old(now), held)
      ensures if PhySm() in held then phy == old(phy) && late == old(late)
              else PhyOf(old(now))
      ensures if CSR_SM in held then kmrn == old(kmrn) else KmrnOf(old(now))
    {
      ok := gets(now);
      Others();
      sem := ok;
    }

    /** Under the hardware semaphore: this agent's marks appear and no other changes. */
    method Mark(mask: set<nat>)
      requires Valid() && sem && mask !! sw && mask !! fw
      modifies `now, `sw, `fw, `phy, `late, `kmrn, `held, `others, `othersFw
      ensures Valid() && now == old(now) + 1 && held == old(held) + mask
      ensures others == old(others) && othersFw == old(othersFw)
      ensures if PhySm() in old(held) then phy == old(phy) && late == old(late)
              else PhyOf(old(now))
      ensures if CSR_SM in old(held) then kmrn == old(kmrn) else KmrnOf(old(now))
    {
      var swfwSync := (sw, fw);
      Others();
      sw, fw := swfwSync.0 + mask, swfwSync.1;
      held := held + mask;
    }

    /** Under the hardware semaphore: marks of this agent disappear and no other changes. */
    method Unmark(mask: set<nat>)
      requires Valid() && sem && mask <= held && (grant ==> EEP_SM !in mask)
      modifies `now, `sw, `fw, `phy, `late, `kmrn, `held, `others, `othersFw
      ensures Valid() && now == old(now) + 1 && held == old(held) - mask
      ensures others == old(others) && othersFw == old(othersFw)
      ensures if PhySm() in old(held) then phy == old(phy) && late == old(late)
              else PhyOf(old(now))
      ensures if CSR_SM in old(held) then kmrn == old(kmrn) else KmrnOf(old(now))
    {
      var swfwSync := (sw, fw);
      Others();
      sw, fw := swfwSync.0 - mask, swfwSync.1;
      held := held - mask;
    }

    lemma Seen(t: nat)
      requires Valid() && MarksOf(t, held)
      ensures sw == world(t).sw + held && fw == world(t).fw - held
    {
    }

    /** No resource of `mask` is marked at turn `t`, nor held by this agent. */
    ghost predicate FreeAt(t: nat, mask: set<nat>, h: set<nat>) {
      mask !! world(t).sw + h && mask !! world(t).fw - h
    }

    /** Whether up to `tries` attempts from turn `t` on acquire `mask`: the first that gets the
        hardware semaphore and finds the resources free does, and failing to get it ends them. */
    ghost predicate Acquires(t: nat, tries: nat, mask: set<nat>, h: set<nat>)
      decreases tries
    {
      tries > 0 && gets(t) && (FreeAt(t, mask, h) || Acquires(t + 2, tries - 1, mask, h))
    }

    /** The turn at which the resources are seen free */
    ghost function Won(t: nat, tries: nat, mask: set<nat>, h: set<nat>): nat
      requires Acquires(t, tries, mask, h)
      decreases tries
    {
      if FreeAt(t, mask, h) then t else Won(t + 2, tries - 1, mask, h)
    }

    lemma AcquiresStep(t: nat, tries: nat, mask: set<nat>, h: set<nat>)
      requires tries > 0
      ensures Acquires(t, tries, mask, h) <==> gets(t) && (FreeAt(t, mask, h) || Acquires(t + 2, tries - 1, mask, h))
      ensures Acquires(t, tries, mask, h) ==>
                Won(t, tries, mask, h) == if FreeAt(t, mask, h) then t else Won(t + 2, tries - 1, mask, h)
    {
    }

    lemma AcquiresNever(t: nat, mask: set<nat>, h: set<nat>)
      ensures !Acquires(t, 0, mask, h)
    {
    }

    ghost predicate GetsAt(t: nat, i: nat) { gets(t + 2 * i) }

    /** Attempt number `i` finds the resources free, and it and all attempts before it have got the
        hardware semaphore. */
    ghost predicate Attempted(t: nat, i: nat, mask: set<nat>, h: set<nat>) {
      FreeAt(t + 2 * i, mask, h) && forall j: nat :: j <= i ==> GetsAt(t, j)
    }

    /** The resources are acquired exactly when one of the attempts finds them free, none up to it having
        failed to get the hardware semaphore: so whenever they are free in time and the semaphore can
        always be got. The first such attempt acquires them. */
    lemma {:induction false} AcquiresExactly(t: nat, tries: nat, mask: set<nat>, h: set<nat>)
      ensures Acquires(t, tries, mask, h) <==> exists i: nat :: i < tries && Attempted(t, i, mask, h)
      ensures forall i: nat :: i < tries && Attempted(t, i, mask, h) ==> Won(t, tries, mask, h) <= t + 2 * i
      ensures Acquires(t, tries, mask, h) ==>
                exists i: nat :: i < tries && Attempted(t, i, mask, h) && Won(t, tries, mask, h) == t + 2 * i
      decreases tries
    {
      if tries > 0 {
        var rest, u := tries - 1, t + 2;
        AcquiresExactly(u, rest, mask, h);
        assert GetsAt(t, 0) == gets(t);
        forall i: nat | i > 0 && Attempted(t, i, mask, h)
          ensures gets(t) && Attempted(u, i - 1, mask, h)
        {
          assert GetsAt(t, 0);
          NextAttempt(t, i - 1, mask, h);
        }
        forall i: nat | Attempted(u, i, mask, h)
          ensures gets(t) ==> Attempted(t, i + 1, mask, h)
        {
          NextAttempt(t, i, mask, h);
        }
        if Acquires(t, tries, mask, h) {
          if FreeAt(t, mask, h) {
            assert Attempted(t, 0, mask, h);
          } else {
            var i: nat :| i < rest && Attempted(u, i, mask, h) && Won(u, rest, mask, h) == u + 2 * i;
            assert Attempted(t, i + 1, mask, h);
          }
        }
      }
    }

    lemma NextAttempt(t: nat, i: nat, mask: set<nat>, h: set<nat>)
      ensures Attempted(t, i + 1, mask, h) <==> gets(t) && Attempted(t + 2, i, mask, h)
    {
      var u := t + 2;
      if Attempted(t, i + 1, mask, h) {
        forall j: nat | j <= i
          ensures GetsAt(u, j)
        {
          assert GetsAt(t, j + 1);
        }
        assert GetsAt(t, 0);
      }
      if gets(t) && Attempted(t + 2, i, mask, h) {
        forall j: nat | j <= i + 1
          ensures GetsAt(t, j)
        {
          if j > 0 { assert GetsAt(t + 2, j - 1); }
        }
      }
    }

    /** One attempt: `got` the hardware semaphore, and the resources if they were free. */
    method Attempt(mask: set<nat>) returns (got: bool, ok: bool)
      requires Valid() && !sem
      modifies `now, `sem, `sw, `fw, `phy, `late, `kmrn, `held, `others, `othersFw
      ensures Valid() && !sem && now == old(now) + if got then 2 else 1
      ensures got == gets(old(now)) && ok == (got && FreeAt(old(now), mask, old(held)))
      ensures held == old(held) + (if ok then mask else {}) && (ok ==> mask !! old(held))
      ensures MarksOf(now - (if ok then 2 else 1), old(held))
      ensures if PhySm() in old(held) then phy == old(phy) && late == old(late)
              else PhyOf(now - 1)
      ensures if CSR_SM in old(held) then kmrn == old(kmrn) else KmrnOf(now - 1)
    {
      hide Valid, MarksOf, PhyOf, KmrnOf;
      ghost var t := now;
      got := GetHwSemaphore();
      if !got { return false, false; }
      Seen(t);
      ok := mask !! sw && mask !! fw;
      if ok {
        Mark(mask);
        sem := false;
      } else {
        sem := false;
        Others();
      }
    }

    /** e1000_acquire_swfw_sync_80003es2lan: it succeeds exactly when one of its attempts finds the
        resources free, and they become this agent's; on failure its marks are what they were.
        The marks of the others are as they left them, and the hardware semaphore is free. */
    method Acquire(mask: set<nat>) returns (ok: bool)
      requires Valid() && !sem
      modifies `now, `sem, `sw, `fw, `phy, `late, `kmrn, `held, `others, `othersFw
      ensures Valid() && !sem && now >= old(now) + if ok then 2 else 1
      ensures ok == Acquires(old(now), TIMEOUT, mask, old(held))
      ensures ok ==> now == Won(old(now), TIMEOUT, mask, old(held)) + 2
      ensures held == old(held) + (if ok then mask else {}) && (ok ==> mask !! old(held))
      ensures MarksOf(now - (if ok then 2 else 1), old(held))
      ensures if PhySm() in old(held) then phy == old(phy) && late == old(late)
              else PhyOf(now - 1)
      ensures if CSR_SM in old(held) then kmrn == old(kmrn) else KmrnOf(now - 1)
    {
      hide Valid, MarksOf, PhyOf, KmrnOf, Acquires, Won, FreeAt;
      AcquiresNever(now, mask, held);
      var i := 0;
      while i < TIMEOUT
        invariant i <= TIMEOUT && Valid() && !sem && held == old(held) && now == old(now) + 2 * i
        invariant Acquires(old(now), TIMEOUT, mask, held) == Acquires(now, TIMEOUT - i, mask, held)
        invariant Acquires(now, TIMEOUT - i, mask, held) ==>
                    Won(old(now), TIMEOUT, mask, held) == Won(now, TIMEOUT - i, mask, held)
        invariant i > 0 ==> MarksOf(now - 1, held)
        invariant PhySm() in held ==> phy == old(phy) && late == old(late)
        invariant i > 0 && PhySm() !in held ==> PhyOf(now - 1)
        invariant CSR_SM in held ==> kmrn == old(kmrn)
        invariant i > 0 && CSR_SM !in held ==> KmrnOf(now - 1)
      {
        AcquiresStep(now, TIMEOUT - i, mask, held);
        var got;
        got, ok := Attempt(mask);
        if !got || ok { return; }
        i := i + 1;
      }
      AcquiresNever(now, mask, held);
      ok := false;
    }

    /** e1000_release_swfw_sync_80003es2lan: the resources are free and the marks of the others are
        as they left them. It tries until it gets the hardware semaphore. */
    method Release(mask: set<nat>)
      requires Valid() && !sem && mask <= held && (grant ==> EEP_SM !in mask) && Fair()
      modifies `now, `sem, `sw, `fw, `phy, `late, `kmrn, `held, `others, `othersFw
      ensures Valid() && !sem && held == old(held) - mask && now >= old(now) + 2 && MarksOf(now - 2, old(held))
      ensures if PhySm() in old(held) then phy == old(phy) && late == old(late)
              else PhyOf(now - 1)
      ensures if CSR_SM in old(held) then kmrn == old(kmrn) else KmrnOf(now - 1)
    {
      hide Valid, MarksOf, PhyOf, KmrnOf;
      assert Eventually(now);
      ghost var k: nat :| GetsAfter(now, k);
      ghost var t := now + k;
      var ok := GetHwSemaphore();
      while !ok
        invariant Valid() && sem == ok && held == old(held) && now > old(now) && MarksOf(now - 1, held)
        invariant gets(t) && (!ok ==> now <= t)
        invariant PhySm() in held ==> phy == old(phy) && late == old(late)
        invariant CSR_SM in held ==> kmrn == old(kmrn)
        decreases t - now, !ok
      {
        ok := GetHwSemaphore();
      }
      Unmark(mask);
      sem := false;
    }

    // ----- The accessors -----

    /** e1000_acquire_nvm_80003es2lan: the resource and the grant, or neither. */
    method AcquireNvm(granted: bool) returns (ret: Status)
      requires Valid() && !sem && !grant && EEP_SM !in held && Fair()
      modifies this
      ensures Valid() && !sem && grant == ret.Success? && held == old(held) + if ret.Success? then {EEP_SM} else {}
      ensures ret == if !Acquires(old(now), TIMEOUT, {EEP_SM}, old(held)) then SyncError
                     else if !granted then NvmError else Success
    {
      var ok := Acquire({EEP_SM});
      if !ok { return SyncError; }
      Others();
      if !granted {
        Release({EEP_SM});
        return NvmError;
      }
      grant := true;
      return Success;
    }

    /** e1000_release_nvm_80003es2lan */
    method ReleaseNvm()
      requires Valid() && !sem && grant && Fair()
      modifies this
      ensures Valid() && !sem && !grant && held == old(held) - {EEP_SM}
    {
      grant := false;
      Release({EEP_SM});
    }

    /** While the CSR resource is held: names a Kumeran register and reads it. */
    method AskKmrn(offset: nat) returns (data: nat)
      requires Valid() && CSR_SM in held && !sem
      modifies `now, `sw, `fw, `phy, `late, `kmrn, `others, `othersFw
      ensures Valid() && now == old(now) + 1 && kmrn == old(kmrn) && data == At(old(kmrn), offset % KMRN_OFFSETS)
    {
      var named := offset % KMRN_OFFSETS;
      Others();
      data := At(kmrn, named);
    }

    /** While the CSR resource is held: writes a Kumeran register. */
    method TellKmrn(offset: nat, data: nat)
      requires Valid() && CSR_SM in held && !sem
      modifies `now, `sw, `fw, `phy, `late, `kmrn, `others, `othersFw
      ensures Valid() && now == old(now) + 1 && kmrn == old(kmrn)[offset % KMRN_OFFSETS := data]
    {
      var named := offset % KMRN_OFFSETS;
      kmrn := kmrn[named := data];
      Others();
    }

    /** The turn that left what is found when the resources have been acquired */
    ghost function Found(t: nat, mask: set<nat>, h: set<nat>): nat
      requires Acquires(t, TIMEOUT, mask, h)
    {
      Won(t, TIMEOUT, mask, h) + 1
    }

    /** e1000_read_kmrn_reg_80003es2lan: the registers are as the others left them when the resource
        was acquired, and the one asked for is returned as it was then. */
    method ReadKmrn(offset: nat) returns (ret: Status, data: nat)
      requires Valid() && !sem && CSR_SM !in held && Fair()
      modifies this
      ensures Valid() && !sem && held == old(held)
      ensures ret == if Acquires(old(now), TIMEOUT, {CSR_SM}, old(held)) then Success else SyncError
      ensures now > old(now) && (!ret.Success? ==> KmrnOf(now - 1))
      ensures ret.Success? ==>
                var t := Found(old(now), {CSR_SM}, old(held));
                KmrnOf(t) && data == At(world(t).kmrn, offset % KMRN_OFFSETS)
    {
      hide Valid, Acquires, Won, MarksOf, PhyOf, Fair;
      data := 0;
      var ok := Acquire({CSR_SM});
      if !ok { return SyncError, 0; }
      data := AskKmrn(offset);
      Release({CSR_SM});
      ret := Success;
    }

    /** e1000_write_kmrn_reg_80003es2lan: the registers are as the others left them when the resource
        was acquired, but for the one written. */
    method WriteKmrn(offset: nat, data: nat) returns (ret: Status)
      requires Valid() && !sem && CSR_SM !in held && Fair()
      modifies this
      ensures Valid() && !sem && held == old(held)
      ensures ret == if Acquires(old(now), TIMEOUT, {CSR_SM}, old(held)) then Success else SyncError
      ensures now > old(now) && (!ret.Success? ==> KmrnOf(now - 1))
      ensures ret.Success? ==>
                kmrn == world(Found(old(now), {CSR_SM}, old(held))).kmrn[offset % KMRN_OFFSETS := data]
    {
      hide Valid, Acquires, Won, MarksOf, PhyOf, Fair;
      var ok := Acquire({CSR_SM});
      if !ok { return SyncError; }
      TellKmrn(offset, data);
      Release({CSR_SM});
      ret := Success;
    }

    // ----- The PHY -----

    /** What the next access finds */
    ghost function Visible(): Phy
      reads `phy, `late
    {
      if late.Due? && late.span == 0 then phy.Select(late.reg, late.to) else phy
    }

    /** An access begins: a page select that is due takes effect, or comes one access nearer. */
    method Settle()
      modifies `phy, `late
      ensures phy == old(Visible())
      ensures late == if old(late).Due? && old(late).span > 0 then old(late).(span := old(late).span - 1) else Nothing
    {
      if late.Due? {
        if late.span == 0 {
          phy, late := phy.Select(late.reg, late.to), Nothing;
        } else {
          late := late.(span := late.span - 1);
        }
      }
    }

    method ReadMdic(reg: nat) returns (ok: bool, data: nat)
      requires Valid() && PhySm() in held && !sem
      modifies `now, `accesses, `sw, `fw, `phy, `late, `kmrn, `others, `othersFw
      ensures Valid() && now == old(now) + 1 && accesses == old(accesses) + 1 && phy == old(Visible())
      ensures late == if old(late).Due? && old(late).span > 0 then old(late).(span := old(late).span - 1) else Nothing
      ensures ok == !mdi(old(accesses)).Failed? && (ok ==> data == phy.Read(reg))
    {
      Others();
      Settle();
      ok, data := !mdi(accesses).Failed?, phy.Read(reg);
      accesses := accesses + 1;
    }

    method WriteMdic(reg: nat, data: nat) returns (ok: bool)
      requires Valid() && PhySm() in held && !sem
      modifies `now, `accesses, `sw, `fw, `phy, `late, `kmrn, `others, `othersFw
      ensures Valid() && now == old(now) + 1 && accesses == old(accesses) + 1 && ok == !mdi(old(accesses)).Failed?
      ensures phy == Written(old(Visible()), mdi(old(accesses)), reg, data)
      ensures IsSelect(reg) ==>
                late == if Span(mdi(old(accesses))) > 0
                        then Due(if reg == PAGE_SELECT then 0 else MIN_ALT_REG, data, Span(mdi(old(accesses))))
                        else Nothing
    {
      Others();
      Settle();
      var outcome := mdi(accesses);
      accesses := accesses + 1;
      phy := Written(phy, outcome, reg, data);
      if IsSelect(reg) {
        late := Nothing;
        if Span(outcome) > 0 { late := Due(if reg == PAGE_SELECT then 0 else MIN_ALT_REG, data, Span(outcome)); }
      }
      ok := !outcome.Failed?;
    }

    // ----- Selecting a page: access `a`, and with the workaround access `a + 1` to read it back -----

    /** How many of the next accesses may find the page selected before without any harm */
    function Slack(): nat { if mdicWorkaround then 1 else 0 }

    /** The driver goes on after selecting the page of `offset` on a PHY `p`: no error was reported,
        and if a read-back comes through it shows the page. */
    predicate Selects(a: nat, p: Phy, offset: nat) {
      && !mdi(a).Failed?
      && (mdicWorkaround && !mdi(a + 1).Failed? && Span(mdi(a)) > 0 ==> p.PageFor(RegOf(offset)) == PageOf(offset))
    }

    /** What the access that follows finds */
    function Chosen(a: nat, p: Phy, offset: nat): Phy {
      if Span(mdi(a)) > Slack() then p else p.Select(RegOf(offset), PageOf(offset))
    }

    /** That access finds the page asked for selected, whatever was selected before, if and only if
        the selection failed, or came in time, or was read back. */
    lemma RightPage(a: nat, offset: nat)
      ensures (forall p: Phy :: Selects(a, p, offset) ==> Chosen(a, p, offset).PageFor(RegOf(offset)) == PageOf(offset))
              <==> mdi(a).Failed? || Span(mdi(a)) <= Slack() || (mdicWorkaround && !mdi(a + 1).Failed?)
    {
      if !mdi(a).Failed? && Span(mdi(a)) > Slack() && !(mdicWorkaround && !mdi(a + 1).Failed?) {
        var p := Phy(PageOf(offset) + 1, PageOf(offset) + 1, map[]);
        assert Selects(a, p, offset) && Chosen(a, p, offset) == p;
      }
    }

    /** Selects the page of `offset` through the page select register that its register depends on,
        and reads the selection back if the workaround is on. */
    method SelectPage(offset: nat) returns (ok: bool)
      requires Valid() && PhySm() in held && !sem && late == Nothing
      modifies `now, `accesses, `sw, `fw, `phy, `late, `kmrn, `others, `othersFw
      ensures Valid() && now > old(now) && ok == Selects(old(accesses), old(phy), offset)
      ensures phy.regs == old(phy.regs)
      ensures ok ==> accesses == old(accesses) + 1 + Slack() && Visible() == Chosen(old(accesses), old(phy), offset)
    {
      hide Valid;
      var pageSelect := if RegOf(offset) < MIN_ALT_REG then PAGE_SELECT else PAGE_SELECT_ALT;
      ok := WriteMdic(pageSelect, PageOf(offset));
      if !ok { return; }
      if mdicWorkaround {
        // a read back that fails leaves the value just written
        var temp := PageOf(offset);
        var came, data := ReadMdic(pageSelect);
        if came { temp := data; }
        if PageOf(offset) != temp { return false; }
      }
    }

    /** The access to the register itself comes through. */
    predicate Reaches(a: nat) { !mdi(a + 1 + Slack()).Failed? }

    /** The read while the resource is held */
    method ReadHeld(offset: nat) returns (ok: bool, data: nat)
      requires Valid() && PhySm() in held && !sem && late == Nothing
      modifies `now, `accesses, `sw, `fw, `phy, `late, `kmrn, `others, `othersFw
      ensures Valid() && now > old(now) && phy.regs == old(phy.regs)
      ensures ok == (Selects(old(accesses), old(phy), offset) && Reaches(old(accesses)))
      ensures ok ==> data == Chosen(old(accesses), old(phy), offset).Read(RegOf(offset))
    {
      hide Valid, Selects;
      ok := SelectPage(offset);
      if !ok { return false, 0; }
      ok, data := ReadMdic(RegOf(offset));
    }

    /** The write while the resource is held */
    method WriteHeld(offset: nat, data: nat) returns (ok: bool)
      requires Valid() && PhySm() in held && !sem && late == Nothing
      modifies `now, `accesses, `sw, `fw, `phy, `late, `kmrn, `others, `othersFw
      ensures Valid() && now > old(now)
      ensures ok == (Selects(old(accesses), old(phy), offset) && Reaches(old(accesses)))
      ensures if Selects(old(accesses), old(phy), offset) then
                phy == Written(Chosen(old(accesses), old(phy), offset), mdi(old(accesses) + 1 + Slack()),
                               RegOf(offset), data)
              else phy.regs == old(phy.regs)
    {
      hide Valid, Selects, Written;
      ok := SelectPage(offset);
      if !ok { return false; }
      ok := WriteMdic(RegOf(offset), data);
    }

    /** e1000_read_phy_reg_gg82563_80003es2lan: it succeeds exactly when the resource is acquired, the
        page select raises no doubt and the access comes through. It then returns the register
        that this access got to in the PHY as the others left it; no register changes. */
    method ReadPhyReg(offset: nat) returns (ret: Status, data: nat)
      requires Valid() && !sem && PhySm() !in held && Fair()
      modifies this
      ensures Valid() && !sem && held == old(held)
      ensures ret.SyncError? <==> !Acquires(old(now), TIMEOUT, {PhySm()}, old(held))
      ensures now > old(now) && (ret.SyncError? ==> PhyOf(now - 1))
      ensures !ret.SyncError? ==>
                && var p := world(Found(old(now), {PhySm()}, old(held))).phy;
                && phy.regs == p.regs
                && ret == (if Selects(old(accesses), p, offset) && Reaches(old(accesses)) then Success else PhyError)
                && (ret.Success? ==> data == Chosen(old(accesses), p, offset).Read(RegOf(offset)))
    {
      hide Valid, Acquires, Won, MarksOf, Fair, Selects, Chosen, Reaches;
      data := 0;
      var ok := Acquire({PhySm()});
      if !ok { return SyncError, 0; }
      ok, data := ReadHeld(offset);
      Release({PhySm()});
      ret := if ok then Success else PhyError;
    }

    /** e1000_write_phy_reg_gg82563_80003es2lan: it succeeds exactly when the resource is acquired, the
        page select raises no doubt and the access comes through. It then changes exactly the
        register that this access got to, in the PHY as the others left it. */
    method WritePhyReg(offset: nat, data: nat) returns (ret: Status)
      requires Valid() && !sem && PhySm() !in held && Fair()
      modifies this
      ensures Valid() && !sem && held == old(held)
      ensures ret.SyncError? <==> !Acquires(old(now), TIMEOUT, {PhySm()}, old(held))
      ensures now > old(now) && (ret.SyncError? ==> PhyOf(now - 1))
      ensures !ret.SyncError? ==>
                && var p, a := world(Found(old(now), {PhySm()}, old(held))).phy, old(accesses);
                && ret == (if Selects(a, p, offset) && Reaches(a) then Success else PhyError)
                && if Selects(a, p, offset) then
                     phy == Written(Chosen(a, p, offset), mdi(a + 1 + Slack()), RegOf(offset), data)
                   else phy.regs == p.regs
    {
      hide Valid, Acquires, Won, MarksOf, Fair, Selects, Chosen, Reaches, Written;
      var ok := Acquire({PhySm()});
      if !ok { return SyncError; }
      ok := WriteHeld(offset, data);
      Release({PhySm()});
      ret := if ok then Success else PhyError;
    }

    /** A page select comes late and is not found out: without the workaround one access late, with it
        two, the read-back failing. The write succeeds and changes the register of the same number on
        the page selected before. */
    method WriteGoesAstray(offset: nat, data: nat) returns (ret: Status)
      requires Valid() && !sem && PhySm() !in held && Fair() && Acquires(now, TIMEOUT, {PhySm()}, held)
      requires RegOf(offset) < PAGE_SELECT && world(Found(now, {PhySm()}, held)).phy.page != PageOf(offset)
      requires mdi(accesses) == Late(1 + Slack()) && mdi(accesses + 1 + Slack()) == Done
      requires mdicWorkaround ==> mdi(accesses + 1).Failed?
      modifies this
      ensures var p := world(Found(old(now), {PhySm()}, old(held))).phy; var r := p.page * PAGE_SHIFT + RegOf(offset);
              ret.Success? && r != offset % PHY_OFFSETS && phy == p.(regs := p.regs[r := data])
    {
      ret := WritePhyReg(offset, data);
      assert offset % PHY_OFFSETS == PageOf(offset) * PAGE_SHIFT + RegOf(offset);
    }
  }
}
