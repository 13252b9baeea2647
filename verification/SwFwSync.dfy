/** The software/firmware semaphores of the 80003ES2LAN: any number of agents, some of them
    firmware, share the SW_FW_SYNC register under a hardware semaphore. Each access to shared
    state is a step of its own, and the steps of the agents interleave freely. */
module SwFwSync {
  import opened Rings

  const TIMEOUT := 50
  /** The resource that guards the Kumeran registers (bit 3) */
  const CSR: nat := 3

  /** Where an agent is. A mask is a set of resources; a copy is what was read of the register. */
  datatype Pc =
    | Idle
    | Getting(mask: set<nat>, tries: nat)     // about to take the hardware semaphore
    | Reading(mask: set<nat>, tries: nat)     // has it, about to read the register
    | Backing(mask: set<nat>, tries: nat)     // some resource is in use: about to put it back
    | Setting(mask: set<nat>, copy: Sync)     // all free: about to write the register
    | Leaving(mask: set<nat>)                 // about to put the semaphore back
    | Holding(mask: set<nat>)
    | Asking(mask: set<nat>, offset: nat)     // has named a Kumeran register, about to read it
    | Returning(mask: set<nat>)               // about to take the semaphore to release
    | Rereading(mask: set<nat>)
    | Clearing(mask: set<nat>, copy: Sync)
    | Ending                                  // about to put the semaphore back

  /** The register: its low half for software, its high half for firmware */
  datatype Sync = Sync(sw: set<nat>, fw: set<nat>) {
    function With(firmware: bool, mask: set<nat>): Sync {
      if firmware then this.(fw := fw + mask) else this.(sw := sw + mask)
    }

    function Less(firmware: bool, mask: set<nat>): Sync {
      if firmware then this.(fw := fw - mask) else this.(sw := sw - mask)
    }
  }

  /** `owner` remembers who set each bit that is set; `kmrn` is the Kumeran register last named and
      `regs` is what the Kumeran registers hold. */
  datatype State = State(firmware: seq<bool>, sync: Sync, sem: Option<nat>, agents: seq<Pc>, kmrn: nat,
                         regs: map<nat, nat>, owner: map<nat, nat>)

  ghost predicate Init(s: State) {
    && |s.agents| == |s.firmware| && (forall i :: 0 <= i < |s.agents| ==> s.agents[i] == Idle)
    && s.sync == Sync({}, {}) && s.sem == None && s.owner == map[]
  }

  // ----- Acquiring -----

  ghost predicate Start(s: State, t: State, a: nat, mask: set<nat>) {
    a < |s.agents| && s.agents[a] == Idle && mask != {} && t == s.(agents := s.agents[a := Getting(mask, 0)])
  }

  /** The hardware semaphore is exclusive, and getting it may fail. */
  ghost predicate Get(s: State, t: State, a: nat) {
    && a < |s.agents|
    && s.agents[a].Getting? && s.sem == None
    && t == s.(sem := Some(a), agents := s.agents[a := Reading(s.agents[a].mask, s.agents[a].tries)])
  }

  ghost predicate GetFails(s: State, t: State, a: nat) {
    a < |s.agents| && s.agents[a].Getting? && t == s.(agents := s.agents[a := Idle])
  }

  ghost predicate Test(s: State, t: State, a: nat) {
    && a < |s.agents|
    && s.agents[a].Reading?
    && var mask := s.agents[a].mask;
       t == s.(agents := s.agents[a := if mask * s.sync.sw == {} && mask * s.sync.fw == {} then Setting(mask, s.sync)
                                       else Backing(mask, s.agents[a].tries)])
  }

  ghost predicate Back(s: State, t: State, a: nat) {
    && a < |s.agents|
    && s.agents[a].Backing?
    && var tries := s.agents[a].tries + 1;
       t == s.(sem := None,
               agents := s.agents[a := if tries == TIMEOUT then Idle else Getting(s.agents[a].mask, tries)])
  }

  function Owning(owner: map<nat, nat>, mask: set<nat>, a: nat): map<nat, nat> {
    map r | r in owner.Keys + mask :: if r in mask then a else owner[r]
  }

  ghost predicate Set(s: State, t: State, a: nat) {
    && a < |s.agents| == |s.firmware|
    && s.agents[a].Setting?
    && var mask := s.agents[a].mask;
       t == s.(sync := s.agents[a].copy.With(s.firmware[a], mask), agents := s.agents[a := Leaving(mask)],
               owner := Owning(s.owner, mask, a))
  }

  ghost predicate Leave(s: State, t: State, a: nat) {
    a < |s.agents| && s.agents[a].Leaving? && t == s.(sem := None, agents := s.agents[a := Holding(s.agents[a].mask)])
  }

  // ----- Using the Kumeran registers -----

  /** A read names the register it wants and then reads the answer; a write only names and
      writes. Both hold the CSR resource. */
  ghost predicate Name(s: State, t: State, a: nat, offset: nat) {
    && a < |s.agents|
    && s.agents[a].Holding? && CSR in s.agents[a].mask
    && t == s.(kmrn := offset, agents := s.agents[a := Asking(s.agents[a].mask, offset)])
  }

  ghost predicate Tell(s: State, t: State, a: nat, offset: nat, data: nat) {
    && a < |s.agents|
    && s.agents[a].Holding? && CSR in s.agents[a].mask
    && t == s.(kmrn := offset, regs := s.regs[offset := data])
  }

  ghost predicate Answer(s: State, t: State, a: nat) {
    a < |s.agents| && s.agents[a].Asking? && t == s.(agents := s.agents[a := Holding(s.agents[a].mask)])
  }

  // ----- Releasing -----

  ghost predicate Return(s: State, t: State, a: nat) {
    a < |s.agents| && s.agents[a].Holding? && t == s.(agents := s.agents[a := Returning(s.agents[a].mask)])
  }

  ghost predicate GetAgain(s: State, t: State, a: nat) {
    && a < |s.agents|
    && s.agents[a].Returning? && s.sem == None
    && t == s.(sem := Some(a), agents := s.agents[a := Rereading(s.agents[a].mask)])
  }

  ghost predicate Reread(s: State, t: State, a: nat) {
    a < |s.agents| && s.agents[a].Rereading? && t == s.(agents := s.agents[a := Clearing(s.agents[a].mask, s.sync)])
  }

  ghost predicate Clear(s: State, t: State, a: nat) {
    && a < |s.agents| == |s.firmware|
    && s.agents[a].Clearing?
    && t == s.(sync := s.agents[a].copy.Less(s.firmware[a], s.agents[a].mask), agents := s.agents[a := Ending],
               owner := s.owner - s.agents[a].mask)
  }

  ghost predicate End(s: State, t: State, a: nat) {
    a < |s.agents| && s.agents[a] == Ending && t == s.(sem := None, agents := s.agents[a := Idle])
  }

  ghost predicate AcquireStep(s: State, t: State, a: nat) {
    || (exists mask: set<nat> :: Start(s, t, a, mask)) || Get(s, t, a) || GetFails(s, t, a) || Test(s, t, a)
    || Back(s, t, a) || Set(s, t, a) || Leave(s, t, a)
  }

  ghost predicate UseStep(s: State, t: State, a: nat) {
    || (exists offset: nat :: Name(s, t, a, offset)) || Answer(s, t, a)
    || (exists offset: nat, data: nat :: Tell(s, t, a, offset, data))
  }

  ghost predicate ReleaseStep(s: State, t: State, a: nat) {
    Return(s, t, a) || GetAgain(s, t, a) || Reread(s, t, a) || Clear(s, t, a) || End(s, t, a)
  }

  ghost predicate Step(s: State, t: State, a: nat) {
    AcquireStep(s, t, a) || UseStep(s, t, a) || ReleaseStep(s, t, a)
  }

  ghost predicate Next(s: State, t: State) { exists a: nat :: Step(s, t, a) }

  ghost predicate Run(run: seq<State>) {
    && |run| > 0 && Init(run[0])
    && forall i {:trigger Next(run[i], run[i + 1])} :: 0 <= i < |run| - 1 ==> Next(run[i], run[i + 1])
  }

  // ----- What a run keeps -----

  /** The resources an agent holds: from writing the register to clearing it. */
  function Holds(pc: Pc): set<nat> {
    match pc
    case Leaving(mask) => mask
    case Holding(mask) => mask
    case Asking(mask, _) => mask
    case Returning(mask) => mask
    case Rereading(mask) => mask
    case Clearing(mask, _) => mask
    case _ => {}
  }

  predicate HasSem(pc: Pc) {
    pc.Reading? || pc.Backing? || pc.Setting? || pc.Leaving? || pc.Rereading? || pc.Clearing? || pc.Ending?
  }

  /** What agent `a` knows. */
  ghost predicate AgentOk(s: State, a: nat)
    requires a < |s.agents|
  {
    var pc := s.agents[a];
    && (HasSem(pc) <==> s.sem == Some(a))
    && (forall r :: r in Holds(pc) <==> r in s.owner && s.owner[r] == a)
    && (pc.Setting? ==> pc.copy == s.sync && pc.mask * s.sync.sw == {} && pc.mask * s.sync.fw == {})
    && (pc.Clearing? ==> pc.copy == s.sync)
    && (pc.Asking? ==> CSR in pc.mask && s.kmrn == pc.offset)
    && ((pc.Getting? || pc.Reading? || pc.Backing?) ==> pc.tries < TIMEOUT)
  }

  /** The marks are those of the owners. */
  ghost predicate Marked(s: State) {
    && (forall r :: r in s.owner ==> s.owner[r] < |s.firmware|)
    && (forall r :: r in s.sync.sw <==> r in s.owner && !s.firmware[s.owner[r]])
    && (forall r :: r in s.sync.fw <==> r in s.owner && s.firmware[s.owner[r]])
  }

  ghost predicate Inv(s: State) {
    && |s.agents| == |s.firmware|
    && (forall a {:trigger AgentOk(s, a)} :: 0 <= a < |s.agents| ==> AgentOk(s, a))
    && Marked(s)
  }

  /** The steps of acquiring that do not write the register */
  lemma TryOk(s: State, t: State, a: nat, b: nat)
    requires Inv(s) && AcquireStep(s, t, a) && !Set(s, t, a) && b < |t.agents|
    ensures AgentOk(t, b)
  {
    hide Set, Marked;
    assert AgentOk(s, a) && AgentOk(s, b);
  }

  lemma SetOk(s: State, t: State, a: nat, b: nat)
    requires Inv(s) && Set(s, t, a) && b < |t.agents|
    ensures AgentOk(t, b)
  {
    assert AgentOk(s, a) && AgentOk(s, b);
  }

  lemma AcquireOk(s: State, t: State, a: nat, b: nat)
    requires Inv(s) && AcquireStep(s, t, a) && b < |t.agents|
    ensures AgentOk(t, b)
  {
    hide AcquireStep, Set, AgentOk;
    if Set(s, t, a) { SetOk(s, t, a, b); } else { TryOk(s, t, a, b); }
  }

  lemma UseOk(s: State, t: State, a: nat, b: nat)
    requires Inv(s) && UseStep(s, t, a) && b < |t.agents|
    ensures AgentOk(t, b)
  {
    assert AgentOk(s, a) && AgentOk(s, b);
  }

  lemma ReleaseOk(s: State, t: State, a: nat, b: nat)
    requires Inv(s) && ReleaseStep(s, t, a) && b < |t.agents|
    ensures AgentOk(t, b)
  {
    assert AgentOk(s, a) && AgentOk(s, b);
  }

  /** The register and its owners change in two kinds of steps only. */
  lemma MarksStay(s: State, t: State, a: nat)
    requires Step(s, t, a) && !Set(s, t, a) && !Clear(s, t, a)
    ensures t.sync == s.sync && t.owner == s.owner
  {
  }

  lemma SameAgents(s: State, t: State, a: nat)
    requires Step(s, t, a)
    ensures t.firmware == s.firmware && |t.agents| == |s.agents|
  {
  }

  lemma SetMarks(s: State, t: State, a: nat)
    requires Inv(s) && Set(s, t, a)
    ensures Marked(t)
  {
    assert AgentOk(s, a);
  }

  lemma ClearMarks(s: State, t: State, a: nat)
    requires Inv(s) && Clear(s, t, a)
    ensures Marked(t)
  {
    assert AgentOk(s, a);
  }

  lemma MarksKept(s: State, t: State, a: nat)
    requires Inv(s) && Step(s, t, a)
    ensures |t.agents| == |t.firmware| && Marked(t)
  {
    hide Step, Set, Clear, AgentOk;
    SameAgents(s, t, a);
    if Set(s, t, a) {
      SetMarks(s, t, a);
    } else if Clear(s, t, a) {
      ClearMarks(s, t, a);
    } else {
      MarksStay(s, t, a);
    }
  }

  lemma StepInv(s: State, t: State, a: nat)
    requires Inv(s) && Step(s, t, a)
    ensures Inv(t)
  {
    hide AgentOk, Inv, Marked;
    MarksKept(s, t, a);
    forall b | 0 <= b < |t.agents|
      ensures AgentOk(t, b)
    {
      if AcquireStep(s, t, a) { AcquireOk(s, t, a, b); }
      else if UseStep(s, t, a) { UseOk(s, t, a, b); }
      else { ReleaseOk(s, t, a, b); }
    }
    InvOf(t);
  }

  lemma InvOf(t: State)
    requires |t.agents| == |t.firmware| && Marked(t)
    requires forall b :: 0 <= b < |t.agents| ==> AgentOk(t, b)
    ensures Inv(t)
  {
  }

  lemma {:induction false} RunInv(run: seq<State>, i: nat)
    requires Run(run) && i < |run|
    ensures Inv(run[i])
  {
    if i > 0 {
      var j := i - 1;
      RunInv(run, j);
      assert Next(run[j], run[j + 1]);
      var a: nat :| Step(run[j], run[j + 1], a);
      StepInv(run[j], run[i], a);
    } else {
      forall a | 0 <= a < |run[0].agents|
        ensures AgentOk(run[0], a)
      {
      }
    }
  }

  // ----- Main results -----

  /** Each resource has at most one holder, and its bit is set on that holder's side only. */
  lemma MutualExclusion(run: seq<State>, i: nat, a: nat, b: nat, r: nat)
    requires Run(run) && i < |run| && a < |run[i].agents| && b < |run[i].agents|
    requires r in Holds(run[i].agents[a]) && r in Holds(run[i].agents[b])
    ensures a == b && a < |run[i].firmware|
    ensures if run[i].firmware[a] then r in run[i].sync.fw && r !in run[i].sync.sw
            else r in run[i].sync.sw && r !in run[i].sync.fw
  {
    RunInv(run, i);
    assert AgentOk(run[i], a) && AgentOk(run[i], b);
  }

  /** No resource is marked by software and firmware at once, and no mark is stray: each is that
      of an agent that holds the resource. */
  lemma NoStrayMark(run: seq<State>, i: nat, r: nat) returns (a: nat)
    requires Run(run) && i < |run| && r in run[i].sync.sw + run[i].sync.fw
    ensures !(r in run[i].sync.sw && r in run[i].sync.fw)
    ensures a < |run[i].agents| && r in Holds(run[i].agents[a])
  {
    RunInv(run, i);
    a := run[i].owner[r];
    assert AgentOk(run[i], a);
  }

  /** Releasing clears exactly the caller's marks; taking sets exactly the caller's, none of which
      was set before. No other step writes the register. */
  lemma WhoWrites(run: seq<State>, i: nat, a: nat)
    requires Run(run) && i + 1 < |run| && Step(run[i], run[i + 1], a)
    ensures var s, t := run[i], run[i + 1];
            if Set(s, t, a) then
              a < |s.firmware| && t.sync == s.sync.With(s.firmware[a], s.agents[a].mask)
              && s.agents[a].mask !! s.sync.sw + s.sync.fw
            else if Clear(s, t, a) then
              t.sync == s.sync.Less(s.firmware[a], s.agents[a].mask) && s.agents[a].mask == Holds(s.agents[a])
            else t.sync == s.sync
  {
    RunInv(run, i);
    assert AgentOk(run[i], a);
  }

  /** Agent `a` is trying to acquire. */
  predicate Trying(pc: Pc) { pc.Getting? || pc.Reading? || pc.Backing? }

  /** A failed attempt, from its start at `i` to its end at `j`, has written nothing: in all that
      time no step of the agent changes the register. It ends without the hardware semaphore and
      without any mark of the agent's. */
  lemma FailureLeavesNothing(run: seq<State>, i: nat, j: nat, a: nat)
    requires Run(run) && i <= j < |run| && a < |run[j].agents| && run[j].agents[a] == Idle
    requires forall k :: i <= k < j ==> a < |run[k].agents| && Trying(run[k].agents[a])
    ensures forall k :: i <= k < j && Step(run[k], run[k + 1], a) ==> run[k + 1].sync == run[k].sync
    ensures run[j].sem != Some(a) && var t := run[j]; forall r :: r in t.owner ==> t.owner[r] != a
  {
    forall k | i <= k < j && Step(run[k], run[k + 1], a)
      ensures run[k + 1].sync == run[k].sync
    {
      WhoWrites(run, k, a);
    }
    RunInv(run, j);
    assert AgentOk(run[j], a);
  }

  /** What the CSR resource is for: nobody else touches the Kumeran registers while it is held. */
  lemma OnlyHolderTouches(run: seq<State>, i: nat, a: nat, b: nat)
    requires Run(run) && i + 1 < |run| && Step(run[i], run[i + 1], b) && a != b
    requires a < |run[i].agents| && CSR in Holds(run[i].agents[a])
    ensures run[i + 1].kmrn == run[i].kmrn && run[i + 1].regs == run[i].regs
  {
    RunInv(run, i);
    assert AgentOk(run[i], a) && AgentOk(run[i], b);
  }

  /** An agent that goes on asking has not moved, and what it will read has not either. */
  lemma StillAsking(s: State, t: State, a: nat, b: nat)
    requires Inv(s) && Step(s, t, b) && a < |s.agents| && s.agents[a].Asking?
    requires a < |t.agents| && t.agents[a].Asking?
    ensures t.agents[a] == s.agents[a] && t.kmrn == s.kmrn && t.regs == s.regs
  {
    assert AgentOk(s, a) && AgentOk(s, b);
  }

  /** A Kumeran read gets the register it named, as it was when it named it, whatever the other
      agents do between its two accesses. */
  lemma {:induction false} ReadsItsOwn(run: seq<State>, i: nat, j: nat, a: nat)
    requires Run(run) && i <= j < |run|
    requires forall k :: i <= k <= j ==> a < |run[k].agents| && run[k].agents[a].Asking?
    ensures run[j].agents[a] == run[i].agents[a] && run[j].kmrn == run[i].agents[a].offset && run[j].regs == run[i].regs
    decreases j - i
  {
    hide Step, Inv, AgentOk, Init;
    if i == j {
      RunInv(run, i);
      NamedIsAsked(run[i], a);
    } else {
      var k := j - 1;
      ReadsItsOwn(run, i, k, a);
      RunInv(run, k);
      assert Next(run[k], run[k + 1]);
      var b: nat :| Step(run[k], run[k + 1], b);
      StillAsking(run[k], run[j], a, b);
    }
  }

  lemma NamedIsAsked(s: State, a: nat)
    requires Inv(s) && a < |s.agents| && s.agents[a].Asking?
    ensures s.kmrn == s.agents[a].offset
  {
    assert AgentOk(s, a);
  }
}
