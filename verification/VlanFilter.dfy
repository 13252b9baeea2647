/** The VLAN filter table of e1000 and the set of active VLANs it is to agree with, when VLANs are
    added and removed, and restored after a reset, with a VLAN of the manageability firmware
    (its cookie) coming in between. */
module VlanFilter {
  const VLAN_N_VID := 4096
  const FILTER_TBL_SIZE := 128
  const MNG_VLAN_NONE := 0xFFFF

  class Vlans {
    /** The 82544: writing an odd entry of a table spoils the even entry below it. What that one
        holds afterwards depends on which it is, what it held and what was written. */
    const erratum: bool
    const spoil: (nat, set<nat>, set<nat>) -> set<nat>
    /** The cookie: whether it asks for VLAN support, and its VLAN */
    const support: bool
    const cookieVid: nat
    /** Bits of the filter table, entry by entry */
    const vfta: array<set<nat>>
    var active: set<nat>
    var mngVlanId: nat
    var promisc: bool
    var vfe: bool

    ghost predicate Shape()
      reads this
    {
      vfta.Length == FILTER_TBL_SIZE && cookieVid < VLAN_N_VID && forall v :: v in active ==> v < VLAN_N_VID
    }

    predicate Bit(vid: nat)
      requires vfta.Length == FILTER_TBL_SIZE && vid < VLAN_N_VID
      reads vfta
    {
      vid % 0x20 in vfta[vid / 0x20]
    }

    /** The table and the set agree about a VLAN, and about all. */
    predicate Agrees(vid: nat)
      requires vfta.Length == FILTER_TBL_SIZE && vid < VLAN_N_VID
      reads `active, vfta
    {
      Bit(vid) <==> vid in active
    }

    ghost predicate Match()
      requires Shape()
      reads this, vfta
    {
      forall vid :: 0 <= vid < VLAN_N_VID ==> Agrees(vid)
    }

    predicate MngOk()
      reads `mngVlanId
    {
      mngVlanId < VLAN_N_VID || mngVlanId == MNG_VLAN_NONE
    }

    /** A bit that clearing the table from entry 0 upwards leaves set */
    predicate Residue(vid: nat) { erratum && vid / 0x20 % 2 == 0 && vid % 0x20 in spoil(vid / 0x20, {}, {}) }

    constructor (erratum: bool, spoil: (nat, set<nat>, set<nat>) -> set<nat>, support: bool, cookieVid: nat)
      requires cookieVid < VLAN_N_VID
      ensures Shape() && MngOk() && active == {} && fresh(vfta) && !vfe
      ensures this.erratum == erratum && this.spoil == spoil && this.support == support && this.cookieVid == cookieVid
      ensures forall v :: 0 <= v < VLAN_N_VID ==> (Bit(v) <==> Residue(v))
    {
      this.erratum, this.spoil, this.support, this.cookieVid := erratum, spoil, support, cookieVid;
      vfta := new set<nat>[FILTER_TBL_SIZE];
      active, mngVlanId, promisc, vfe := {}, MNG_VLAN_NONE, false, false;
      new;
      ClearVfta();
    }

    /** e1000_clear_vfta: each entry is written once, from the lowest up, so that the write of an odd
        entry spoils the even one just cleared. */
    method ClearVfta()
      requires vfta.Length == FILTER_TBL_SIZE
      modifies vfta
      ensures forall v :: 0 <= v < VLAN_N_VID ==> (Bit(v) <==> Residue(v))
    {
      var i := 0;
      while i < FILTER_TBL_SIZE
        invariant 0 <= i <= FILTER_TBL_SIZE
        invariant forall j :: 0 <= j < i ==>
                    vfta[j] == if erratum && j % 2 == 0 && j + 1 < i then spoil(j, {}, {}) else {}
      {
        WriteEntry(i, {});
        i := i + 1;
      }
    }

    /** A write to the table as the hardware does it */
    method WriteEntry(offset: nat, value: set<nat>)
      requires vfta.Length == FILTER_TBL_SIZE && offset < FILTER_TBL_SIZE
      modifies vfta
      ensures forall j :: 0 <= j < FILTER_TBL_SIZE ==>
                vfta[j] == if j == offset then value
                           else if erratum && offset % 2 == 1 && j == offset - 1 then spoil(j, old(vfta[j]), value)
                           else old(vfta[j])
    {
      if erratum && offset % 2 == 1 { vfta[offset - 1] := spoil(offset - 1, vfta[offset - 1], value); }
      vfta[offset] := value;
    }

    /** e1000_write_vfta: puts the entry below back when the write may have spoilt it. */
    method WriteVfta(offset: nat, value: set<nat>)
      requires vfta.Length == FILTER_TBL_SIZE && offset < FILTER_TBL_SIZE
      modifies vfta
      ensures vfta[..] == old(vfta[..])[offset := value]
    {
      if erratum && offset % 2 == 1 {
        var temp := vfta[offset - 1];
        WriteEntry(offset, value);
        WriteEntry(offset - 1, temp);
      } else {
        WriteEntry(offset, value);
      }
    }

    static lemma SameBit(a: nat, b: nat)
      ensures a / 0x20 == b / 0x20 && a % 0x20 == b % 0x20 <==> a == b
    {
    }

    /** One bit of the table set or cleared. */
    method SetBit(vid: nat, on: bool)
      requires vfta.Length == FILTER_TBL_SIZE && vid < VLAN_N_VID
      modifies vfta
      ensures forall v :: 0 <= v < VLAN_N_VID ==> Bit(v) == if v == vid then on else old(Bit(v))
    {
      var index := vid / 0x20;
      var entry := if on then vfta[index] + {vid % 0x20} else vfta[index] - {vid % 0x20};
      ghost var was := vfta[..];
      WriteVfta(index, entry);
      forall v | 0 <= v < VLAN_N_VID
        ensures Bit(v) == if v == vid then on else old(Bit(v))
      {
        SameBit(v, vid);
        assert vfta[v / 0x20] == if v / 0x20 == index then entry else was[v / 0x20];
      }
    }

    /** What adding `vid` amounts to: nothing if it is the firmware's VLAN. */
    ghost predicate Skipped(vid: nat)
      reads this
    {
      support && vid == mngVlanId
    }

    /** e1000_vlan_rx_add_vid */
    method AddVid(vid: nat)
      requires Shape() && vid < VLAN_N_VID
      modifies `active, `vfe, vfta
      ensures Shape() && active == old(active) + if old(Skipped(vid)) then {} else {vid}
      ensures forall v :: 0 <= v < VLAN_N_VID ==> Bit(v) == (old(Bit(v)) || (v == vid && !old(Skipped(vid))))
      ensures vfe == (old(vfe) || (!old(Skipped(vid)) && old(active) == {} && !promisc))
    {
      if support && vid == mngVlanId { return; }
      if active == {} { FilterOn(); }
      SetBit(vid, true);
      active := active + {vid};
    }

    /** e1000_vlan_filter_on_off while no VLAN is active: the firmware's VLAN stays as it is. */
    method FilterOn()
      modifies `vfe
      ensures vfe == (old(vfe) || !promisc)
    {
      if !promisc { vfe := true; }
    }

    /** e1000_vlan_rx_kill_vid: with the last VLAN filtering ends. */
    method KillVid(vid: nat)
      requires Shape() && vid < VLAN_N_VID
      modifies `active, `vfe, vfta
      ensures Shape() && active == old(active) - {vid}
      ensures forall v :: 0 <= v < VLAN_N_VID ==> Bit(v) == (old(Bit(v)) && v != vid)
      ensures vfe == (active != {} && old(vfe))
    {
      SetBit(vid, false);
      active := active - {vid};
      if active == {} { vfe := false; }
    }

    /** Following the cookie makes its VLAN active. */
    ghost predicate Added()
      reads this
    {
      active != {} && cookieVid !in active && support && cookieVid != mngVlanId
    }

    /** Following the cookie removes the VLAN that was the firmware's. */
    ghost predicate Killed(vid: nat)
      reads this
    {
      && active != {} && cookieVid !in active
      && mngVlanId != MNG_VLAN_NONE && vid == mngVlanId && vid != cookieVid && vid !in active
    }

    /** e1000_update_mng_vlan: follows the cookie. The table and the set change together. */
    method UpdateMngVlan()
      requires Shape() && MngOk()
      modifies `active, `vfe, `mngVlanId, vfta
      ensures Shape() && MngOk() && active == old(active) + if old(Added()) then {cookieVid} else {}
      ensures mngVlanId == if old(active) == {} then old(mngVlanId)
                           else if support || cookieVid in old(active) then cookieVid else MNG_VLAN_NONE
      ensures forall v :: 0 <= v < VLAN_N_VID ==>
                (Bit(v) <==> (old(Bit(v)) || (old(Added()) && v == cookieVid)) && !old(Killed(v)))
      ensures vfe == old(vfe)
    {
      var oldVid := mngVlanId;
      if active == {} { return; }
      if cookieVid !in active {
        if support {
          AddVid(cookieVid);
          mngVlanId := cookieVid;
        } else {
          mngVlanId := MNG_VLAN_NONE;
        }
        if oldVid != MNG_VLAN_NONE && cookieVid != oldVid && oldVid !in active { KillVid(oldVid); }
      } else {
        mngVlanId := cookieVid;
      }
    }

    /** Whatever VLANs are added or removed, and whenever the firmware's VLAN is looked at, the
        table and the set go on agreeing about every VLAN they agreed about. */
    method AnyChange(vid: nat, kind: nat)
      requires Shape() && MngOk() && vid < VLAN_N_VID
      modifies `active, `vfe, `mngVlanId, vfta
      ensures Shape() && MngOk() && forall v :: 0 <= v < VLAN_N_VID && old(Agrees(v)) ==> Agrees(v)
      ensures old(Match()) ==> Match()
    {
      if kind == 0 { AddVid(vid); } else if kind == 1 { KillVid(vid); } else { UpdateMngVlan(); }
    }

    /** A bit that clearing leaves set and following the cookie does not clear */
    ghost predicate Leftover(vid: nat)
      reads this
    {
      Residue(vid) && !Killed(vid)
    }

    /** A reset clears the table; e1000_reset then looks at the firmware's VLAN. */
    method Reset()
      requires Shape() && MngOk()
      modifies `active, `vfe, `mngVlanId, vfta
      ensures Shape() && MngOk() && active == old(active) + if old(Added()) then {cookieVid} else {}
      ensures !Added() && forall v :: 0 <= v < VLAN_N_VID ==> !Killed(v)
      ensures forall v :: 0 <= v < VLAN_N_VID ==>
                (Bit(v) <==> old(Leftover(v)) || (old(Added()) && v == cookieVid))
    {
      ClearVfta();
      UpdateMngVlan();
    }

    /** e1000_restore_vlan: adds each active VLAN again, but for the firmware's. */
    method Restore()
      requires Shape() && MngOk()
      modifies `active, `vfe, `mngVlanId, vfta
      ensures Shape() && MngOk() && active == old(active) + if old(Added()) then {cookieVid} else {}
      ensures forall v :: 0 <= v < VLAN_N_VID ==>
                (Bit(v) <==> || ((old(Bit(v)) || (old(Added()) && v == cookieVid)) && !old(Killed(v)))
                             || (v in active && !(support && v == cookieVid)))
      ensures vfe == (old(vfe) || (active != {} && !promisc))
    {
      if active == {} { return; }
      FilterOn();
      UpdateMngVlan();
      ghost var now, mid := active, vfta[..];
      var vid := 0;
      while vid < VLAN_N_VID
        invariant 0 <= vid <= VLAN_N_VID && Shape() && active == now && vfe == (old(vfe) || !promisc)
        invariant forall v :: 0 <= v < VLAN_N_VID ==>
                    (Bit(v) <==> v % 0x20 in mid[v / 0x20] || (v < vid && v in active && !(support && v == cookieVid)))
        modifies `active, `vfe, vfta
      {
        if vid in active { AddVid(vid); }
        vid := vid + 1;
      }
    }

    /** A reset and what follows it. The table and the set agree again exactly when every bit that
        the clearing leaves set is that of an active VLAN and, if the cookie asks for VLAN support
        and its VLAN was active, the clearing happens to leave that bit set: adding the firmware's
        VLAN again is skipped. */
    method Reconfigure()
      requires Shape() && MngOk()
      modifies `active, `vfe, `mngVlanId, vfta
      ensures Shape() && MngOk() && active == old(active) + if old(Added()) then {cookieVid} else {}
      ensures Match() <==>
                && (forall v :: 0 <= v < VLAN_N_VID && old(Leftover(v)) ==>
                      v in old(active) || (old(Added()) && v == cookieVid))
                && (support && cookieVid in old(active) ==> old(Leftover(cookieVid)))
      ensures !erratum ==> (Match() <==> !(support && cookieVid in old(active)))
      ensures forall v :: 0 <= v < VLAN_N_VID && v != cookieVid && !old(Leftover(v)) ==> Agrees(v)
      ensures active != {} && !promisc ==> vfe
    {
      Reset();
      Restore();
      assert forall v :: 0 <= v < VLAN_N_VID ==>
        (Bit(v) <==> old(Leftover(v)) || (old(Added()) && v == cookieVid)
                     || (v in active && !(support && v == cookieVid)));
      if Match() {
        forall v | 0 <= v < VLAN_N_VID && old(Leftover(v))
          ensures v in active
        {
          assert Agrees(v);
        }
        assert support && cookieVid in old(active) ==> Agrees(cookieVid);
      }
    }
  }
}
