/** The receive address filters (e1000_set_rx_mode): fifteen exact addresses, a hash table for the
    multicast addresses that find no room there, and the promiscuous modes. */
module RxFilter {
  import opened Bits

  /** An Ethernet address: its bytes in the order they are sent */
  type Addr = a: seq<nat> | |a| == 6 && forall i :: 0 <= i < 6 ==> a[i] < 0x100 witness [0, 0, 0, 0, 0, 0]

  const RAR_ENTRIES := 15
  const NUM_MTA_REGISTERS := 128
  const RAH_AV := 0x8000_0000

  /** A receive address register: its two halves, the second with the valid bit */
  datatype Rar = Rar(low: nat, high: nat)

  predicate IsMulticast(a: Addr) { a[0] % 2 == 1 }

  // ----- What the hardware does -----

  function Low32(a: Addr): nat { a[0] + a[1] * 0x100 + a[2] * 0x1_0000 + a[3] * 0x100_0000 }

  function High16(a: Addr): nat { a[4] + a[5] * 0x100 }

  /** The address as a number of 48 bits, the first byte lowest */
  function Number(a: Addr): nat { Low32(a) + High16(a) * 0x1_0000_0000 }

  /** The lowest of the twelve address bits that select an entry of the hash table */
  function HashShift(filterType: nat): nat {
    if filterType == 0 then 36 else if filterType == 1 then 35 else if filterType == 2 then 34 else 32
  }

  function HardwareHash(filterType: nat, a: Addr): nat { Number(a) / Pow2(HashShift(filterType)) % 0x1000 }

  // ----- The driver's hash -----

  /** e1000_hash_mc_addr */
  function HashMcAddr(filterType: nat, a: Addr): (hash: nat)
    requires filterType < 4
    ensures hash < 0x1000
  {
    var value :=
      if filterType == 0 then a[4] / 0x10 + a[5] * 0x10
      else if filterType == 1 then a[4] / 8 + a[5] * 0x20
      else if filterType == 2 then a[4] / 4 + a[5] * 0x40
      else a[4] + a[5] * 0x100;
    value % 0x1000
  }

  lemma HighBits(a: Addr)
    ensures Number(a) / 0x1_0000_0000 == High16(a)
  {
  }

  lemma Pow32()
    ensures Pow2(32) == 0x1_0000_0000 && Pow2(34) == 4 * Pow2(32) && Pow2(35) == 8 * Pow2(32)
    ensures Pow2(36) == 16 * Pow2(32)
  {
    PowValues();
  }

  /** Shifting by 32 bits and then by `k` is shifting at once. */
  lemma ShiftTwice(v: nat, k: nat)
    requires k == 1 || k == 4 || k == 8 || k == 16
    ensures v / (k * 0x1_0000_0000) == v / 0x1_0000_0000 / k
  {
    if k == 1 {
      assert v / 0x1_0000_0000 / 1 == v / 0x1_0000_0000;
    } else if k == 4 {
      assert v / 0x4_0000_0000 == v / 0x1_0000_0000 / 4;
    } else if k == 8 {
      assert v / 0x8_0000_0000 == v / 0x1_0000_0000 / 8;
    } else {
      assert v / 0x10_0000_0000 == v / 0x1_0000_0000 / 16;
    }
  }

  /** For one filter type: the upper half, shifted by the bits of `k`, is the number shifted as far. */
  lemma ShiftedHigh(filterType: nat, a: Addr, k: nat)
    requires k == 1 || k == 4 || k == 8 || k == 16
    requires Pow2(HashShift(filterType)) == k * Pow2(32)
    ensures HardwareHash(filterType, a) == High16(a) / k % 0x1000
  {
    Pow32();
    HighBits(a);
    hide Pow2, Number, High16, HashShift;
    ShiftTwice(Number(a), k);
  }

  /** The two bytes the driver shifts make up the upper half, shifted. */
  lemma ShiftedBytes(a: Addr)
    ensures High16(a) / 16 == a[4] / 0x10 + a[5] * 0x10
    ensures High16(a) / 8 == a[4] / 8 + a[5] * 0x20
    ensures High16(a) / 4 == a[4] / 4 + a[5] * 0x40
  {
  }

  lemma WholeHigh(a: Addr)
    ensures High16(a) / 1 == a[4] + a[5] * 0x100
  {
  }

  /** The driver hashes to the entry the hardware will look at. */
  lemma HashAgrees(filterType: nat, a: Addr)
    requires filterType < 4
    ensures HashMcAddr(filterType, a) == HardwareHash(filterType, a)
  {
    Pow32();
    ShiftedBytes(a);
    hide Pow2, HardwareHash, High16;
    var k := if filterType == 0 then 16 else if filterType == 1 then 8 else if filterType == 2 then 4 else 1;
    ShiftedHigh(filterType, a, k);
    if filterType == 3 { WholeHigh(a); }
  }

  // ----- The tables -----

  function RarOf(a: Addr): Rar { Rar(Low32(a), High16(a) + RAH_AV) }

  /** Distinct addresses have distinct register contents. */
  lemma RarInjective(a: Addr, b: Addr)
    requires RarOf(a) == RarOf(b)
    ensures a == b
  {
    Digit(a[0], a[1] + a[2] * 0x100 + a[3] * 0x1_0000, b[0], b[1] + b[2] * 0x100 + b[3] * 0x1_0000);
    Digit(a[1], a[2] + a[3] * 0x100, b[1], b[2] + b[3] * 0x100);
    Digit(a[2], a[3], b[2], b[3]);
    Digit(a[4], a[5], b[4], b[5]);
  }

  lemma Digit(a: nat, a': nat, b: nat, b': nat)
    requires a < 0x100 && b < 0x100 && a + a' * 0x100 == b + b' * 0x100
    ensures a == b && a' == b'
  {
  }

  /** The bits of hash register `r` that the addresses of `list` set */
  ghost function HashBits(filterType: nat, list: seq<Addr>, r: nat): set<nat>
    requires filterType < 4
  {
    set k | 0 <= k < |list| && HashMcAddr(filterType, list[k]) / 0x20 == r :: HashMcAddr(filterType, list[k]) % 0x20
  }

  class Filters {
    const filterType: nat
    /** The 82544: writing an odd entry of a table may spoil the even entry below it. */
    const erratum: bool
    const rar: array<Rar>
    const mta: array<set<nat>>
    /** Promiscuous for unicast and for multicast, and VLAN filtering */
    var upe: bool
    var mpe: bool
    var vfe: bool

    ghost predicate Valid() {
      filterType < 4 && rar.Length == RAR_ENTRIES && mta.Length == NUM_MTA_REGISTERS
    }

    constructor (filterType: nat, erratum: bool)
      requires filterType < 4
      ensures Valid() && fresh(rar) && fresh(mta)
    {
      this.filterType, this.erratum := filterType, erratum;
      rar := new Rar[RAR_ENTRIES](_ => Rar(0, 0));
      mta := new set<nat>[NUM_MTA_REGISTERS](_ => {});
      upe, mpe, vfe := false, false, false;
    }

    /** Whether the hardware lets in a frame sent to `a`. */
    ghost predicate LetsIn(a: Addr)
      requires Valid()
      reads this, rar, mta
    {
      || (if IsMulticast(a) then mpe else upe)
      || (exists i :: 0 <= i < RAR_ENTRIES && rar[i] == RarOf(a))
      || (IsMulticast(a) && var h := HardwareHash(filterType, a); h % 0x20 in mta[h / 0x20])
    }

    /** e1000_rar_set: two writes, of four and of two bytes */
    method RarSet(a: Addr, index: nat)
      requires Valid() && index < RAR_ENTRIES
      modifies rar
      ensures rar[..] == old(rar[..])[index := RarOf(a)]
    {
      var low := a[0] + a[1] * 0x100 + a[2] * 0x1_0000 + a[3] * 0x100_0000;
      var high := a[4] + a[5] * 0x100;
      high := high + RAH_AV;
      rar[index] := rar[index].(low := low);
      rar[index] := rar[index].(high := high);
    }

    /** A write to an entry of the hash table */
    method WriteMta(i: nat, value: set<nat>)
      requires Valid() && i < NUM_MTA_REGISTERS
      modifies mta
      ensures mta[i] == value
      ensures forall j :: 0 <= j < NUM_MTA_REGISTERS && j != i && !(erratum && i % 2 == 1 && j == i - 1) ==>
                mta[j] == old(mta[j])
    {
      if erratum && i % 2 == 1 {
        var junk: set<nat> := *;
        mta[i - 1] := junk;
      }
      mta[i] := value;
    }

    /** Each of `list` in a register of its own from `i` on. */
    ghost predicate Exact(i: nat, list: seq<Addr>)
      requires Valid()
      reads rar
    {
      i + |list| <= RAR_ENTRIES && forall k :: 0 <= k < |list| ==> rar[i + k] == RarOf(list[k])
    }

    /** Fills registers from `i` on with addresses of `list`, as many as there is room for. */
    method Fill(i: nat, list: seq<Addr>, ghost before: seq<Addr>) returns (i': nat)
      requires Valid() && 1 <= i <= RAR_ENTRIES && i == 1 + |before| && Exact(1, before)
      modifies rar
      ensures i' == (if i + |list| <= RAR_ENTRIES then i + |list| else RAR_ENTRIES)
      ensures Exact(1, before + list[..i' - i]) && rar[0] == old(rar[0])
    {
      i' := i;
      while i' < RAR_ENTRIES && i' - i < |list|
        invariant i <= i' <= RAR_ENTRIES && i' - i <= |list|
        invariant Exact(1, before + list[..i' - i]) && rar[0] == old(rar[0])
      {
        ghost var so := before + list[..i' - i];
        RarSet(list[i' - i], i');
        assert before + list[..i' + 1 - i] == so + [list[i' - i]];
        i' := i' + 1;
      }
    }

    /** The hash table for the addresses that found no register. */
    method HashRest(list: seq<Addr>) returns (mcarray: array<set<nat>>)
      requires Valid()
      ensures fresh(mcarray) && mcarray.Length == NUM_MTA_REGISTERS
      ensures forall r :: 0 <= r < NUM_MTA_REGISTERS ==> mcarray[r] == HashBits(filterType, list, r)
    {
      mcarray := new set<nat>[NUM_MTA_REGISTERS](_ => {});
      var k := 0;
      while k < |list|
        invariant k <= |list| && fresh(mcarray) && mcarray.Length == NUM_MTA_REGISTERS
        invariant forall r :: 0 <= r < NUM_MTA_REGISTERS ==> mcarray[r] == HashBits(filterType, list[..k], r)
      {
        var hash := HashMcAddr(filterType, list[k]);
        var reg, bit := hash / 0x20, hash % 0x20;
        ghost var was := mcarray[..];
        mcarray[reg] := mcarray[reg] + {bit};
        forall r | 0 <= r < NUM_MTA_REGISTERS
          ensures mcarray[r] == HashBits(filterType, list[..k + 1], r)
        {
          MoreBits(filterType, list, k, r);
          assert was[r] == HashBits(filterType, list[..k], r);
        }
        k := k + 1;
      }
      assert list[..k] == list;
    }

    static lemma MoreBits(filterType: nat, list: seq<Addr>, k: nat, r: nat)
      requires filterType < 4 && k < |list|
      ensures var h := HashMcAddr(filterType, list[k]);
              HashBits(filterType, list[..k + 1], r)
              == HashBits(filterType, list[..k], r) + if h / 0x20 == r then {h % 0x20} else {}
    {
      var h := HashMcAddr(filterType, list[k]);
      var a, b := HashBits(filterType, list[..k + 1], r), HashBits(filterType, list[..k], r);
      forall x
        ensures x in a <==> x in b + if h / 0x20 == r then {h % 0x20} else {}
      {
        if x in a {
          var j :| 0 <= j <= k && HashMcAddr(filterType, list[..k + 1][j]) / 0x20 == r
                   && x == HashMcAddr(filterType, list[..k + 1][j]) % 0x20;
          if j < k { assert list[..k][j] == list[j]; }
        }
        if x in b {
          var j :| 0 <= j < k && HashMcAddr(filterType, list[..k][j]) / 0x20 == r
                   && x == HashMcAddr(filterType, list[..k][j]) % 0x20;
          assert list[..k + 1][j] == list[j];
        }
        if h / 0x20 == r && x == h % 0x20 { assert list[..k + 1][k] == list[k]; }
      }
    }

    /** Writes the whole hash table from the top, so that an entry spoilt by the erratum is written
        after the one that spoilt it. */
    method WriteTable(mcarray: array<set<nat>>)
      requires Valid() && mcarray.Length == NUM_MTA_REGISTERS && mcarray != mta
      modifies mta
      ensures mta[..] == mcarray[..]
    {
      var i := NUM_MTA_REGISTERS - 1;
      while i >= 0
        invariant -1 <= i < NUM_MTA_REGISTERS
        invariant forall j :: i < j < NUM_MTA_REGISTERS ==> mta[j] == mcarray[j]
      {
        WriteMta(i, mcarray[i]);
        i := i - 1;
      }
    }

    /** e1000_set_rx_mode. Unless memory runs out, every address of either list is let in, however
        long the lists are; the station address stays, and the tables hold nothing else. */
    method SetRxMode(promisc: bool, allMulti: bool, vlanUsed: bool, uc: seq<Addr>, mc: seq<Addr>, memory: bool)
      returns (done: bool)
      requires Valid() && (forall a :: a in uc ==> !IsMulticast(a)) && (forall a :: a in mc ==> IsMulticast(a))
      modifies this, rar, mta
      ensures done == memory
      ensures !done ==> upe == old(upe) && mpe == old(mpe) && vfe == old(vfe)
                        && rar[..] == old(rar[..]) && mta[..] == old(mta[..])
      ensures done ==> forall a :: a in uc || a in mc ==> LetsIn(a)
      ensures done ==> rar[0] == old(rar[0])
      ensures done ==> upe == (promisc || |uc| > RAR_ENTRIES - 1) && mpe == (promisc || allMulti)
      ensures done ==> vfe == (!promisc && (vlanUsed || old(vfe)))
      ensures done ==> Tables(if upe then mc else uc + mc)
      ensures done ==> forall a :: LetsIn(a) <==> Wanted(if upe then mc else uc + mc, a)
    {
      if !memory { return false; }
      var useUc := SetModes(promisc, allMulti, vlanUsed, |uc|);
      var exact := if useUc then uc else [];
      LoadTables(exact, mc);
      assert exact + mc == if upe then mc else uc + mc;
      forall a | a in uc || a in mc
        ensures LetsIn(a)
      {
        if a in exact { assert a in (exact + mc)[..|exact|]; }
        if a in exact || a in mc { Listed(exact + mc, a); }
      }
      forall a
        ensures LetsIn(a) <==> Wanted(exact + mc, a)
      {
        LetsInExactly(exact + mc, a);
      }
      return true;
    }

    /** The modes, and whether unicast addresses are to have registers. */
    method SetModes(promisc: bool, allMulti: bool, vlanUsed: bool, ucCount: nat) returns (useUc: bool)
      modifies `upe, `mpe, `vfe
      ensures upe == (promisc || ucCount > RAR_ENTRIES - 1) && mpe == (promisc || allMulti)
      ensures vfe == (!promisc && (vlanUsed || old(vfe))) && useUc == !upe
    {
      if promisc {
        upe, mpe, vfe := true, true, false;
      } else {
        mpe := allMulti;
        if vlanUsed { vfe := true; }
      }
      useUc := false;
      if ucCount > RAR_ENTRIES - 1 {
        upe := true;
      } else if !promisc {
        upe := false;
        useUc := true;
      }
    }

    method LoadTables(exact: seq<Addr>, mc: seq<Addr>)
      requires Valid() && |exact| <= RAR_ENTRIES - 1
      modifies rar, mta
      ensures Tables(exact + mc) && rar[0] == old(rar[0])
    {
      hide HashBits, RarOf;
      var i := Fill(1, exact, []);
      assert [] + exact[..i - 1] == exact;
      var j := Fill(i, mc, exact);
      var mcarray := HashRest(mc[j - i..]);
      ghost var list := exact + mc;
      assert list[..j - 1] == exact + mc[..j - i] && list[j - 1..] == mc[j - i..];
      ClearFrom(j, list[..j - 1]);
      WriteTable(mcarray);
    }

    /** Clears the registers from `j` on, each half in turn. */
    method ClearFrom(j: nat, ghost before: seq<Addr>)
      requires Valid() && 1 <= j <= RAR_ENTRIES && j == 1 + |before| && Exact(1, before)
      modifies rar
      ensures rar[0] == old(rar[0]) && Exact(1, before) && forall k :: j <= k < RAR_ENTRIES ==> rar[k] == Rar(0, 0)
    {
      var i := j;
      while i < RAR_ENTRIES
        invariant j <= i <= RAR_ENTRIES && rar[0] == old(rar[0]) && Exact(1, before)
        invariant forall k :: j <= k < i ==> rar[k] == Rar(0, 0)
      {
        rar[i] := rar[i].(low := 0);
        rar[i] := rar[i].(high := 0);
        i := i + 1;
      }
    }

    /** The tables hold the addresses of `list`: the first fourteen in registers, the hash bits of
        the others, and nothing else. */
    ghost predicate Tables(list: seq<Addr>)
      requires Valid()
      reads rar, mta
    {
      var n := InRegisters(list);
      && Exact(1, list[..n]) && (forall k :: n < k < RAR_ENTRIES ==> rar[k] == Rar(0, 0))
      && forall r :: 0 <= r < NUM_MTA_REGISTERS ==> mta[r] == HashBits(filterType, list[n..], r)
    }

    /** How many of `list` have registers */
    static function InRegisters(list: seq<Addr>): (n: nat)
      ensures n <= |list|
    {
      if |list| <= RAR_ENTRIES - 1 then |list| else RAR_ENTRIES - 1
    }

    /** What may be let in: by the modes, the station's address, what is listed, and any multicast
        address that shares its twelve hash bits with a listed one that found no register. */
    ghost predicate Wanted(list: seq<Addr>, a: Addr)
      requires Valid()
      reads this, rar
    {
      var n := InRegisters(list);
      || (if IsMulticast(a) then mpe else upe) || rar[0] == RarOf(a) || a in list[..n]
      || (IsMulticast(a) && exists b :: b in list[n..] && HardwareHash(filterType, b) == HardwareHash(filterType, a))
    }

    /** Nothing else is let in. */
    lemma LetsInExactly(list: seq<Addr>, a: Addr)
      requires Valid() && Tables(list)
      ensures LetsIn(a) <==> Wanted(list, a)
    {
      var n := InRegisters(list);
      RegistersExactly(list, a);
      if IsMulticast(a) { HashExactly(list[n..], a); }
    }

    /** A register matches exactly the station's address and those that were loaded. */
    lemma RegistersExactly(list: seq<Addr>, a: Addr)
      requires Valid() && Tables(list)
      ensures (exists i :: 0 <= i < RAR_ENTRIES && rar[i] == RarOf(a)) <==>
              rar[0] == RarOf(a) || a in list[..InRegisters(list)]
    {
      var n := InRegisters(list);
      if a in list[..n] {
        var k :| 0 <= k < n && list[..n][k] == a;
        assert rar[1 + k] == RarOf(list[..n][k]);
      }
      if i :| 1 <= i < RAR_ENTRIES && rar[i] == RarOf(a) {
        if i <= n {
          assert rar[1 + (i - 1)] == RarOf(list[..n][i - 1]);
          RarInjective(a, list[..n][i - 1]);
        }
      }
    }

    /** The hash bit of an address is set exactly when one of the hashed addresses has the same. */
    lemma HashExactly(rest: seq<Addr>, a: Addr)
      requires Valid() && forall r :: 0 <= r < NUM_MTA_REGISTERS ==> mta[r] == HashBits(filterType, rest, r)
      ensures var h := HardwareHash(filterType, a);
              && h / 0x20 < NUM_MTA_REGISTERS
              && (h % 0x20 in mta[h / 0x20] <==> exists b :: b in rest && HardwareHash(filterType, b) == h)
    {
      HashAgrees(filterType, a);
      var h := HashMcAddr(filterType, a);
      if h % 0x20 in mta[h / 0x20] {
        var k :| 0 <= k < |rest| && HashMcAddr(filterType, rest[k]) / 0x20 == h / 0x20
                 && h % 0x20 == HashMcAddr(filterType, rest[k]) % 0x20;
        HashAgrees(filterType, rest[k]);
      }
      if b :| b in rest && HardwareHash(filterType, b) == h {
        HashAgrees(filterType, b);
        var k :| 0 <= k < |rest| && rest[k] == b;
        assert HashMcAddr(filterType, rest[k]) % 0x20 in HashBits(filterType, rest, h / 0x20);
      }
    }

    lemma Listed(list: seq<Addr>, a: Addr)
      requires Valid() && Tables(list) && a in list
      requires IsMulticast(a) || |list| <= RAR_ENTRIES - 1 || a in list[..RAR_ENTRIES - 1]
      ensures LetsIn(a)
    {
      var n := InRegisters(list);
      var k :| 0 <= k < |list| && list[k] == a;
      if k < n {
        assert rar[1 + k] == RarOf(list[..n][k]);
      } else if IsMulticast(a) {
        HashAgrees(filterType, a);
        var h := HashMcAddr(filterType, a);
        assert list[n..][k - n] == a;
        assert h % 0x20 in HashBits(filterType, list[n..], h / 0x20);
      }
    }
  }
}
