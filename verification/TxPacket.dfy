/** How a packet is cut into transmit descriptors, and how many descriptors are reserved
    for it beforehand (e1000_xmit_frame and e1000_tx_map). */
module TxPacket {
  import opened Bits

  const ETH_ZLEN := 60
  const MAX_TXD_PWR := 12
  const MAX_DATA_PER_TXD := 4096
  const PCIX_FIRST_LIMIT := 2015

  /** A page fragment. The driver maps `page + pageOffset`, but its alignment test looks at
      the address of the page alone. */
  datatype Frag = Frag(page: nat, pageOffset: nat, size: nat)

  datatype Skb = Skb(id: nat, headAddr: nat, headLen: nat, frags: seq<Frag>, gsoSize: nat, csumPartial: bool)
  {
    function DataLen(): nat { TotalSize(frags) }
    function Len(): nat { headLen + DataLen() }
    predicate IsGso() { gsoSize != 0 }
    predicate NeedsContext() { IsGso() || csumPartial }
  }

  /** The two hardware facts the transmit path asks about. */
  datatype Hw = Hw(mac82544: bool, pcix: bool)
  {
    predicate Pcix82544() { mac82544 && pcix }
  }

  /** One data descriptor: the DMA address, the length, and whether a page was mapped. */
  datatype Piece = Piece(addr: nat, len: nat, page: bool)

  /** The rules that shape the chunks of one buffer. */
  datatype Rules = Rules(max: nat, trim: bool, sentinel: bool, pcix: bool, dword: bool)
  {
    ghost predicate Valid() { max >= 4 && max % 4 == 0 && (trim ==> max == MAX_DATA_PER_TXD) }
  }

  function TotalSize(frags: seq<Frag>): nat {
    if frags == [] then 0 else frags[0].size + TotalSize(frags[1..])
  }

  function Min(a: nat, b: nat): nat { if a <= b then a else b }

  /** `address & 4` */
  predicate Bit2(address: nat) { address % 8 >= 4 }

  // ----- Powers of two and the size limit -----

  /** Position of the highest set bit, counted from one; zero for zero. */
  function Fls(x: nat): nat { if x == 0 then 0 else 1 + Fls(x / 2) }

  function MaxPerTxd(mss: nat): nat {
    if mss == 0 then MAX_DATA_PER_TXD else Min(4 * mss, MAX_DATA_PER_TXD)
  }

  function MaxTxdPwr(mss: nat): nat {
    if mss == 0 then MAX_TXD_PWR else Fls(MaxPerTxd(mss)) - 1
  }

  lemma {:induction false} FlsBounds(x: nat)
    requires x > 0
    ensures Fls(x) >= 1
    ensures Pow2(Fls(x) - 1) <= x < Pow2(Fls(x))
  {
    if x == 1 {
      assert Fls(0) == 0;
      assert Fls(1) == 1 + Fls(0);
      assert Pow2(1) == 2 * Pow2(0);
    } else {
      FlsBounds(x / 2);
    }
  }

  lemma {:induction false} Pow2Multiple(n: nat)
    requires n >= 2
    ensures Pow2(n) % 4 == 0
    ensures n >= 3 ==> Pow2(n) % 8 == 0
  {
    if n == 2 {
      assert Pow2(1) == 2 * Pow2(0);
      assert Pow2(2) == 2 * Pow2(1);
    } else {
      Pow2Multiple(n - 1);
    }
  }

  lemma {:induction false} Pow2AtLeast(n: nat)
    ensures Pow2(n) >= n + 1
  {
    if n == 0 {
    } else {
      Pow2AtLeast(n - 1);
    }
  }

  lemma Doubling(n: nat)
    ensures Pow2(n + 1) == 2 * Pow2(n)
  {
  }

  lemma PowerBelow(m: nat, k: nat)
    requires m >= 4 && m % 4 == 0
    requires Pow2(k) <= m < 2 * Pow2(k)
    ensures Pow2(k) >= 4
    ensures m % 8 != 0 && m != 4 ==> m - 4 >= Pow2(k)
  {
    if k < 2 {
      assert false;
    }
    Pow2Multiple(k);
    if k == 2 {
      assert Pow2(1) == 2 * Pow2(0) && Pow2(2) == 2 * Pow2(1);
    }
  }

  lemma LimitShape(mss: nat)
    ensures 4 <= MaxPerTxd(mss) <= MAX_DATA_PER_TXD && MaxPerTxd(mss) % 4 == 0
  {
  }

  /** The limit is a multiple of four and lies in [2^pwr, 2^(pwr+1)). When it is not a
      multiple of eight, a chunk shortened by one dword is still at least 2^pwr bytes. */
  lemma LimitVersusPower(mss: nat)
    ensures 4 <= MaxPerTxd(mss) <= MAX_DATA_PER_TXD && MaxPerTxd(mss) % 4 == 0
    ensures 4 <= Pow2(MaxTxdPwr(mss)) <= MaxPerTxd(mss)
    ensures mss == 0 ==> Pow2(MaxTxdPwr(mss)) == MaxPerTxd(mss)
    ensures MaxPerTxd(mss) == MAX_DATA_PER_TXD || MaxPerTxd(mss) == 4 * mss < MAX_DATA_PER_TXD
    ensures MaxPerTxd(mss) % 8 != 0 && MaxPerTxd(mss) != 4 ==> MaxPerTxd(mss) - 4 >= Pow2(MaxTxdPwr(mss))
  {
    var m := MaxPerTxd(mss);
    LimitShape(mss);
    if mss == 0 {
      PowValues();
    } else {
      hide Pow2, Fls, MaxPerTxd;
      FlsBounds(m);
      Doubling(Fls(m) - 1);
      PowerBelow(m, Fls(m) - 1);
    }
  }

  // ----- Chopping -----

  /** Four bytes before an evenly aligned dword there is an odd one. */
  lemma Bit2Less(x: nat)
    requires x >= 4 && !Bit2(x)
    ensures Bit2(x - 4)
  {
  }

  /** The size of the next descriptor of a buffer with `len` bytes left whose next byte has
      test address `test`; `first` marks the first descriptor of the packet. */
  function Chunk(r: Rules, test: nat, len: nat, first: bool): (size: nat)
    requires r.Valid() && len > 0
    requires r.trim && first ==> len > 8
    ensures 1 <= size <= Min(len, r.max)
    ensures r.dword && size > 4 ==> Bit2(test + size - 1)
    ensures r.pcix && first ==> size <= PCIX_FIRST_LIMIT
  {
    var s0 := Min(len, r.max);
    var s1 := if r.trim && first then s0 - 4 else s0;
    var s2 := if r.sentinel && s1 == len && s1 > 8 then s1 - 4 else s1;
    var s3 := if r.pcix && first && s2 > PCIX_FIRST_LIMIT then PCIX_FIRST_LIMIT else s2;
    if r.dword && !Bit2(test + s3 - 1) && s3 > 4 then Bit2Less(test + s3 - 1); s3 - 4 else s3
  }

  function Chop(r: Rules, test: nat, dma: nat, len: nat, first: bool, page: bool): (ps: seq<Piece>)
    requires r.Valid()
    requires r.trim && first ==> len > 8
    decreases len
  {
    if len == 0 then [] else
      var size := Chunk(r, test, len, first);
      [Piece(dma, size, page)] + Chop(r, test + size, dma + size, len - size, false, page)
  }

  predicate TrimFirst(skb: Skb, lastTxTso: bool) {
    skb.DataLen() == 0 && lastTxTso && !skb.IsGso()
  }

  function HeadRules(hw: Hw, skb: Skb, lastTxTso: bool): (r: Rules)
    ensures r.Valid()
  {
    LimitVersusPower(skb.gsoSize);
    Rules(MaxPerTxd(skb.gsoSize), TrimFirst(skb, lastTxTso), skb.IsGso() && skb.frags == [], hw.pcix, hw.Pcix82544())
  }

  function FragRules(hw: Hw, mss: nat, last: bool): (r: Rules)
    ensures r.Valid()
  {
    LimitVersusPower(mss);
    Rules(MaxPerTxd(mss), false, mss != 0 && last, false, hw.Pcix82544())
  }

  /** The descriptors of fragment `f`. */
  function FragGroup(hw: Hw, mss: nat, frags: seq<Frag>, f: nat): seq<Piece>
    requires f < |frags|
  {
    Chop(FragRules(hw, mss, f == |frags| - 1), frags[f].page, frags[f].page + frags[f].pageOffset, frags[f].size,
         false, true)
  }

  /** The descriptors of the first `n` fragments. */
  function FragPieces(hw: Hw, mss: nat, frags: seq<Frag>, n: nat): seq<Piece>
    requires n <= |frags|
  {
    if n == 0 then [] else FragPieces(hw, mss, frags, n - 1) + FragGroup(hw, mss, frags, n - 1)
  }

  /** What the transmit path needs of a packet once it has been padded. */
  ghost predicate Padded(skb: Skb) { skb.Len() >= ETH_ZLEN }

  function HeadPieces(hw: Hw, skb: Skb, lastTxTso: bool): seq<Piece>
    requires Padded(skb)
  {
    Chop(HeadRules(hw, skb, lastTxTso), skb.headAddr, skb.headAddr, skb.headLen, true, false)
  }

  /** The data descriptors of a packet, in ring order. */
  function Pieces(hw: Hw, skb: Skb, lastTxTso: bool): seq<Piece>
    requires Padded(skb)
  {
    HeadPieces(hw, skb, lastTxTso) + FragPieces(hw, skb.gsoSize, skb.frags, |skb.frags|)
  }

  // ----- Shape of the chunks -----

  /** The descriptors are non-empty, within the limit, and cover [dma, dma + len) in order
      without gap or overlap. */
  ghost predicate Tiles(ps: seq<Piece>, dma: nat, len: nat, max: nat, page: bool) {
    if ps == [] then len == 0 else
      && ps[0].addr == dma && ps[0].page == page
      && 1 <= ps[0].len <= max && ps[0].len <= len
      && Tiles(ps[1..], dma + ps[0].len, len - ps[0].len, max, page)
  }

  /** No descriptor of more than four bytes ends in an evenly aligned dword, as far as the
      test address tells. */
  ghost predicate DwordSafe(ps: seq<Piece>, test: nat) {
    ps == [] || ((ps[0].len > 4 ==> Bit2(test + ps[0].len - 1)) && DwordSafe(ps[1..], test + ps[0].len))
  }

  lemma TilesCons(p: Piece, rest: seq<Piece>, dma: nat, len: nat, max: nat, page: bool)
    requires p.addr == dma && p.page == page && 1 <= p.len <= max && p.len <= len
    requires Tiles(rest, dma + p.len, len - p.len, max, page)
    ensures Tiles([p] + rest, dma, len, max, page)
  {
    assert ([p] + rest)[1..] == rest;
  }

  lemma DwordSafeCons(p: Piece, rest: seq<Piece>, test: nat)
    requires (p.len > 4 ==> Bit2(test + p.len - 1)) && DwordSafe(rest, test + p.len)
    ensures DwordSafe([p] + rest, test)
  {
    assert ([p] + rest)[1..] == rest;
  }

  lemma ChopNext(r: Rules, test: nat, dma: nat, len: nat, first: bool, page: bool)
    requires r.Valid() && len > 0 && (r.trim && first ==> len > 8)
    ensures var size := Chunk(r, test, len, first);
            Chop(r, test, dma, len, first, page)
            == [Piece(dma, size, page)] + Chop(r, test + size, dma + size, len - size, false, page)
  {
  }

  lemma {:induction false} ChopTiles(r: Rules, test: nat, dma: nat, len: nat, first: bool, page: bool)
    requires r.Valid() && (r.trim && first ==> len > 8)
    ensures Tiles(Chop(r, test, dma, len, first, page), dma, len, r.max, page)
    decreases len
  {
    if len == 0 {
    } else {
      hide Chunk, Chop, Tiles, Bit2;
      var size := Chunk(r, test, len, first);
      var rest := Chop(r, test + size, dma + size, len - size, false, page);
      ChopNext(r, test, dma, len, first, page);
      ChopTiles(r, test + size, dma + size, len - size, false, page);
      TilesCons(Piece(dma, size, page), rest, dma, len, r.max, page);
    }
  }

  lemma NothingSafe(r: Rules, test: nat, dma: nat, first: bool, page: bool)
    requires r.Valid() && !(r.trim && first)
    ensures DwordSafe(Chop(r, test, dma, 0, first, page), test)
  {
  }

  lemma {:induction false} ChopDwordSafe(r: Rules, test: nat, dma: nat, len: nat, first: bool, page: bool)
    requires r.Valid() && (r.trim && first ==> len > 8) && r.dword
    ensures DwordSafe(Chop(r, test, dma, len, first, page), test)
    decreases len
  {
    hide Chunk, Chop, DwordSafe, Bit2;
    if len == 0 {
      NothingSafe(r, test, dma, first, page);
    } else {
      var size := Chunk(r, test, len, first);
      var rest := Chop(r, test + size, dma + size, len - size, false, page);
      ChopNext(r, test, dma, len, first, page);
      ChopDwordSafe(r, test + size, dma + size, len - size, false, page);
      DwordSafeCons(Piece(dma, size, page), rest, test);
    }
  }

  lemma ChopShape(r: Rules, test: nat, dma: nat, len: nat, first: bool, page: bool)
    requires r.Valid()
    requires r.trim && first ==> len > 8
    ensures Tiles(Chop(r, test, dma, len, first, page), dma, len, r.max, page)
    ensures r.dword ==> DwordSafe(Chop(r, test, dma, len, first, page), test)
    ensures r.pcix && first && len > 0 ==>
              var ps := Chop(r, test, dma, len, first, page); |ps| > 0 && ps[0].len <= PCIX_FIRST_LIMIT
  {
    hide Chunk, Chop, Tiles, DwordSafe, Bit2;
    ChopTiles(r, test, dma, len, first, page);
    if r.dword { ChopDwordSafe(r, test, dma, len, first, page); }
    if len > 0 { ChopNext(r, test, dma, len, first, page); }
  }

  /** The linear area and every fragment are tiled by their own descriptors; on PCI-X the
      first descriptor of a packet is short enough, and on a PCI-X 82544 no descriptor over
      four bytes ends in an even dword. */
  lemma PiecesShape(hw: Hw, skb: Skb, lastTxTso: bool)
    requires Padded(skb)
    ensures Tiles(HeadPieces(hw, skb, lastTxTso), skb.headAddr, skb.headLen, MaxPerTxd(skb.gsoSize), false)
    ensures forall f :: 0 <= f < |skb.frags| ==>
              Tiles(FragGroup(hw, skb.gsoSize, skb.frags, f), skb.frags[f].page + skb.frags[f].pageOffset,
                    skb.frags[f].size, MaxPerTxd(skb.gsoSize), true)
    ensures hw.Pcix82544() ==> DwordSafe(HeadPieces(hw, skb, lastTxTso), skb.headAddr)
    ensures hw.Pcix82544() ==> forall f :: 0 <= f < |skb.frags| ==>
              DwordSafe(FragGroup(hw, skb.gsoSize, skb.frags, f), skb.frags[f].page)
    ensures hw.pcix && skb.headLen > 0 ==>
              |Pieces(hw, skb, lastTxTso)| > 0 && Pieces(hw, skb, lastTxTso)[0].len <= PCIX_FIRST_LIMIT
  {
    ChopShape(HeadRules(hw, skb, lastTxTso), skb.headAddr, skb.headAddr, skb.headLen, true, false);
    forall f | 0 <= f < |skb.frags|
      ensures Tiles(FragGroup(hw, skb.gsoSize, skb.frags, f), skb.frags[f].page + skb.frags[f].pageOffset,
                    skb.frags[f].size, MaxPerTxd(skb.gsoSize), true)
      ensures hw.Pcix82544() ==> DwordSafe(FragGroup(hw, skb.gsoSize, skb.frags, f), skb.frags[f].page)
    {
      ChopShape(FragRules(hw, skb.gsoSize, f == |skb.frags| - 1), skb.frags[f].page,
                skb.frags[f].page + skb.frags[f].pageOffset, skb.frags[f].size, false, true);
    }
  }

  /** The first descriptor of every packet with this much linear data is short enough for PCI-X. */
  ghost predicate FirstShort(hw: Hw, headLen: nat, lastTxTso: bool) {
    forall skb: Skb {:trigger Pieces(hw, skb, lastTxTso)} | skb.headLen == headLen && Padded(skb) ::
      Pieces(hw, skb, lastTxTso) != [] ==> Pieces(hw, skb, lastTxTso)[0].len <= PCIX_FIRST_LIMIT
  }

  /** That is so exactly for packets with linear data, since fragments are not tested. */
  lemma FirstShortExactly(hw: Hw, headLen: nat, lastTxTso: bool)
    requires hw.pcix
    ensures FirstShort(hw, headLen, lastTxTso) <==> headLen > 0
  {
    if headLen > 0 {
      forall skb: Skb | skb.headLen == headLen && Padded(skb)
        ensures Pieces(hw, skb, lastTxTso) != [] && Pieces(hw, skb, lastTxTso)[0].len <= PCIX_FIRST_LIMIT
      {
        PiecesShape(hw, skb, lastTxTso);
      }
    } else {
      LongFirst(hw, lastTxTso);
    }
  }

  /** A page without linear data: its only descriptor has 4096 bytes. */
  lemma LongFirst(hw: Hw, lastTxTso: bool)
    ensures var skb := Skb(0, 0, 0, [Frag(0, 0, 4096)], 0, false);
            Padded(skb) && Pieces(hw, skb, lastTxTso) == [Piece(0, 4096, true)]
  {
    var frags := [Frag(0, 0, 4096)];
    var skb := Skb(0, 0, 0, frags, 0, false);
    assert TotalSize(frags) == 4096 + TotalSize([]);
    assert HeadPieces(hw, skb, lastTxTso) == [];
    var r := FragRules(hw, 0, true);
    assert Chunk(r, 0, 4096, false) == 4096;
    ChopNext(r, 0, 0, 4096, false, true);
    assert FragGroup(hw, 0, frags, 0) == [Piece(0, 4096, true)];
    assert FragPieces(hw, 0, frags, 0) == [];
    assert FragPieces(hw, 0, frags, 1) == [] + FragGroup(hw, 0, frags, 0);
  }

  // ----- The sizes in closed form -----

  function Lens(ps: seq<Piece>): (ls: seq<nat>)
    ensures |ls| == |ps|
  {
    seq(|ps|, i requires 0 <= i < |ps| => ps[i].len)
  }

  /** What is left of `len` bytes when as many full blocks of `max` are taken as leave something */
  function LastBlock(len: nat, max: nat): (rem: nat)
    requires len > 0 && max > 0
    ensures 1 <= rem <= max
  {
    (len - 1) % max + 1
  }

  /** Full blocks, and then the last block: whole, or, for a sentinel, without its last four bytes,
      which come on their own, if it has more than eight. */
  function Blocks(len: nat, max: nat, sentinel: bool): (ls: seq<nat>)
    requires max > 0
  {
    if len == 0 then [] else
      var rem := LastBlock(len, max);
      seq((len - 1) / max, _ => max) + if sentinel && rem > 8 then [rem - 4, 4] else [rem]
  }

  lemma BlocksStep(len: nat, max: nat, sentinel: bool)
    requires len > max > 0
    ensures Blocks(len, max, sentinel) == [max] + Blocks(len - max, max, sentinel)
  {
    BlockLess(len, max);
    var k := (len - 1) / max;
    assert seq<nat>(k, _ => max) == [max] + seq<nat>(k - 1, _ => max);
  }

  lemma BlockLess(len: nat, max: nat)
    requires len > max > 0
    ensures LastBlock(len - max, max) == LastBlock(len, max) && (len - 1) / max == (len - max - 1) / max + 1
  {
    var q, r := (len - max - 1) / max, (len - max - 1) % max;
    assert len - max - 1 == max * q + r;
    assert max * (q + 1) == max * q + max;
    Quotient(len - 1, max, q + 1, r);
  }

  lemma BlocksShort(len: nat, max: nat, sentinel: bool)
    requires 0 < len <= max
    ensures Blocks(len, max, sentinel) == if sentinel && len > 8 then [len - 4, 4] else [len]
  {
    Quotient(len - 1, max, 0, len - 1);
    assert seq<nat>(0, _ => max) == [];
  }

  lemma LensCons(p: Piece, rest: seq<Piece>)
    ensures Lens([p] + rest) == [p.len] + Lens(rest)
  {
  }

  /** One descriptor and the blocks of what it leaves */
  lemma NextBlock(len: nat, max: nat, sentinel: bool, size: nat)
    requires len > 0 && max >= 4
    requires size == if len > max then max else if sentinel && len > 8 then len - 4 else len
    ensures Blocks(len, max, sentinel) == [size] + Blocks(len - size, max, sentinel)
  {
    hide Blocks;
    if len > max {
      BlocksStep(len, max, sentinel);
    } else {
      BlocksShort(len, max, sentinel);
      if size < len { BlocksShort(4, max, sentinel); } else { NoBlocks(max, sentinel); }
    }
  }

  /** Without the dword rule a buffer is cut into those blocks. */
  lemma {:induction false} ChopBlocks(r: Rules, test: nat, dma: nat, len: nat, page: bool)
    requires r.Valid() && !r.dword
    ensures Lens(Chop(r, test, dma, len, false, page)) == Blocks(len, r.max, r.sentinel)
    decreases len
  {
    if len == 0 {
    } else {
      hide Chunk, Chop, Blocks, Lens;
      var size := PlainChunk(r, test, len);
      ChopNext(r, test, dma, len, false, page);
      LensCons(Piece(dma, size, page), Chop(r, test + size, dma + size, len - size, false, page));
      ChopBlocks(r, test + size, dma + size, len - size, page);
      NextBlock(len, r.max, r.sentinel, size);
    }
  }

  lemma NoBlocks(max: nat, sentinel: bool)
    requires max > 0
    ensures Blocks(0, max, sentinel) == []
  {
  }

  lemma PlainChunk(r: Rules, test: nat, len: nat) returns (size: nat)
    requires r.Valid() && !r.dword && len > 0
    ensures size == Chunk(r, test, len, false)
    ensures size == if len > r.max then r.max else if r.sentinel && len > 8 then len - 4 else len
  {
    size := Chunk(r, test, len, false);
  }

  /** The first descriptor of the linear area: four bytes short when it is trimmed, four bytes short of
      an only block that leaves a sentinel, and never above the limit of PCI-X. */
  function FirstSize(hw: Hw, skb: Skb, lastTxTso: bool): nat {
    var max := MaxPerTxd(skb.gsoSize);
    var whole := if skb.headLen > max then max
                 else if skb.IsGso() && skb.frags == [] && skb.headLen > 8 then skb.headLen - 4 else skb.headLen;
    var trimmed := if TrimFirst(skb, lastTxTso) && whole >= 4 then whole - 4 else whole;
    if hw.pcix && trimmed > PCIX_FIRST_LIMIT then PCIX_FIRST_LIMIT else trimmed
  }

  lemma FirstChunk(hw: Hw, skb: Skb, lastTxTso: bool)
    requires Padded(skb) && skb.headLen > 0 && !hw.Pcix82544()
    ensures var r := HeadRules(hw, skb, lastTxTso);
            (r.trim ==> skb.headLen > 8)
            && Chunk(r, skb.headAddr, skb.headLen, true) == FirstSize(hw, skb, lastTxTso) > 0
  {
    hide Pow2, Fits, MaxTxdPwr, Bit2, MaxPerTxd;
    LimitShape(skb.gsoSize);
    HeadRulesFit(hw, skb, lastTxTso);
  }

  /** Without the dword rule the linear area is its first descriptor and the blocks of the rest. */
  lemma HeadBlocks(hw: Hw, skb: Skb, lastTxTso: bool)
    requires Padded(skb) && skb.headLen > 0 && !hw.Pcix82544()
    ensures var first := FirstSize(hw, skb, lastTxTso);
            && 0 < first <= skb.headLen
            && Lens(HeadPieces(hw, skb, lastTxTso))
               == [first] + Blocks(skb.headLen - first, MaxPerTxd(skb.gsoSize), skb.IsGso() && skb.frags == [])
  {
    hide Chunk, Chop, Blocks, FirstSize, Pow2, Fits;
    var r := HeadRules(hw, skb, lastTxTso);
    var size := Chunk(r, skb.headAddr, skb.headLen, true);
    HeadRulesFit(hw, skb, lastTxTso);
    FirstChunk(hw, skb, lastTxTso);
    ChopNext(r, skb.headAddr, skb.headAddr, skb.headLen, true, false);
    var rest := Chop(r, skb.headAddr + size, skb.headAddr + size, skb.headLen - size, false, false);
    LensCons(Piece(skb.headAddr, size, false), rest);
    ChopBlocks(r, skb.headAddr + size, skb.headAddr + size, skb.headLen - size, false);
  }

  // ----- The limit for the FIFO -----

  lemma {:induction false} TilesWithin(ps: seq<Piece>, dma: nat, len: nat, max: nat, page: bool, k: nat)
    requires Tiles(ps, dma, len, max, page) && k < |ps|
    ensures 1 <= ps[k].len <= max
  {
    if k == 0 {
    } else {
      TilesWithin(ps[1..], dma + ps[0].len, len - ps[0].len, max, page, k - 1);
    }
  }

  lemma {:induction false} FragsWithin(hw: Hw, mss: nat, frags: seq<Frag>, n: nat, k: nat)
    requires n <= |frags| && k < |FragPieces(hw, mss, frags, n)|
    ensures 1 <= FragPieces(hw, mss, frags, n)[k].len <= MaxPerTxd(mss)
  {
    if n == 0 {
    } else {
      var before, f := FragPieces(hw, mss, frags, n - 1), frags[n - 1];
      if k < |before| {
        FragsWithin(hw, mss, frags, n - 1, k);
      } else {
        ChopShape(FragRules(hw, mss, n == |frags|), f.page, f.page + f.pageOffset, f.size, false, true);
        TilesWithin(FragGroup(hw, mss, frags, n - 1), f.page + f.pageOffset, f.size, MaxPerTxd(mss), true,
                    k - |before|);
      }
    }
  }

  /** No descriptor of a segmentation packet makes more than four segments, and none has more than
      4096 bytes. */
  lemma FourSegments(hw: Hw, skb: Skb, lastTxTso: bool, k: nat)
    requires Padded(skb) && k < |Pieces(hw, skb, lastTxTso)|
    ensures var len := Pieces(hw, skb, lastTxTso)[k].len;
            1 <= len <= MAX_DATA_PER_TXD && (skb.IsGso() ==> (len + skb.gsoSize - 1) / skb.gsoSize <= 4)
  {
    var head := HeadPieces(hw, skb, lastTxTso);
    PiecesShape(hw, skb, lastTxTso);
    if k < |head| {
      TilesWithin(head, skb.headAddr, skb.headLen, MaxPerTxd(skb.gsoSize), false, k);
    } else {
      FragsWithin(hw, skb.gsoSize, skb.frags, |skb.frags|, k - |head|);
    }
    var len := Pieces(hw, skb, lastTxTso)[k].len;
    if skb.IsGso() { AtMostFour(len, skb.gsoSize); }
  }

  lemma AtMostFour(len: nat, mss: nat)
    requires mss > 0 && len <= 4 * mss
    ensures (len + mss - 1) / mss <= 4
  {
    var q, r := (len + mss - 1) / mss, (len + mss - 1) % mss;
    assert len + mss - 1 == mss * q + r;
    if q >= 5 { Step(mss, 4, q); }
  }

  // ----- The sentinel of a segmentation packet -----

  /** The last descriptor of a buffer with a sentinel has at most eight bytes. */
  lemma {:induction false} SentinelShort(r: Rules, test: nat, dma: nat, len: nat, first: bool, page: bool)
    requires r.Valid() && r.sentinel && len > 0 && !(r.trim && first)
    ensures var ps := Chop(r, test, dma, len, first, page);
            |ps| > 0 && ps[|ps| - 1].len <= 8
    decreases len
  {
    var size := Chunk(r, test, len, first);
    var rest := Chop(r, test + size, dma + size, len - size, false, page);
    ChopNext(r, test, dma, len, first, page);
    if size < len {
      hide Chunk, Chop;
      SentinelShort(r, test + size, dma + size, len - size, false, page);
    } else {
      WholeShort(r, test, len, first);
      assert rest == [];
    }
  }

  lemma BlocksLast(len: nat, max: nat, sentinel: bool)
    requires len > 0 && max > 0
    ensures var ls := Blocks(len, max, sentinel);
            |ls| > 0 && ls[|ls| - 1] == if sentinel && LastBlock(len, max) > 8 then 4 else LastBlock(len, max)
  {
  }

  /** A descriptor takes all that is left only of eight bytes or less. */
  lemma WholeShort(r: Rules, test: nat, len: nat, first: bool)
    requires r.Valid() && r.sentinel && len > 0 && !(r.trim && first)
    ensures Chunk(r, test, len, first) == len ==> len <= 8
  {
  }

  /** The last buffer of a packet is its last fragment, or its linear area if it has none. */
  predicate LastBufferUsed(skb: Skb) {
    if skb.frags == [] then skb.headLen > 0 else skb.frags[|skb.frags| - 1].size > 0
  }

  /** The last buffer's descriptors end the packet. */
  lemma EndsWith(hw: Hw, skb: Skb, lastTxTso: bool)
    requires Padded(skb)
    ensures var ps := Pieces(hw, skb, lastTxTso);
            if skb.frags == [] then ps == HeadPieces(hw, skb, lastTxTso)
            else var g := FragGroup(hw, skb.gsoSize, skb.frags, |skb.frags| - 1);
                 |g| <= |ps| && ps[|ps| - |g|..] == g
  {
  }

  /** A segmentation packet ends with a descriptor of at most eight bytes. */
  lemma SentinelAtEnd(hw: Hw, skb: Skb, lastTxTso: bool)
    requires Padded(skb) && skb.IsGso() && LastBufferUsed(skb)
    ensures var ps := Pieces(hw, skb, lastTxTso);
            |ps| > 0 && ps[|ps| - 1].len <= 8
  {
    hide Chop, Pieces, Pow2, Fits;
    EndsWith(hw, skb, lastTxTso);
    var f := |skb.frags| - 1;
    if skb.frags == [] {
      var r := HeadRules(hw, skb, lastTxTso);
      HeadRulesFit(hw, skb, lastTxTso);
      SentinelShort(r, skb.headAddr, skb.headAddr, skb.headLen, true, false);
    } else {
      SentinelShort(FragRules(hw, skb.gsoSize, true), skb.frags[f].page, skb.frags[f].page + skb.frags[f].pageOffset,
                    skb.frags[f].size, false, true);
    }
  }

  /** Without the dword rule it is a sentinel of exactly four bytes, unless the last block of the
      last buffer has no more than eight: then it is that block. On PCI-X the blocks of a linear
      area begin behind its first descriptor. */
  lemma SentinelExactly(hw: Hw, skb: Skb, lastTxTso: bool)
    requires Padded(skb) && skb.IsGso() && LastBufferUsed(skb) && !hw.Pcix82544()
    ensures var ps, max := Pieces(hw, skb, lastTxTso), MaxPerTxd(skb.gsoSize);
            && |ps| > 0 && ps[|ps| - 1].len == SentinelOf(hw, skb, lastTxTso)
            && (skb.frags == [] ==> ps[0].len == FirstSize(hw, skb, lastTxTso))
  {
    hide Chop, Pieces, Pow2, Fits, Blocks, FirstSize;
    var max := MaxPerTxd(skb.gsoSize);
    EndsWith(hw, skb, lastTxTso);
    if skb.frags == [] {
      var first := FirstSize(hw, skb, lastTxTso);
      HeadBlocks(hw, skb, lastTxTso);
      LeavesSome(hw, skb, lastTxTso);
      BlocksLast(skb.headLen - first, max, true);
      LastLen(HeadPieces(hw, skb, lastTxTso), first, Blocks(skb.headLen - first, max, true));
    } else {
      var f := |skb.frags| - 1;
      ChopBlocks(FragRules(hw, skb.gsoSize, true), skb.frags[f].page, skb.frags[f].page + skb.frags[f].pageOffset,
                 skb.frags[f].size, true);
      BlocksLast(skb.frags[f].size, max, true);
      var g := FragGroup(hw, skb.gsoSize, skb.frags, f);
      assert Lens(g)[|g| - 1] == g[|g| - 1].len;
    }
  }

  function SentinelOf(hw: Hw, skb: Skb, lastTxTso: bool): nat
    requires Padded(skb) && skb.IsGso() && LastBufferUsed(skb)
  {
    LimitShape(skb.gsoSize);
    var max, f := MaxPerTxd(skb.gsoSize), |skb.frags| - 1;
    LeavesSome(hw, skb, lastTxTso);
    var block := if skb.frags != [] then LastBlock(skb.frags[f].size, max)
                 else if hw.pcix then LastBlock(skb.headLen - FirstSize(hw, skb, lastTxTso), max)
                 else LastBlock(skb.headLen, max);
    if block > 8 then 4 else block
  }

  /** A linear area with a sentinel has more than its first descriptor, and without PCI-X the rest
      ends as the whole does. */
  lemma LeavesSome(hw: Hw, skb: Skb, lastTxTso: bool)
    requires Padded(skb) && skb.IsGso()
    ensures skb.frags == [] ==> FirstSize(hw, skb, lastTxTso) < skb.headLen
    ensures skb.frags == [] && !hw.pcix ==>
              && var max, rest := MaxPerTxd(skb.gsoSize), skb.headLen - FirstSize(hw, skb, lastTxTso);
                 max > 0 && (LastBlock(rest, max) == LastBlock(skb.headLen, max)
                             || (rest == 4 && LastBlock(rest, max) == 4 && LastBlock(skb.headLen, max) > 8))
  {
    var max := MaxPerTxd(skb.gsoSize);
    LimitShape(skb.gsoSize);
    if skb.frags == [] && !hw.pcix {
      if skb.headLen > max {
        BlockLess(skb.headLen, max);
      } else {
        Quotient(skb.headLen - 1, max, 0, skb.headLen - 1);
        Quotient(3, max, 0, 3);
      }
    }
  }

  lemma LastLen(ps: seq<Piece>, first: nat, rest: seq<nat>)
    requires Lens(ps) == [first] + rest && rest != []
    ensures ps[0].len == first && ps[|ps| - 1].len == rest[|rest| - 1]
  {
    assert Lens(ps)[|ps| - 1] == rest[|rest| - 1];
    assert Lens(ps)[0] == first;
  }

  // ----- The trim behind a segmentation packet -----

  /** A linear packet that is not segmented and follows a segmentation packet begins with a descriptor
      at least four bytes short of what it could take. Off PCI-X it is short by exactly that, and
      the first descriptor of any other packet that is not segmented is not short. */
  lemma TrimmedFirst(hw: Hw, skb: Skb, lastTxTso: bool)
    requires Padded(skb) && skb.headLen > 0 && !skb.IsGso()
    ensures var ps, whole := Pieces(hw, skb, lastTxTso), Min(skb.headLen, MAX_DATA_PER_TXD);
            && |ps| > 0
            && (lastTxTso && skb.DataLen() == 0 ==> ps[0].len <= whole - 4)
            && (!hw.pcix ==> ps[0].len == if lastTxTso && skb.DataLen() == 0 then whole - 4 else whole)
  {
    hide Pow2, Fits, Bit2;
    var r := HeadRules(hw, skb, lastTxTso);
    HeadRulesFit(hw, skb, lastTxTso);
    ChopNext(r, skb.headAddr, skb.headAddr, skb.headLen, true, false);
  }

  // ----- The alignment of fragments as the hardware sees it -----

  /** However a fragment at `off` in its page is sized and placed among others, none of its
      descriptors over four bytes ends in an evenly aligned dword of its DMA address. */
  ghost predicate AlwaysSafe(hw: Hw, mss: nat, page: nat, off: nat) {
    forall frags: seq<Frag>, f: nat | f < |frags| && frags[f].page == page && frags[f].pageOffset == off ::
      DwordSafe(FragGroup(hw, mss, frags, f), page + off)
  }

  lemma {:induction false} DwordSafeShift(ps: seq<Piece>, test: nat, d: nat)
    requires DwordSafe(ps, test) && d % 8 == 0
    ensures DwordSafe(ps, test + d)
  {
    if ps == [] {
    } else {
      DwordSafeShift(ps[1..], test + ps[0].len, d);
    }
  }

  lemma {:induction false} ShortPiecesSafe(ps: seq<Piece>, dma: nat, len: nat, page: bool, test: nat)
    requires Tiles(ps, dma, len, 4, page)
    ensures DwordSafe(ps, test)
  {
    if ps == [] {
    } else {
      ShortPiecesSafe(ps[1..], dma + ps[0].len, len - ps[0].len, page, test + ps[0].len);
    }
  }

  /** With a limit above four bytes, a fragment that starts in the middle of a quadword and ends
      where the test address is odd and the DMA address is even */
  lemma UnalignedFails(hw: Hw, mss: nat, page: nat, off: nat) returns (frags: seq<Frag>)
    requires hw.Pcix82544() && page % 8 == 0 && off % 8 != 0 && mss != 1
    ensures |frags| == 2 && frags[0].page == page && frags[0].pageOffset == off
    ensures !DwordSafe(FragGroup(hw, mss, frags, 0), page + off)
  {
    var size: nat := if off % 8 <= 4 then 8 else 5;
    frags := [Frag(page, off, size), Frag(page, 0, 1)];
    var r := FragRules(hw, mss, false);
    LimitAboveFour(mss);
    WholeChunk(r, page, off, size);
    var ps := FragGroup(hw, mss, frags, 0);
    hide Chunk, Bit2, FragRules;
    assert ps == Chop(r, page, page + off, size, false, true);
    assert ps[0].len == size;
  }

  lemma LimitAboveFour(mss: nat)
    requires mss != 1
    ensures MaxPerTxd(mss) >= 8
  {
  }

  lemma WholeChunk(r: Rules, page: nat, off: nat, size: nat)
    requires r.Valid() && r.max >= 8 && !r.trim && !r.sentinel && page % 8 == 0 && off % 8 != 0
    requires size == if off % 8 <= 4 then 8 else 5
    ensures Chunk(r, page, size, false) == size && !Bit2(page + off + size - 1)
  {
  }

  /** On a PCI-X 82544 every size of fragment is safe at its DMA address if and only if the fragment
      starts at a multiple of eight in its page, or segments are so small that no descriptor
      exceeds four bytes. */
  lemma FragmentAlignment(hw: Hw, mss: nat, page: nat, off: nat)
    requires hw.Pcix82544() && page % 8 == 0
    ensures AlwaysSafe(hw, mss, page, off) <==> off % 8 == 0 || mss == 1
  {
    if off % 8 == 0 || mss == 1 {
      forall frags: seq<Frag>, f: nat | f < |frags| && frags[f].page == page && frags[f].pageOffset == off
        ensures DwordSafe(FragGroup(hw, mss, frags, f), page + off)
      {
        ChopShape(FragRules(hw, mss, f == |frags| - 1), page, page + off, frags[f].size, false, true);
        if off % 8 == 0 {
          DwordSafeShift(FragGroup(hw, mss, frags, f), page, off);
        } else {
          ShortPiecesSafe(FragGroup(hw, mss, frags, f), page + off, frags[f].size, true, page + off);
        }
      }
    } else {
      var frags := UnalignedFails(hw, mss, page, off);
    }
  }

  /** Eight bytes at offset 4 of a page go out as one descriptor that ends in an even dword. */
  lemma UnalignedExample(hw: Hw)
    requires hw.Pcix82544()
    ensures FragGroup(hw, 0, [Frag(0x1000, 4, 8)], 0) == [Piece(0x1004, 8, true)]
    ensures !DwordSafe(FragGroup(hw, 0, [Frag(0x1000, 4, 8)], 0), 0x1004)
  {
    var r := FragRules(hw, 0, true);
    assert Chunk(r, 0x1000, 8, false) == 8;
    assert Chop(r, 0x1008, 0x100C, 0, false, true) == [];
    assert FragGroup(hw, 0, [Frag(0x1000, 4, 8)], 0) == [Piece(0x1004, 8, true)];
  }

  // ----- The reservation -----

  /** TXD_USE_COUNT */
  function UseCount(size: nat, pwr: nat): nat { Pow2AtLeast(pwr); size / Pow2(pwr) + 1 }

  function FragEstimate(mss: nat, frags: seq<Frag>, n: nat): nat
    requires n <= |frags|
  {
    if n == 0 then 0 else FragEstimate(mss, frags, n - 1) + UseCount(frags[n - 1].size, MaxTxdPwr(mss))
  }

  function Flag(b: bool): nat { if b then 1 else 0 }

  /** The descriptor count reserved for a packet whose linear area was `len` bytes long when
      its length was last read. */
  function Estimate(hw: Hw, skb: Skb, len: nat, lastTxTso: bool): nat {
    Flag(skb.NeedsContext()) + 1 + Flag(TrimFirst(skb, lastTxTso))
    + UseCount(len, MaxTxdPwr(skb.gsoSize)) + Flag(hw.Pcix82544()) + Flag(hw.pcix && len > PCIX_FIRST_LIMIT)
    + FragEstimate(skb.gsoSize, skb.frags, |skb.frags|) + (if hw.Pcix82544() then |skb.frags| else 0)
  }

  /** The descriptors a packet really takes: its context, if any, and its data. */
  function Used(hw: Hw, skb: Skb, lastTxTso: bool): nat
    requires Padded(skb)
  {
    Flag(skb.NeedsContext()) + |Pieces(hw, skb, lastTxTso)|
  }

  /** The rule set belongs to a limit `max` that splits by `pow` as LimitVersusPower says. */
  ghost predicate Fits(r: Rules, pow: nat) {
    && r.Valid() && 4 <= pow <= r.max
    && (r.max % 8 != 0 && r.max != 4 ==> r.max - 4 >= pow)
    && (r.trim ==> r.max == pow)
  }

  /** Room for `q` further blocks of `pow` bytes: `len / pow <= q`. */
  ghost predicate Within(len: nat, pow: nat, q: nat) { len < q * pow + pow }

  lemma WithinLess(len: nat, less: nat, pow: nat, q: nat)
    requires Within(len, pow, q) && len >= pow && less + pow <= len
    ensures q > 0 && Within(less, pow, q - 1)
  {
    if q > 0 { assert q * pow == (q - 1) * pow + pow; }
  }

  /** Without the dword rule, only the sentinel can add a descriptor. */
  lemma {:induction false} PlainCount(r: Rules, pow: nat, q: nat, test: nat, dma: nat, len: nat, page: bool)
    requires r.Valid() && 4 <= pow <= r.max && !r.dword && Within(len, pow, q)
    ensures |Chop(r, test, dma, len, false, page)| <= q + 1 + Flag(r.sentinel)
    decreases len
  {
    if len > r.max {
      assert Chunk(r, test, len, false) == r.max;
      WithinLess(len, len - r.max, pow, q);
      PlainCount(r, pow, q - 1, test + r.max, dma + r.max, len - r.max, page);
    } else {
      PlainShortCount(r, test, dma, len, page);
    }
  }

  lemma PlainShortCount(r: Rules, test: nat, dma: nat, len: nat, page: bool)
    requires r.Valid() && !r.dword && len <= r.max
    ensures |Chop(r, test, dma, len, false, page)| <= 1 + Flag(r.sentinel)
  {
    if len > 0 {
      var size := Chunk(r, test, len, false);
      if len - size == 4 {
        assert Chunk(r, test + size, 4, false) == 4;
      }
    }
  }

  /** What the first descriptor of a short buffer leaves is taken by the second. */
  lemma ShortChunk(r: Rules, test: nat, len: nat)
    requires r.Valid() && 0 < len <= r.max
    ensures var size := Chunk(r, test, len, false);
            && (len <= 4 ==> size == len)
            && (size < len ==> Chunk(r, test + size, len - size, false) == len - size)
  {
    var size := Chunk(r, test, len, false);
    if len - size == 8 {
      assert Chunk(r, test + size, 8, false) == 8;
    } else if len - size == 4 {
      assert Chunk(r, test + size, 4, false) == 4;
    }
  }

  /** A buffer within the limit takes at most two descriptors, or one if it is a dword. */
  lemma ShortCount(r: Rules, test: nat, dma: nat, len: nat, page: bool)
    requires r.Valid() && len <= r.max
    ensures |Chop(r, test, dma, len, false, page)| <= if len <= 4 then 1 else 2
  {
    if len > 0 {
      hide Chunk;
      ShortChunk(r, test, len);
      ChopNext(r, test, dma, len, false, page);
      var size := Chunk(r, test, len, false);
      if size < len { ChopNext(r, test + size, dma + size, len - size, false, page); }
    }
  }

  lemma Bit2Shift(x: nat, m: nat)
    requires m % 8 == 0
    ensures Bit2(x + m) == Bit2(x)
  {
    assert (x + m) % 8 == (x % 8 + m % 8) % 8;
  }

  /** A full-size chunk that starts just after an odd dword ends in one. */
  lemma AlignedChunk(r: Rules, test: nat, len: nat)
    requires r.Valid() && r.dword && r.max % 8 == 0 && Bit2(test + 7) && len > r.max
    ensures Chunk(r, test, len, false) == r.max
    ensures Bit2(test + r.max + 7)
  {
    Bit2Shift(test + 7, r.max - 8);
    Bit2Shift(test + 7, r.max);
  }

  /** A chunk of a longer buffer ends in an odd dword and is at most one dword short. */
  lemma AfterChunk(r: Rules, test: nat, len: nat)
    requires r.Valid() && r.dword && r.max > 4 && len > r.max
    ensures Bit2(test + Chunk(r, test, len, false) + 7)
    ensures Chunk(r, test, len, false) >= r.max - 4
  {
    var size := Chunk(r, test, len, false);
    assert size == if Bit2(test + r.max - 1) then r.max else r.max - 4;
    Bit2Flip(test + r.max - 1);
    Bit2Flip(test + r.max + 3);
  }

  lemma Bit2Flip(x: nat)
    ensures Bit2(x + 4) == !Bit2(x)
  {
  }

  /** With a limit that is a multiple of eight, chunks of full size keep the alignment, so a buffer
      that starts aligned takes no more than its share of blocks. */
  lemma {:induction false} AlignedCount(r: Rules, pow: nat, q: nat, test: nat, dma: nat, len: nat, page: bool)
    requires r.Valid() && r.dword && r.max % 8 == 0 && 4 <= pow <= r.max
    requires Bit2(test + 7)
    requires len <= q * pow + 4
    ensures |Chop(r, test, dma, len, false, page)| <= q + 1
    decreases len
  {
    if len > r.max {
      AlignedChunk(r, test, len);
      if q > 0 { assert q * pow == (q - 1) * pow + pow; }
      AlignedCount(r, pow, q - 1, test + r.max, dma + r.max, len - r.max, page);
    } else {
      ShortCount(r, test, dma, len, page);
    }
  }

  /** The bound for any alignment: one more than without the dword rule. */
  lemma {:induction false} DwordCount(r: Rules, pow: nat, q: nat, test: nat, dma: nat, len: nat, page: bool)
    requires Fits(r, pow) && r.dword && Within(len, pow, q)
    ensures |Chop(r, test, dma, len, false, page)| <= q + 2
    decreases len
  {
    if len <= r.max {
      ShortCount(r, test, dma, len, page);
    } else {
      var size := Chunk(r, test, len, false);
      if r.max % 8 == 0 {
        EvenLimitCount(r, pow, q, test, dma, len, page);
      } else {
        OddLimitChunk(r, pow, test, len);
        WithinLess(len, len - size, pow, q);
        DwordCount(r, pow, q - 1, test + size, dma + size, len - size, page);
      }
    }
  }

  lemma EvenLimitCount(r: Rules, pow: nat, q: nat, test: nat, dma: nat, len: nat, page: bool)
    requires Fits(r, pow) && r.dword && r.max % 8 == 0 && len > r.max && Within(len, pow, q)
    ensures |Chop(r, test, dma, len, false, page)| <= q + 2
  {
    var size := Chunk(r, test, len, false);
    AfterChunk(r, test, len);
    AlignedCount(r, pow, q, test + size, dma + size, len - size, page);
  }

  /** With any other limit, a non-final chunk has at least `pow` bytes even when shortened. */
  lemma OddLimitChunk(r: Rules, pow: nat, test: nat, len: nat)
    requires Fits(r, pow) && r.dword && r.max % 8 != 0 && len > r.max
    ensures Chunk(r, test, len, false) >= pow
  {
  }

  lemma OrdinaryFirst(r: Rules, test: nat, dma: nat, len: nat, page: bool)
    requires r.Valid() && !r.trim && !(r.pcix && len > PCIX_FIRST_LIMIT)
    ensures Chop(r, test, dma, len, true, page) == Chop(r, test, dma, len, false, page)
  {
  }

  /** The linear area, with the rules that apply to the first descriptor. */
  lemma HeadCount(r: Rules, pow: nat, q: nat, test: nat, dma: nat, len: nat, page: bool)
    requires Fits(r, pow) && (r.trim ==> len > 8) && (r.dword ==> r.pcix) && Within(len, pow, q)
    ensures |Chop(r, test, dma, len, true, page)|
         <= q + 1 + Flag(r.trim) + Flag(r.pcix && len > PCIX_FIRST_LIMIT)
            + (if r.dword then 2 else Flag(r.sentinel))
  {
    if len > 0 {
      hide Chunk, Chop;
      ChopNext(r, test, dma, len, true, page);
      var size := Chunk(r, test, len, true);
      var rest := len - size;
      if !(r.pcix && len > PCIX_FIRST_LIMIT) && !r.trim {
        OrdinaryFirst(r, test, dma, len, page);
        if r.dword {
          DwordCount(r, pow, q, test, dma, len, page);
        } else {
          PlainCount(r, pow, q, test, dma, len, page);
        }
      } else if r.dword {
        DwordCount(r, pow, q, test + size, dma + size, rest, page);
      } else {
        PlainCount(r, pow, q, test + size, dma + size, rest, page);
      }
    }
  }

  lemma {:induction false} FragCount(hw: Hw, mss: nat, frags: seq<Frag>, n: nat)
    requires n <= |frags|
    ensures |FragPieces(hw, mss, frags, n)|
         <= FragEstimate(mss, frags, n) + (if hw.Pcix82544() then n else Flag(mss != 0 && n > 0 && n == |frags|))
  {
    if n == 0 {
    } else {
      FragCount(hw, mss, frags, n - 1);
      GroupCount(hw, mss, frags, n - 1);
    }
  }

  lemma WithinQuotient(len: nat, pow: nat)
    requires pow > 0
    ensures Within(len, pow, len / pow)
  {
    assert len == pow * (len / pow) + len % pow;
  }

  /** The estimate counts whole blocks of the power of two, and one more. */
  lemma EstimateBlocks(len: nat, pwr: nat)
    ensures Pow2(pwr) > 0 && UseCount(len, pwr) == len / Pow2(pwr) + 1 && Within(len, Pow2(pwr), len / Pow2(pwr))
  {
    hide Within;
    Pow2AtLeast(pwr);
    WithinQuotient(len, Pow2(pwr));
  }

  lemma FragRulesFit(hw: Hw, mss: nat, last: bool)
    ensures Fits(FragRules(hw, mss, last), Pow2(MaxTxdPwr(mss)))
    ensures FragRules(hw, mss, last).dword == hw.Pcix82544() && FragRules(hw, mss, last).sentinel == (mss != 0 && last)
  {
    hide Pow2, MaxTxdPwr;
    LimitVersusPower(mss);
  }

  lemma GroupCount(hw: Hw, mss: nat, frags: seq<Frag>, f: nat)
    requires f < |frags|
    ensures |FragGroup(hw, mss, frags, f)|
         <= UseCount(frags[f].size, MaxTxdPwr(mss)) + (if hw.Pcix82544() then 1 else Flag(mss != 0 && f == |frags| - 1))
  {
    hide Chop, Pow2, MaxPerTxd, MaxTxdPwr, Within, UseCount, FragRules;
    var r := FragRules(hw, mss, f == |frags| - 1);
    var pow := Pow2(MaxTxdPwr(mss));
    var frag := frags[f];
    FragRulesFit(hw, mss, f == |frags| - 1);
    EstimateBlocks(frag.size, MaxTxdPwr(mss));
    if hw.Pcix82544() {
      DwordCount(r, pow, frag.size / pow, frag.page, frag.page + frag.pageOffset, frag.size, true);
    } else {
      PlainCount(r, pow, frag.size / pow, frag.page, frag.page + frag.pageOffset, frag.size, true);
    }
  }

  lemma HeadRulesFit(hw: Hw, skb: Skb, lastTxTso: bool)
    ensures var r := HeadRules(hw, skb, lastTxTso);
      && Fits(r, Pow2(MaxTxdPwr(skb.gsoSize))) && r.trim == TrimFirst(skb, lastTxTso)
      && r.sentinel == (skb.IsGso() && skb.frags == []) && r.pcix == hw.pcix && r.dword == hw.Pcix82544()
  {
    hide Pow2, MaxTxdPwr;
    LimitVersusPower(skb.gsoSize);
  }

  lemma HeadEstimate(hw: Hw, skb: Skb, lastTxTso: bool)
    requires Padded(skb)
    ensures |HeadPieces(hw, skb, lastTxTso)|
         <= UseCount(skb.headLen, MaxTxdPwr(skb.gsoSize)) + Flag(TrimFirst(skb, lastTxTso))
            + Flag(hw.pcix && skb.headLen > PCIX_FIRST_LIMIT)
            + (if hw.Pcix82544() then 2 else Flag(skb.IsGso() && skb.frags == []))
  {
    hide Chop, Pow2, MaxTxdPwr, Within, HeadRules, Fits, UseCount;
    var r := HeadRules(hw, skb, lastTxTso);
    var pow := Pow2(MaxTxdPwr(skb.gsoSize));
    HeadRulesFit(hw, skb, lastTxTso);
    EstimateBlocks(skb.headLen, MaxTxdPwr(skb.gsoSize));
    HeadCount(r, pow, skb.headLen / pow, skb.headAddr, skb.headAddr, skb.headLen, false);
  }

  /** Fragments of whole pages are counted twice each. */
  lemma {:induction false} PagesEstimate(frags: seq<Frag>, n: nat)
    requires n <= |frags| && forall i :: 0 <= i < |frags| ==> frags[i].size == 4096
    ensures FragEstimate(0, frags, n) == 2 * n
  {
    PowValues();
    if n == 0 {
    } else {
      PagesEstimate(frags, n - 1);
    }
  }

  /** A queue that is left running has room for MAX_SKB_FRAGS + 2 slots: 19. A packet of seventeen whole
      pages behind its headers asks for 38. */
  lemma LargeEstimate(frags: seq<Frag>)
    requires |frags| == 17 && forall i :: 0 <= i < |frags| ==> frags[i].size == 4096
    ensures Estimate(Hw(false, false), Skb(0, 0, 100, frags, 0, false), 100, false) + 2 == 38
  {
    var skb := Skb(0, 0, 100, frags, 0, false);
    assert TotalSize(frags) >= frags[0].size;
    PagesEstimate(frags, 17);
    PowValues();
  }

  /** The reservation covers every packet whose length did not change after it was read. */
  lemma EstimateCovers(hw: Hw, skb: Skb, lastTxTso: bool)
    requires Padded(skb)
    ensures Used(hw, skb, lastTxTso) <= Estimate(hw, skb, skb.headLen, lastTxTso)
  {
    HeadEstimate(hw, skb, lastTxTso);
    FragCount(hw, skb.gsoSize, skb.frags, |skb.frags|);
  }

  // ----- Padding and pulling -----

  /** Dropping the first `n` bytes of a fragment list. */
  function Eat(frags: seq<Frag>, n: nat): seq<Frag> {
    if frags == [] then [] else
    if frags[0].size <= n then Eat(frags[1..], n - frags[0].size)
    else [frags[0].(pageOffset := frags[0].pageOffset + n, size := frags[0].size - n)] + frags[1..]
  }

  lemma {:induction false} EatTotal(frags: seq<Frag>, n: nat)
    requires n <= TotalSize(frags)
    ensures TotalSize(Eat(frags, n)) == TotalSize(frags) - n
  {
    if frags == [] {
    } else {
      if frags[0].size <= n {
        EatTotal(frags[1..], n - frags[0].size);
      } else {
        assert Eat(frags, n)[1..] == frags[1..];
      }
    }
  }

  /** A packet as it will be mapped, with the linear length that the reservation uses. */
  datatype Prepared = Prepared(skb: Skb, len: nat)

  /** A short packet is padded and made linear, but `len` was read before; an 82544 TSO packet
      whose headers fill the linear area up to an even dword has up to four bytes pulled in.
      `newHead` is where the linear area lies if it had to move. */
  function Prepare(hw: Hw, skb: Skb, hdrLen: nat, newHead: nat): (p: Prepared)
    ensures Padded(p.skb) && p.skb.gsoSize == skb.gsoSize && p.skb.id == skb.id
    ensures skb.Len() >= ETH_ZLEN ==> p.len == p.skb.headLen && p.skb.Len() == skb.Len()
    ensures skb.headLen > 0 ==> p.skb.headLen > 0
    ensures skb.Len() < ETH_ZLEN ==> p.skb.Len() == ETH_ZLEN
  {
    if skb.Len() < ETH_ZLEN then
      Prepared(skb.(headAddr := newHead, headLen := ETH_ZLEN, frags := []), skb.headLen)
    else if skb.IsGso() && skb.DataLen() > 0 && hdrLen == skb.headLen && hw.mac82544
            && !Bit2(skb.headAddr + skb.headLen + 7) then
      var n := Min(4, skb.DataLen());
      EatTotal(skb.frags, n);
      Prepared(skb.(headAddr := newHead, headLen := skb.headLen + n, frags := Eat(skb.frags, n)), skb.headLen + n)
    else
      Prepared(skb, skb.headLen)
  }

  /** Pulling is for the headers of an 82544: where they fill the linear area of a segmentation packet,
      with more than four bytes of data behind, its first descriptor holds them whole, also when it
      loses four bytes on PCI-X. The moved linear area may lie anywhere. */
  lemma HeaderStaysWhole(hw: Hw, skb: Skb, hdrLen: nat, newHead: nat, lastTxTso: bool)
    requires skb.Len() >= ETH_ZLEN && skb.IsGso() && hw.mac82544 && hdrLen == skb.headLen > 0 && skb.DataLen() > 4
    requires hdrLen + 4 <= Min(MaxPerTxd(skb.gsoSize), PCIX_FIRST_LIMIT)
    ensures var ps := Pieces(hw, Prepare(hw, skb, hdrLen, newHead).skb, lastTxTso);
            |ps| > 0 && ps[0].len >= hdrLen
  {
    hide Pow2, Fits, MaxTxdPwr, Eat;
    var p := Prepare(hw, skb, hdrLen, newHead).skb;
    EatTotal(skb.frags, 4);
    assert p.frags != [];
    var r := HeadRules(hw, p, lastTxTso);
    HeadRulesFit(hw, p, lastTxTso);
    ChopNext(r, p.headAddr, p.headAddr, p.headLen, true, false);
    assert p.headLen == hdrLen ==> Bit2(p.headAddr + p.headLen + 7);
    Bit2Shift(p.headAddr + p.headLen - 1, 8);
  }

  /** The smallest linear area for which a padded segmentation packet is always covered. */
  const PADDED_GSO_MIN := 52

  /** The reservation covers every packet as prepared, except a segmentation packet that was
      shorter than the Ethernet minimum and had less than 52 bytes of linear data. */
  lemma ReservationCovers(hw: Hw, skb: Skb, hdrLen: nat, newHead: nat, lastTxTso: bool)
    requires skb.Len() < ETH_ZLEN && skb.IsGso() ==> skb.headLen >= PADDED_GSO_MIN
    ensures var p := Prepare(hw, skb, hdrLen, newHead);
            Used(hw, p.skb, lastTxTso) <= Estimate(hw, p.skb, p.len, lastTxTso)
  {
    var p := Prepare(hw, skb, hdrLen, newHead);
    EstimateCovers(hw, p.skb, lastTxTso);
    if skb.Len() < ETH_ZLEN {
      PaddedCovers(hw, p.skb, p.len, lastTxTso);
    }
  }

  ghost predicate PadShape(skb: Skb) { skb.headLen == ETH_ZLEN && skb.frags == [] }

  /** A padded packet takes few slots, whatever its segment size. */
  lemma PaddedFitsRing(hw: Hw, skb: Skb, lastTxTso: bool)
    requires PadShape(skb)
    ensures Padded(skb) && Used(hw, skb, lastTxTso) <= 21
  {
    var r, pow := HeadRules(hw, skb, lastTxTso), Pow2(MaxTxdPwr(skb.gsoSize));
    HeadRulesFit(hw, skb, lastTxTso);
    LimitVersusPower(skb.gsoSize);
    SmallWithin(pow);
    HeadCount(r, pow, 15, skb.headAddr, skb.headAddr, ETH_ZLEN, false);
    assert FragPieces(hw, skb.gsoSize, skb.frags, 0) == [];
  }

  lemma SmallWithin(pow: nat)
    requires pow >= 4
    ensures Within(ETH_ZLEN, pow, 15)
  {
    assert 15 * pow >= 60;
  }

  /** The quotient by the power of two, which is all the reservation sees of the length. */
  lemma SmallPowers(mss: nat)
    requires mss != 0
    ensures Pow2(MaxTxdPwr(mss)) in {4, 8, 16, 32} || Pow2(MaxTxdPwr(mss)) >= 64
    ensures Pow2(MaxTxdPwr(mss)) == 4 ==> MaxPerTxd(mss) == 4
    ensures Pow2(MaxTxdPwr(mss)) == 8 ==> MaxPerTxd(mss) in {8, 12}
  {
    LimitVersusPower(mss);
    var k := MaxTxdPwr(mss);
    FlsBounds(MaxPerTxd(mss));
    Doubling(k);
    assert Pow2(0) == 1 && Pow2(1) == 2 && Pow2(2) == 4 && Pow2(3) == 8;
    assert Pow2(4) == 16 && Pow2(5) == 32;
    if k >= 6 { Pow2Grows(k); }
  }

  lemma {:induction false} Pow2Grows(n: nat)
    requires n >= 6
    ensures Pow2(n) >= 64
  {
    if n == 6 {
      assert Pow2(5) == 32;
    } else {
      Pow2Grows(n - 1);
    }
  }

  lemma PaddedCovers(hw: Hw, skb: Skb, len: nat, lastTxTso: bool)
    requires PadShape(skb) && len < ETH_ZLEN && (skb.IsGso() ==> len >= PADDED_GSO_MIN)
    ensures Used(hw, skb, lastTxTso) <= Estimate(hw, skb, len, lastTxTso)
  {
    var pow := Pow2(MaxTxdPwr(skb.gsoSize));
    if skb.IsGso() { SmallPowers(skb.gsoSize); }
    if pow == 4 {
      PaddedFour(hw, skb, len, lastTxTso);
    } else if pow == 8 {
      PaddedEight(hw, skb, len, lastTxTso);
    } else {
      SameUseCount(skb.gsoSize, len);
      EstimateCovers(hw, skb, lastTxTso);
    }
  }

  /** From 16 bytes up, 52 to 60 bytes make the same count. */
  lemma SameUseCount(mss: nat, len: nat)
    requires len < ETH_ZLEN
    requires if mss == 0 then true else len >= PADDED_GSO_MIN && Pow2(MaxTxdPwr(mss)) !in {4, 8}
    ensures UseCount(len, MaxTxdPwr(mss)) == UseCount(ETH_ZLEN, MaxTxdPwr(mss))
  {
    if mss == 0 { PowValues(); } else { SmallPowers(mss); }
    var pow := Pow2(MaxTxdPwr(mss));
    if pow >= 64 { SmallQuotient(len, pow); SmallQuotient(ETH_ZLEN, pow); }
  }

  lemma SmallQuotient(x: nat, p: nat)
    requires x < p
    ensures x / p == 0
  {
  }

  lemma PaddedFour(hw: Hw, skb: Skb, len: nat, lastTxTso: bool)
    requires PadShape(skb) && PADDED_GSO_MIN <= len < ETH_ZLEN
    requires skb.IsGso() && Pow2(MaxTxdPwr(skb.gsoSize)) == 4 && MaxPerTxd(skb.gsoSize) == 4
    ensures Used(hw, skb, lastTxTso) <= Estimate(hw, skb, len, lastTxTso)
  {
    DwordChop(HeadRules(hw, skb, lastTxTso), skb.headAddr, skb.headAddr, ETH_ZLEN, true, false);
    assert FragPieces(hw, skb.gsoSize, skb.frags, 0) == [];
  }

  /** With a limit of four bytes every descriptor is a dword. */
  lemma {:induction false} DwordChop(r: Rules, test: nat, dma: nat, len: nat, first: bool, page: bool)
    requires r.Valid() && r.max == 4 && !r.trim
    ensures |Chop(r, test, dma, len, first, page)| == (len + 3) / 4
    decreases len
  {
    if len == 0 {
    } else {
      var size := Chunk(r, test, len, first);
      assert size == Min(len, 4);
      DwordChop(r, test + size, dma + size, len - size, false, page);
    }
  }

  lemma PaddedEight(hw: Hw, skb: Skb, len: nat, lastTxTso: bool)
    requires PadShape(skb) && PADDED_GSO_MIN <= len < ETH_ZLEN
    requires skb.IsGso() && Pow2(MaxTxdPwr(skb.gsoSize)) == 8 && MaxPerTxd(skb.gsoSize) in {8, 12}
    ensures Used(hw, skb, lastTxTso) <= Estimate(hw, skb, len, lastTxTso)
  {
    var r := HeadRules(hw, skb, lastTxTso);
    OrdinaryFirst(r, skb.headAddr, skb.headAddr, ETH_ZLEN, false);
    EightCount(r, skb.headAddr);
    assert FragPieces(hw, skb.gsoSize, skb.frags, 0) == [];
  }

  lemma EightCount(r: Rules, addr: nat)
    requires r.Valid() && r.max in {8, 12}
    ensures |Chop(r, addr, addr, ETH_ZLEN, false, false)| <= if r.dword then 9 else 8
  {
    if r.dword {
      DwordCount(r, 8, 7, addr, addr, ETH_ZLEN, false);
    } else if r.max == 8 {
      NoSentinel(r, addr, addr, ETH_ZLEN, false);
      PlainCount(r.(sentinel := false), 8, 7, addr, addr, ETH_ZLEN, false);
    } else {
      PlainCount(r, 12, 5, addr, addr, ETH_ZLEN, false);
    }
  }

  /** A limit of eight bytes never calls for the sentinel. */
  lemma {:induction false} NoSentinel(r: Rules, test: nat, dma: nat, len: nat, page: bool)
    requires r.Valid() && r.max <= 8
    ensures Chop(r, test, dma, len, false, page) == Chop(r.(sentinel := false), test, dma, len, false, page)
    decreases len
  {
    if len == 0 {
    } else {
      hide Chunk;
      SameChunk(r, test, len);
      var size := Chunk(r, test, len, false);
      NoSentinel(r, test + size, dma + size, len - size, page);
      ChopNext(r, test, dma, len, false, page);
      ChopNext(r.(sentinel := false), test, dma, len, false, page);
    }
  }

  lemma SameChunk(r: Rules, test: nat, len: nat)
    requires r.Valid() && r.max <= 8 && len > 0
    ensures var plain := r.(sentinel := false);
            plain.Valid() && Chunk(r, test, len, false) == Chunk(plain, test, len, false)
  {
    hide Bit2;
  }

  /** The packet that is not covered: segments of one byte need fifteen four-byte descriptors. */
  lemma PaddedFails(len: nat)
    requires len < PADDED_GSO_MIN
    ensures var hw, skb := Hw(false, false), Skb(0, 0, ETH_ZLEN, [], 1, false);
            Used(hw, skb, false) > Estimate(hw, skb, len, false)
  {
    var hw, skb := Hw(false, false), Skb(0, 0, ETH_ZLEN, [], 1, false);
    var r := HeadRules(hw, skb, false);
    DwordChop(r, 0, 0, 60, true, false);
    LimitVersusPower(1);
    assert FragPieces(hw, 1, [], 0) == [] && FragEstimate(1, [], 0) == 0;
  }

  /** Exactly when a padded packet is covered whatever its segment size, address and bus: its
      linear area had at least 52 bytes before the padding. */
  lemma PaddedCoversExactly(len: nat)
    requires len < ETH_ZLEN
    ensures (forall hw: Hw, skb: Skb, lastTxTso: bool {:trigger Used(hw, skb, lastTxTso)} ::
               PadShape(skb) ==> Used(hw, skb, lastTxTso) <= Estimate(hw, skb, len, lastTxTso))
            <==> len >= PADDED_GSO_MIN
  {
    if len >= PADDED_GSO_MIN {
      forall hw: Hw, skb: Skb, lastTxTso: bool | PadShape(skb)
        ensures Used(hw, skb, lastTxTso) <= Estimate(hw, skb, len, lastTxTso)
      {
        PaddedCovers(hw, skb, len, lastTxTso);
      }
    } else {
      PaddedFails(len);
      assert PadShape(Skb(0, 0, ETH_ZLEN, [], 1, false));
    }
  }
}
