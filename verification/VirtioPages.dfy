/** The pages of big receive buffers in virtio-net, linked through their private field: they move
    between the pool of a queue, the chains posted to the device and the fragments of packets.
    Every allocation may fail. */
module VirtioPages {
  const PAGE_SIZE := 4096
  const MAX_SKB_FRAGS := 17
  /** A posted buffer is a chain of this many pages. */
  const CHAIN_PAGES := MAX_SKB_FRAGS + 1
  const HDR_LEN := 10
  const PADDED_HDR_LEN := 16
  const ETH_HLEN := 14

  class Page {
    /** The private field */
    var next: Page?
    /** Of a page that belongs to a queue: the head of the posted chain it is in, if any */
    ghost var owner: Page?

    constructor ()
      ensures next == null
    {
      next := null;
    }
  }

  /** So many bytes from an offset in a page on */
  datatype Frag = Frag(page: Page, offset: nat, size: nat)

  /** A packet: what was copied into it, the rest in fragments */
  datatype Skb = NoSkb | Skb(copied: Frag, frags: seq<Frag>)

  ghost function Head(s: seq<Page>): Page? { if s == [] then null else s[0] }

  ghost predicate LinkAt(s: seq<Page>, i: nat, after: Page?)
    requires i < |s|
    reads s`next
  {
    s[i].next == if i + 1 < |s| then s[i + 1] else after
  }

  /** The pages of `s` are linked one to the next and the last to `after`; no page comes twice. */
  ghost predicate Leads(s: seq<Page>, after: Page?)
    reads s`next
  {
    && (forall i {:trigger LinkAt(s, i, after)} :: 0 <= i < |s| ==> LinkAt(s, i, after))
    && forall i, j :: 0 <= i < j < |s| ==> s[i] != s[j]
  }

  ghost predicate Chain(s: seq<Page>)
    reads s`next
  {
    Leads(s, null)
  }

  ghost function SetOf(s: seq<Page>): set<Page> { set p | p in s }

  lemma Follow(s: seq<Page>, after: Page?, i: nat)
    requires Leads(s, after) && i < |s|
    ensures s[i].next == if i + 1 < |s| then s[i + 1] else after
  {
    assert LinkAt(s, i, after);
  }

  lemma Cut(s: seq<Page>, k: nat)
    requires Chain(s) && k <= |s|
    ensures Chain(s[k..]) && SetOf(s) == SetOf(s[..k]) + SetOf(s[k..]) && SetOf(s[..k]) !! SetOf(s[k..])
  {
    var t := s[k..];
    forall i | 0 <= i < |t|
      ensures LinkAt(t, i, null)
    {
      assert LinkAt(s, k + i, null);
    }
    assert s == s[..k] + s[k..];
  }

  lemma Join(s: seq<Page>, t: seq<Page>)
    requires Leads(s, Head(t)) && Chain(t) && SetOf(s) !! SetOf(t)
    ensures Chain(s + t) && SetOf(s + t) == SetOf(s) + SetOf(t)
  {
    var st := s + t;
    forall i | 0 <= i < |st|
      ensures LinkAt(st, i, null)
    {
      if i < |s| { assert LinkAt(s, i, Head(t)); } else { assert LinkAt(t, i - |s|, null); }
    }
    forall i, j | 0 <= i < j < |st|
      ensures st[i] != st[j]
    {
      if i < |s| <= j { assert st[i] in SetOf(s) && st[j] in SetOf(t); }
    }
  }

  lemma Prepend(p: Page, s: seq<Page>)
    requires Chain(s) && p !in s && p.next == Head(s)
    ensures Chain([p] + s) && SetOf([p] + s) == {p} + SetOf(s)
  {
    var ps := [p] + s;
    forall i | 0 <= i < |ps|
      ensures LinkAt(ps, i, null)
    {
      if i > 0 { assert LinkAt(s, i - 1, null); }
    }
  }

  /** The last page of a chain, by walking it. */
  method EndOf(page: Page, ghost chain: seq<Page>) returns (end: Page)
    requires chain != [] && page == chain[0] && Chain(chain)
    ensures end == chain[|chain| - 1]
  {
    end := page;
    ghost var k := 0;
    Follow(chain, null, 0);
    while end.next != null
      invariant k < |chain| && end == chain[k] && (end.next == null <==> k == |chain| - 1)
      modifies {}
      decreases |chain| - k
    {
      Follow(chain, null, k);
      end := end.next;
      k := k + 1;
      Follow(chain, null, k);
    }
  }

  method Sew(end: Page, after: Page?, ghost chain: seq<Page>)
    requires chain != [] && end == chain[|chain| - 1] && Chain(chain)
    modifies end`next
    ensures Leads(chain, after)
  {
    forall i | 0 <= i < |chain|
      ensures chain[i].next == if i + 1 < |chain| then chain[i + 1] else null
    {
      Follow(chain, null, i);
    }
    end.next := after;
  }

  ghost predicate Pooled(pool: seq<Page>)
    reads pool
  {
    Chain(pool) && forall p :: p in pool ==> p.owner == null
  }

  ghost function PagesOf(posted: map<Page, seq<Page>>): set<Page> { set h, p | h in posted && p in posted[h] :: p }

  /** Each posted chain has all its pages, is linked and starts with the page that names it. */
  ghost predicate PostedOk(posted: map<Page, seq<Page>>)
    reads PagesOf(posted)
  {
    forall h :: h in posted ==>
      && |posted[h]| == CHAIN_PAGES && posted[h][0] == h
      && (forall p :: p in posted[h] ==> p in PagesOf(posted) && p.owner == h) && Chain(posted[h])
  }

  lemma Names(m: map<Page, seq<Page>>, h: Page, chain: seq<Page>)
    requires h !in m
    ensures PagesOf(m[h := chain]) == PagesOf(m) + SetOf(chain)
  {
    var m' := m[h := chain];
    forall p
      ensures p in PagesOf(m') <==> p in PagesOf(m) + SetOf(chain)
    {
      if p in PagesOf(m) {
        var k: Page :| k in m && p in m[k];
        assert k in m' && p in m'[k];
      }
      if p in SetOf(chain) { assert h in m' && p in m'[h]; }
    }
  }

  lemma HeadsPosted(m: map<Page, seq<Page>>)
    requires PostedOk(m)
    ensures forall h :: h in m ==> h in PagesOf(m)
  {
    forall h | h in m
      ensures h in PagesOf(m)
    {
      assert m[h][0] in m[h];
    }
  }

  lemma PostOne(m: map<Page, seq<Page>>, h: Page, chain: seq<Page>)
    requires PostedOk(m) && h !in m && |chain| == CHAIN_PAGES && chain[0] == h && Chain(chain)
    requires forall p :: p in chain ==> p.owner == h
    ensures PostedOk(m[h := chain])
  {
    Names(m, h, chain);
  }

  // ----- Fragments -----

  /** What the fragments of a packet must be: `rest` bytes, from byte `offset` of the first page of
      a chain on, each page used up before the next. */
  predicate Tiles(frags: seq<Frag>, chain: seq<Page>, offset: nat, rest: nat) {
    && |frags| <= |chain| && Total(frags) == rest
    && forall k :: 0 <= k < |frags| ==>
         && frags[k].page == chain[k] && frags[k].offset == (if k == 0 then offset else 0)
         && 0 < frags[k].size <= PAGE_SIZE - frags[k].offset
         && (k + 1 < |frags| ==> frags[k].size == PAGE_SIZE - frags[k].offset)
  }

  function Total(frags: seq<Frag>): nat {
    if frags == [] then 0 else Total(frags[..|frags| - 1]) + frags[|frags| - 1].size
  }

  /** Tiling determines how many pages are used. */
  lemma {:induction false} PagesUsed(frags: seq<Frag>, chain: seq<Page>, offset: nat, rest: nat)
    requires Tiles(frags, chain, offset, rest) && offset < PAGE_SIZE && frags != []
    ensures PAGE_SIZE * (|frags| - 1) < offset + rest <= PAGE_SIZE * |frags|
    ensures |frags| > 1 ==> frags[|frags| - 1].size == offset + rest - PAGE_SIZE * (|frags| - 1)
  {
    var n := |frags| - 1;
    if n > 0 {
      var init := frags[..n];
      PagesUsed(init, chain, offset, Total(init));
    } else {
      assert Total(frags[..0]) == 0;
    }
  }

  /** The packet of `len` bytes with its header that arrived on `chain`, when a fresh packet has room
      for `tailroom` bytes */
  ghost predicate PacketOf(skb: Skb, chain: seq<Page>, len: nat, tailroom: nat)
    requires skb.Skb? && len >= HDR_LEN
  {
    && chain != []
    && skb.copied == Frag(chain[0], PADDED_HDR_LEN, if len - HDR_LEN > tailroom then tailroom else len - HDR_LEN)
    && Tiles(skb.frags, chain, PADDED_HDR_LEN + skb.copied.size, len - HDR_LEN - skb.copied.size)
  }

  /** A length is dropped when what is not copied exceeds MAX_SKB_FRAGS pages. */
  predicate TooMuch(len: nat, tailroom: nat) { len > HDR_LEN + tailroom + MAX_SKB_FRAGS * PAGE_SIZE }

  // ----- Where the bytes lie -----

  /** The place of byte `n` of these ranges */
  ghost function At(ranges: seq<Frag>, n: nat): (Page, nat)
    requires n < Total(ranges)
  {
    var k := |ranges| - 1;
    var before := Total(ranges[..k]);
    if n < before then At(ranges[..k], n) else (ranges[k].page, ranges[k].offset + n - before)
  }

  /** The ranges the device is given to write to: the header on its own, then the pages in order */
  ghost predicate ListOf(sg: seq<Frag>, chain: seq<Page>) {
    && |chain| == CHAIN_PAGES && |sg| == CHAIN_PAGES + 1 && sg[0] == Frag(chain[0], 0, HDR_LEN)
    && forall k :: 0 <= k < CHAIN_PAGES ==>
         var offset := if k == 0 then PADDED_HDR_LEN else 0;
         sg[k + 1] == Frag(chain[k], offset, PAGE_SIZE - offset)
  }

  /** The ranges of whole pages */
  ghost predicate Pages(sg: seq<Frag>, chain: seq<Page>) {
    |sg| == |chain| && forall k :: 0 <= k < |sg| ==> sg[k] == Frag(chain[k], 0, PAGE_SIZE)
  }

  lemma OnePage(sg: seq<Frag>, chain: seq<Page>, first: Page)
    requires Pages(sg, chain)
    ensures Pages([Frag(first, 0, PAGE_SIZE)] + sg, [first] + chain)
    ensures |chain| + 1 == CHAIN_PAGES ==>
              ListOf([Frag(first, 0, HDR_LEN), Frag(first, PADDED_HDR_LEN, PAGE_SIZE - PADDED_HDR_LEN)] + sg,
                     [first] + chain)
  {
  }

  lemma {:induction false} TilesAt(frags: seq<Frag>, chain: seq<Page>, offset: nat, rest: nat, n: nat)
    requires Tiles(frags, chain, offset, rest) && offset < PAGE_SIZE && n < rest
    ensures (offset + n) / PAGE_SIZE < |chain|
    ensures At(frags, n) == (chain[(offset + n) / PAGE_SIZE], (offset + n) % PAGE_SIZE)
  {
    var k := |frags| - 1;
    var init := frags[..k];
    if n < Total(init) {
      TilesAt(init, chain, offset, Total(init), n);
    } else if k > 0 {
      PagesUsed(init, chain, offset, Total(init));
    }
  }

  lemma {:induction false} AtBehind(h: Frag, t: seq<Frag>, n: nat)
    requires n < h.size + Total(t)
    ensures Total([h] + t) == h.size + Total(t)
    ensures At([h] + t, n) == if n < h.size then (h.page, h.offset + n) else At(t, n - h.size)
  {
    var all := [h] + t;
    if t == [] {
      assert all[..0] == [];
    } else {
      var k := |t| - 1;
      assert all[..k + 1] == [h] + t[..k];
      if n < h.size + Total(t[..k]) {
        AtBehind(h, t[..k], n);
      } else if h.size + Total(t[..k]) > 0 {
        AtBehind(h, t[..k], 0);
      } else {
        NoBytes(h, t[..k]);
      }
    }
  }

  lemma {:induction false} NoBytes(h: Frag, t: seq<Frag>)
    requires h.size + Total(t) == 0
    ensures Total([h] + t) == 0
  {
    var all := [h] + t;
    if t == [] {
      assert all[..0] == [];
    } else {
      assert all[..|t|] == [h] + t[..|t| - 1];
      NoBytes(h, t[..|t| - 1]);
    }
  }

  lemma {:induction false} ListTiles(sg: seq<Frag>, chain: seq<Page>, n: nat)
    requires ListOf(sg, chain) && n <= CHAIN_PAGES
    ensures Tiles(sg[1..n + 1], chain, PADDED_HDR_LEN, if n == 0 then 0 else n * PAGE_SIZE - PADDED_HDR_LEN)
  {
    if n == 0 {
    } else {
      ListTiles(sg, chain, n - 1);
      var t, init := sg[1..n + 1], sg[1..n];
      assert t[..n - 1] == init;
      assert forall k :: 0 <= k < n ==>
        t[k] == sg[k + 1] == Frag(chain[k], if k == 0 then PADDED_HDR_LEN else 0, t[k].size)
        && t[k].size == PAGE_SIZE - t[k].offset;
      assert Total(t) == Total(init) + t[n - 1].size;
    }
  }

  /** Byte `n` behind the header, as the device writes it */
  lemma ListAt(sg: seq<Frag>, chain: seq<Page>, n: nat)
    requires ListOf(sg, chain) && PADDED_HDR_LEN + n < CHAIN_PAGES * PAGE_SIZE
    ensures HDR_LEN + n < Total(sg)
    ensures At(sg, HDR_LEN + n) == (chain[(PADDED_HDR_LEN + n) / PAGE_SIZE], (PADDED_HDR_LEN + n) % PAGE_SIZE)
  {
    var t, room := sg[1..], CHAIN_PAGES * PAGE_SIZE - PADDED_HDR_LEN;
    ListTiles(sg, chain, CHAIN_PAGES);
    assert t == sg[1..CHAIN_PAGES + 1] && sg == [sg[0]] + t;
    hide Tiles;
    IsTotal(t, chain, PADDED_HDR_LEN, room);
    AtBehind(sg[0], t, HDR_LEN + n);
    TilesAt(t, chain, PADDED_HDR_LEN, room, n);
  }

  /** Byte `n` of a packet */
  lemma PacketAt(skb: Skb, chain: seq<Page>, len: nat, tailroom: nat, n: nat)
    requires skb.Skb? && len >= HDR_LEN && PADDED_HDR_LEN + tailroom < PAGE_SIZE && PacketOf(skb, chain, len, tailroom)
    requires n < len - HDR_LEN
    ensures Total([skb.copied] + skb.frags) == len - HDR_LEN && (PADDED_HDR_LEN + n) / PAGE_SIZE < |chain|
    ensures At([skb.copied] + skb.frags, n)
            == (chain[(PADDED_HDR_LEN + n) / PAGE_SIZE], (PADDED_HDR_LEN + n) % PAGE_SIZE)
  {
    hide Tiles;
    var copied, frags, rest := skb.copied, skb.frags, len - HDR_LEN - skb.copied.size;
    IsTotal(frags, chain, PADDED_HDR_LEN + copied.size, rest);
    AtBehind(copied, frags, n);
    if n >= copied.size { TilesAt(frags, chain, PADDED_HDR_LEN + copied.size, rest, n - copied.size); }
  }

  /** A packet has the bytes that the device wrote behind the header, in order: byte `n` of it, copied
      or in a fragment, lies where the device has written byte `HDR_LEN + n`. */
  lemma BytesArrive(skb: Skb, sg: seq<Frag>, chain: seq<Page>, len: nat, tailroom: nat, n: nat)
    requires skb.Skb? && len >= HDR_LEN && PADDED_HDR_LEN + tailroom < PAGE_SIZE && PacketOf(skb, chain, len, tailroom)
    requires ListOf(sg, chain) && !TooMuch(len, tailroom) && n < len - HDR_LEN
    ensures Total([skb.copied] + skb.frags) == len - HDR_LEN && HDR_LEN + n < Total(sg)
    ensures At([skb.copied] + skb.frags, n) == At(sg, HDR_LEN + n)
  {
    hide PacketOf, ListOf, At;
    PacketAt(skb, chain, len, tailroom, n);
    ListAt(sg, chain, n);
  }

  lemma IsTotal(frags: seq<Frag>, chain: seq<Page>, offset: nat, rest: nat)
    requires Tiles(frags, chain, offset, rest)
    ensures Total(frags) == rest
  {
  }

  /** A packet that is built has no more fragments than a packet may have exactly when the header,
      padded, and the bytes behind it end in the first MAX_SKB_FRAGS pages. */
  lemma FragmentsFit(skb: Skb, chain: seq<Page>, len: nat, tailroom: nat)
    requires skb.Skb? && len >= HDR_LEN && PADDED_HDR_LEN + tailroom < PAGE_SIZE && PacketOf(skb, chain, len, tailroom)
    ensures |skb.frags| <= MAX_SKB_FRAGS <==> len + (PADDED_HDR_LEN - HDR_LEN) <= MAX_SKB_FRAGS * PAGE_SIZE
  {
    if skb.frags != [] {
      PagesUsed(skb.frags, chain, PADDED_HDR_LEN + skb.copied.size, len - HDR_LEN - skb.copied.size);
    }
  }

  /** A device that reports 17 pages: the length is not dropped, and the last six bytes make an
      eighteenth fragment. */
  lemma TooLongExample(skb: Skb, chain: seq<Page>, tailroom: nat)
    requires skb.Skb? && PADDED_HDR_LEN + tailroom < PAGE_SIZE
    requires PacketOf(skb, chain, MAX_SKB_FRAGS * PAGE_SIZE, tailroom)
    ensures !TooMuch(MAX_SKB_FRAGS * PAGE_SIZE, tailroom) && |skb.frags| == 18 && skb.frags[17].size == 6
  {
    PagesUsed(skb.frags, chain, PADDED_HDR_LEN + skb.copied.size,
              MAX_SKB_FRAGS * PAGE_SIZE - HDR_LEN - skb.copied.size);
  }

  class Queue {
    /** The pool */
    var pages: Page?

    ghost var pool: seq<Page>
    ghost var posted: map<Page, seq<Page>>
    /** The pages in the pool or posted; those given away in packets; those on the move */
    ghost var repr: set<Page>
    ghost var handed: set<Page>
    ghost var loose: set<Page>
    ghost var obtained: set<Page>

    ghost predicate Valid()
      reads this, repr
    {
      && repr == SetOf(pool) + PagesOf(posted) && pages == Head(pool) && Pooled(pool) && PostedOk(posted)
      && obtained == repr + handed + loose && repr !! handed && repr !! loose && handed !! loose
    }

    /** Valid with nothing on the move: every page ever obtained is in the pool, posted, or in a
        packet, and in exactly one of them. */
    ghost predicate Settled()
      reads this, repr
    {
      Valid() && loose == {}
    }

    constructor ()
      ensures Settled() && obtained == {}
    {
      pages, pool, posted, repr, handed, loose, obtained := null, [], map[], {}, {}, {}, {};
    }

    /** A chain on the move shares no page with the pool or the posted chains. */
    lemma Apart(chain: seq<Page>)
      requires Valid() && SetOf(chain) <= loose && chain != []
      ensures chain[0] !in posted && SetOf(chain) !! SetOf(pool)
      ensures forall p :: p in chain ==> p !in PagesOf(posted) && p !in pool
    {
      assert forall p :: p in chain ==> p in SetOf(chain);
      assert forall p :: p in pool ==> p in SetOf(pool);
      HeadsPosted(posted);
    }

    /** give_pages: a chain on the move becomes the front of the pool. */
    method GivePages(page: Page, ghost chain: seq<Page>)
      requires Valid() && chain != [] && page == chain[0] && Chain(chain) && SetOf(chain) <= loose
      modifies this, chain
      ensures Valid() && pool == chain + old(pool) && loose == old(loose) - SetOf(chain)
      ensures obtained == old(obtained) && handed == old(handed) && posted == old(posted)
    {
      hide PostedOk, PagesOf, Leads, SetOf;
      Apart(chain);
      var end := EndOf(page, chain);
      assert end in chain;
      Sew(end, pages, chain);
      Join(chain, pool);
      pages := page;
      forall p | p in chain { p.owner := null; }
      pool := chain + pool;
      repr := repr + SetOf(chain);
      loose := loose - SetOf(chain);
    }

    /** get_a_page: a page of the pool, or one of the `avail` that memory has left, or none. */
    method GetAPage(avail: nat) returns (p: Page?, left: nat)
      requires Valid()
      modifies this, repr
      ensures Valid() && handed == old(handed) && posted == old(posted)
      ensures p == null <==> old(pool) == [] && avail == 0
      ensures left == if p != null && old(pool) == [] then avail - 1 else avail
      ensures p == null ==> obtained == old(obtained) && loose == old(loose) && pool == old(pool) && repr == old(repr)
      ensures p != null ==> p.next == null && p !in old(loose) && loose == old(loose) + {p}
      ensures p != null ==> if old(pool) == [] then fresh(p) && obtained == old(obtained) + {p} && pool == []
                            else p == old(pool)[0] && pool == old(pool)[1..] && obtained == old(obtained)
    {
      p, left := pages, avail;
      if p != null {
        assert p !in PagesOf(posted);
        hide PostedOk, PagesOf;
        Cut(pool, 1);
        Follow(pool, null, 0);
        pages := p.next;
        p.next := null;
        pool := pool[1..];
        repr := repr - {p};
        loose := loose + {p};
      } else {
        if avail == 0 { return null, 0; }
        var q := new Page();
        p, left := q, avail - 1;
        loose := loose + {q};
        obtained := obtained + {q};
      }
    }

    /** A chain under construction, while nothing else is on the move. */
    ghost predicate Building(chain: seq<Page>, list: Page?)
      reads this, repr, chain
    {
      Valid() && Chain(chain) && loose == SetOf(chain) && list == Head(chain)
    }

    /** One more page at the front of a chain under construction, or none to be had. */
    method AddPage(list: Page?, ghost chain: seq<Page>, avail: nat) returns (first: Page?, left: nat)
      requires Building(chain, list)
      modifies this, repr
      ensures Valid() && handed == old(handed) && posted == old(posted) && repr <= old(repr)
      ensures first == null <==> |old(pool)| + avail == 0
      ensures |pool| + left == |old(pool)| + avail - if first == null then 0 else 1
      ensures first == null ==> Building(chain, list) && obtained == old(obtained) && repr == old(repr)
      ensures first != null ==> Building([first] + chain, first)
      ensures first != null ==> if first in old(repr) then obtained == old(obtained)
                                else fresh(first) && obtained == old(obtained) + {first}
    {
      hide PostedOk, PagesOf;
      assert forall p :: p in chain ==> p in SetOf(chain);
      first, left := GetAPage(avail);
      if first != null {
        first.next := list;
        Prepend(first, chain);
      }
    }

    /** add_recvbuf_big: posts a chain of pages to the device exactly when the pool and memory have
        enough of them and the queue has room, with the ranges `sg` for the device to write to.
        Whatever fails, no page is lost. */
    method AddRecvbufBig(avail: nat, room: bool) returns (ok: bool, sg: seq<Frag>)
      requires Settled()
      modifies this, repr
      ensures Settled() && handed == old(handed) && old(obtained) <= obtained && fresh(obtained - old(obtained))
      ensures ok <==> |old(pool)| + avail >= CHAIN_PAGES && room
      ensures !ok ==> posted == old(posted)
      ensures ok ==> exists first | first !in old(posted) && first in posted ::
                       posted == old(posted)[first := posted[first]] && ListOf(sg, posted[first])
    {
      assert Pages([], []);
      hide PostedOk, PagesOf, Pages, ListOf;
      var list: Page? := null;
      ghost var chain: seq<Page> := [];
      sg := [];
      var i, left := MAX_SKB_FRAGS + 1, avail;
      while i > 1
        invariant 1 <= i == CHAIN_PAGES - |chain| && Building(chain, list)
        invariant |pool| + left == |old(pool)| + avail - |chain|
        invariant posted == old(posted) && handed == old(handed) && repr <= old(repr)
        invariant old(obtained) <= obtained && fresh(obtained - old(obtained))
        invariant forall p :: p in chain ==> p in old(repr) || fresh(p)
        invariant Pages(sg, chain)
      {
        var first;
        first, left := AddPage(list, chain, left);
        if first == null {
          if list != null { GivePages(list, chain); }
          return false, [];
        }
        OnePage(sg, chain, first);
        sg := [Frag(first, 0, PAGE_SIZE)] + sg;
        list, chain := first, [first] + chain;
        i := i - 1;
      }
      ok, sg := Offer(list, chain, sg, left, room);
    }

    /** The first page of a chain, which the header shares with data, and the post */
    method Offer(list: Page?, ghost chain: seq<Page>, pages: seq<Frag>, avail: nat, room: bool)
      returns (ok: bool, sg: seq<Frag>)
      requires Building(chain, list) && |chain| == CHAIN_PAGES - 1 && Pages(pages, chain)
      modifies this, repr, chain
      ensures Settled() && handed == old(handed) && old(obtained) <= obtained && fresh(obtained - old(obtained))
      ensures ok <==> |old(pool)| + avail > 0 && room
      ensures !ok ==> posted == old(posted)
      ensures ok ==> exists first | first !in old(posted) && first in posted ::
                       posted == old(posted)[first := posted[first]] && ListOf(sg, posted[first])
    {
      hide PostedOk, PagesOf, Pages, ListOf;
      var first, left := AddPage(list, chain, avail);
      if first == null {
        GivePages(list, chain);
        return false, [];
      }
      OnePage(pages, chain, first);
      sg := [Frag(first, 0, HDR_LEN), Frag(first, PADDED_HDR_LEN, PAGE_SIZE - PADDED_HDR_LEN)] + pages;
      ghost var whole := [first] + chain;
      if !room {
        GivePages(first, whole);
        return false, [];
      }
      Hand(first, whole);
      return true, sg;
    }

    /** The chain is the device's. */
    ghost method Hand(first: Page, chain: seq<Page>)
      requires Building(chain, first) && |chain| == CHAIN_PAGES
      modifies this, chain`owner
      ensures Settled() && first !in old(posted) && posted == old(posted)[first := chain]
      ensures handed == old(handed) && obtained == old(obtained)
    {
      hide PagesOf, SetOf, PostedOk, Leads;
      Apart(chain);
      Names(posted, first, chain);
      forall p | p in chain { p.owner := first; }
      PostOne(posted, first, chain);
      posted := posted[first := chain];
      repr := repr + SetOf(chain);
      loose := {};
    }

    /** The loop of page_to_skb: fragments until the bytes are used up. It stays on the chain,
        whatever `rest` bytes up to MAX_SKB_FRAGS pages the device reports. */
    static method AddFrags(page: Page, ghost chain: seq<Page>, offset: nat, rest: nat)
      returns (frags: seq<Frag>, after: Page?)
      requires Chain(chain) && |chain| == CHAIN_PAGES && page == chain[0]
      requires offset < PAGE_SIZE && rest <= MAX_SKB_FRAGS * PAGE_SIZE
      ensures Tiles(frags, chain, offset, rest)
      ensures after == if |frags| < CHAIN_PAGES then chain[|frags|] else null
    {
      frags, after := [], page;
      var len, at := rest, offset;
      while len > 0
        invariant |frags| <= CHAIN_PAGES && 0 <= len <= rest && Tiles(frags, chain, offset, rest - len)
        invariant after == if |frags| < CHAIN_PAGES then chain[|frags|] else null
        invariant at == if frags == [] then offset else 0
        invariant frags != [] && len > 0 ==> frags[|frags| - 1].size == PAGE_SIZE - frags[|frags| - 1].offset
        modifies {}
      {
        if frags != [] { PagesUsed(frags, chain, offset, rest - len); }
        Follow(chain, null, |frags|);
        var fragSize := if PAGE_SIZE - at <= len then PAGE_SIZE - at else len;
        ghost var was := frags;
        frags := frags + [Frag(after, at, fragSize)];
        assert frags[..|was|] == was;
        len := len - fragSize;
        after := after.next;
        at := 0;
      }
    }

    /** page_to_skb, for a big buffer: the first bytes are copied, the rest becomes fragments and
        the pages not needed go back to the pool. */
    method PageToSkb(page: Page, ghost chain: seq<Page>, len: nat, tailroom: nat, memory: bool) returns (skb: Skb)
      requires Valid() && Chain(chain) && |chain| == CHAIN_PAGES && page == chain[0] && loose == SetOf(chain)
      requires len >= HDR_LEN && PADDED_HDR_LEN + tailroom < PAGE_SIZE
      modifies this, chain
      ensures Valid() && posted == old(posted) && obtained == old(obtained)
      ensures skb.Skb? <==> memory && !TooMuch(len, tailroom)
      ensures skb.NoSkb? ==> Chain(chain) && loose == old(loose) && pool == old(pool) && handed == old(handed)
      ensures skb.Skb? ==> loose == {} && PacketOf(skb, chain, len, tailroom)
                           && pool == chain[|skb.frags|..] + old(pool)
                           && handed == old(handed) + SetOf(chain[..|skb.frags|])
    {
      hide PostedOk, PagesOf, Tiles;
      if !memory { return NoSkb; }
      var rest, offset := len - HDR_LEN, PADDED_HDR_LEN;
      var copy := if rest > tailroom then tailroom else rest;
      rest, offset := rest - copy, offset + copy;
      if rest > MAX_SKB_FRAGS * PAGE_SIZE { return NoSkb; }
      var frags, after := AddFrags(page, chain, offset, rest);
      FragsOnChain(frags, chain, offset, rest);
      ghost var n := |frags|;
      Cut(chain, n);
      handed, loose := handed + SetOf(chain[..n]), loose - SetOf(chain[..n]);
      if after != null {
        GivePages(after, chain[n..]);
      } else {
        assert chain[n..] == [] && SetOf(chain[n..]) == {} && chain[n..] + pool == pool;
      }
      skb := Skb(Frag(page, PADDED_HDR_LEN, copy), frags);
    }

    static lemma FragsOnChain(frags: seq<Frag>, chain: seq<Page>, offset: nat, rest: nat)
      requires Tiles(frags, chain, offset, rest)
      ensures |frags| <= |chain|
    {
    }

    /** virtqueue_get_buf: the device returns a chain. */
    ghost method TakeBack(page: Page) returns (chain: seq<Page>)
      requires Settled() && page in posted
      modifies this
      ensures Valid() && chain == old(posted[page]) && loose == SetOf(chain) && Chain(chain)
      ensures |chain| == CHAIN_PAGES && chain[0] == page
      ensures posted == old(posted) - {page} && pool == old(pool) && handed == old(handed) && obtained == old(obtained)
    {
      chain := posted[page];
      Unnamed(posted, page);
      hide Pooled, Leads;
      assert posted[page] == chain && Chain(chain);
      posted := posted - {page};
      repr := repr - SetOf(chain);
      loose := SetOf(chain);
    }

    static lemma Unnamed(m: map<Page, seq<Page>>, h: Page)
      requires PostedOk(m) && h in m
      ensures var m' := m - {h}; PostedOk(m') && PagesOf(m') == PagesOf(m) - SetOf(m[h]) && SetOf(m[h]) <= PagesOf(m)
    {
      var m' := m - {h};
      forall p
        ensures p in PagesOf(m') <==> p in PagesOf(m) - SetOf(m[h])
      {
        if p in PagesOf(m) - SetOf(m[h]) {
          var k: Page :| k in m && p in m[k];
          assert k in m' && p in m'[k];
        }
        if p in PagesOf(m') {
          var k: Page :| k in m' && p in m'[k];
          assert k in m && p in m[k] && p.owner == k;
        }
      }
    }

    /** receive_buf with big packets (receive_big, page_to_skb): whatever length the device reports,
        each page of its chain ends up in the packet or in the pool. */
    method ReceiveBuf(page: Page, len: nat, tailroom: nat, memory: bool) returns (skb: Skb)
      requires Settled() && page in posted && PADDED_HDR_LEN + tailroom < PAGE_SIZE
      modifies this, repr
      ensures Settled() && posted == old(posted) - {page} && obtained == old(obtained)
      ensures skb.Skb? <==> len >= HDR_LEN + ETH_HLEN && memory && !TooMuch(len, tailroom)
      ensures skb.Skb? ==>
                (|skb.frags| <= MAX_SKB_FRAGS <==> len + (PADDED_HDR_LEN - HDR_LEN) <= MAX_SKB_FRAGS * PAGE_SIZE)
      ensures var chain := old(posted[page]);
              if skb.NoSkb? then pool == chain + old(pool) && handed == old(handed)
              else PacketOf(skb, chain, len, tailroom) && pool == chain[|skb.frags|..] + old(pool)
                   && handed == old(handed) + SetOf(chain[..|skb.frags|])
    {
      hide PagesOf;
      ghost var chain := TakeBack(page);
      assert SetOf(chain) <= old(repr) && forall p :: p in chain ==> p in SetOf(chain);
      if len < HDR_LEN + ETH_HLEN {
        GivePages(page, chain);
        return NoSkb;
      }
      skb := PageToSkb(page, chain, len, tailroom, memory);
      if skb.NoSkb? {
        GivePages(page, chain);
      } else {
        FragmentsFit(skb, chain, len, tailroom);
      }
    }
  }
}
