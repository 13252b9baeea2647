/** Byte access to the word-addressed EEPROM (e1000_get_eeprom and e1000_set_eeprom) and the
    checksum over its first 64 words. Any access may fail, and which do is given beforehand. */
module EthtoolEeprom {
  import opened Bits
  import SpiEeprom

  const EEPROM_CHECKSUM_REG := 0x3F
  const EEPROM_SUM := 0xBABA

  // ----- Bytes of words -----

  /** The low byte of a word, or its high byte */
  function Half(w: Word, high: bool): Byte { if high then w / 0x100 else w % 0x100 }

  function WithHalf(w: Word, high: bool, b: Byte): Word {
    if high then b as int * 0x100 + w % 0x100 else w / 0x100 * 0x100 + b
  }

  lemma HalfOfWithHalf(w: Word, high: bool, b: Byte, which: bool)
    ensures Half(WithHalf(w, high, b), which) == if which == high then b else Half(w, which)
  {
  }

  /** Byte `k` of an image, whose words hold their low byte first */
  function ByteOf(words: seq<Word>, k: nat): Byte
    requires k < 2 * |words|
  {
    Half(words[k / 2], k % 2 == 1)
  }

  /** le16_to_cpus and cpu_to_le16 on a host of either byte order */
  function Le16(big: bool, w: Word): Word { if big then Swap(w) else w }

  /** In memory the low byte of a word comes second on a big-endian host. */
  function High(big: bool, k: nat): bool { (k % 2 == 1) != big }

  function MemoryByte(big: bool, words: seq<Word>, k: nat): Byte
    requires k < 2 * |words|
  {
    Half(words[k / 2], High(big, k))
  }

  lemma Le16Memory(big: bool, w: Word, k: nat)
    ensures Half(Le16(big, w), High(big, k)) == Half(w, k % 2 == 1) && Le16(big, Le16(big, w)) == w
  {
  }

  // ----- The checksum -----

  function Sum(words: seq<Word>, n: nat): nat
    requires n <= |words|
  {
    if n == 0 then 0 else Sum(words, n - 1) + words[n - 1]
  }

  predicate ChecksumValid(words: seq<Word>)
    requires |words| > EEPROM_CHECKSUM_REG
  {
    Sum(words, EEPROM_CHECKSUM_REG + 1) % 0x1_0000 == EEPROM_SUM
  }

  lemma {:induction false} SumSame(a: seq<Word>, b: seq<Word>, n: nat)
    requires n <= |a| && n <= |b| && forall i :: 0 <= i < n ==> a[i] == b[i]
    ensures Sum(a, n) == Sum(b, n)
  {
    if n == 0 {
    } else {
      SumSame(a, b, n - 1);
    }
  }

  // ----- What a write of bytes means -----

  /** The image after `bytes` have been stored at byte `offset`. */
  ghost predicate BytesStored(was: seq<Word>, now: seq<Word>, offset: nat, bytes: seq<Byte>, k: nat)
    requires |was| == |now| && k < 2 * |was|
  {
    ByteOf(now, k) == if offset <= k < offset + |bytes| then bytes[k - offset] else ByteOf(was, k)
  }

  /** ... everywhere, but for the checksum word when it was recomputed. */
  ghost predicate Stored(was: seq<Word>, now: seq<Word>, offset: nat, bytes: seq<Byte>, recomputed: bool)
    requires |was| == |now|
  {
    forall k {:trigger BytesStored(was, now, offset, bytes, k)} :: 0 <= k < 2 * |was| ==>
      (recomputed && k / 2 == EEPROM_CHECKSUM_REG) || BytesStored(was, now, offset, bytes, k)
  }

  datatype Status = Success | Invalid | Unsupported | WrongMagic | NoMemory | Failed

  /** The word where `len` bytes from `offset` on end */
  function Last(offset: nat, len: nat): nat
    requires len > 0
  {
    (offset + len - 1) / 2
  }

  // ----- The reads of the end words. The access is tried for each end word that is written in
  // ----- part; `one` and `two` say whether the first and the second access come through.

  predicate GotFirst(offset: nat, one: bool) { offset % 2 == 1 && one }

  predicate TriesLast(offset: nat, len: nat, one: bool) { (offset + len) % 2 == 1 && (offset % 2 == 1 ==> one) }

  predicate GotLast(offset: nat, len: nat, one: bool, two: bool) {
    TriesLast(offset, len, one) && if offset % 2 == 1 then two else one
  }

  function Reads(offset: nat, len: nat, one: bool): nat { offset % 2 + if TriesLast(offset, len, one) then 1 else 0 }

  /** What the bytes are stored in: the words they lie in come from the fresh buffer `junk`, but
      for an end word that was got from the EEPROM. */
  function Base(was: seq<Word>, junk: seq<Word>, offset: nat, len: nat, one: bool, two: bool): (base: seq<Word>)
    requires len > 0 && offset + len <= 2 * |was| && |junk| == |was|
    ensures |base| == |was|
  {
    seq(|was|, i requires 0 <= i < |was| =>
      if i < offset / 2 || i > Last(offset, len)
         || (i == offset / 2 && GotFirst(offset, one)) || (i == Last(offset, len) && GotLast(offset, len, one, two))
      then was[i] else junk[i - offset / 2])
  }

  // ----- Where a write puts its words -----

  /** The part behind the accesses: an SPI chip has two address bytes or one. */
  datatype Part = Microwire | Spi(wide: bool) {
    /** One address byte: a write takes address bit 8 from the start of its range. */
    predicate Narrow() { this == Spi(false) }

    /** The sizes such a chip comes in, in words */
    predicate Comes(size: nat) { Narrow() ==> size == 0x40 || size == 0x80 || size == 0x100 }

    function Target(first: nat, i: nat): nat { SpiEeprom.Target(!Narrow(), first, i) }

    predicate Straddles(first: nat, n: nat) { SpiEeprom.Straddles(!Narrow(), first, n) }
  }

  lemma TargetFits(part: Part, size: nat, first: nat, i: nat)
    requires part.Comes(size) && first + i < size
    ensures part.Target(first, i) < size
    ensures !part.Straddles(first, i + 1) ==> part.Target(first, i) == first + i
    ensures part.Narrow() && first < 0x80 ==> part.Target(first, i) < 0x80
  {
  }

  /** The image after the first `m` words of `data` have been written from word `first` on */
  function Placed(part: Part, was: seq<Word>, first: nat, data: seq<Word>, m: nat): (now: seq<Word>)
    requires m <= |data| && first + m <= |was| && part.Comes(|was|)
    ensures |now| == |was|
  {
    if m == 0 then was else
      TargetFits(part, |was|, first, m - 1);
      Placed(part, was, first, data, m - 1)[part.Target(first, m - 1) := data[m - 1]]
  }

  /** That is what the chip's memory then holds. */
  lemma {:induction false} PlacedOnChip(wide: bool, mem: seq<Byte>, was: seq<Word>, first: nat, data: seq<Word>, m: nat)
    requires |mem| == 2 * |was| <= (if wide then 0x1_0000 else 0x200) && Spi(wide).Comes(|was|)
    requires m <= |data| && first + m <= |was|
    requires forall w :: 0 <= w < |was| ==> SpiEeprom.WordAt(mem, w) == was[w]
    ensures forall w :: 0 <= w < |was| ==>
              SpiEeprom.WordAt(SpiEeprom.Put(wide, mem, first, data, m), w) == Placed(Spi(wide), was, first, data, m)[w]
  {
    if m == 0 {
    } else {
      PlacedOnChip(wide, mem, was, first, data, m - 1);
      TargetFits(Spi(wide), |was|, first, m - 1);
    }
  }

  /** A range that does not straddle is written in a row. */
  lemma {:induction false} PlacedInRow(part: Part, was: seq<Word>, first: nat, data: seq<Word>, m: nat, n: nat)
    requires m <= n <= |data| && first + n <= |was| && part.Comes(|was|) && !part.Straddles(first, n)
    ensures forall w :: 0 <= w < |was| ==>
              Placed(part, was, first, data, m)[w] == if first <= w < first + m then data[w - first] else was[w]
  {
    if m == 0 {
    } else {
      PlacedInRow(part, was, first, data, m - 1, n);
      TargetFits(part, |was|, first, m - 1);
    }
  }

  /** A range that starts below word 128 of a narrow chip never reaches the words above. */
  lemma {:induction false} PlacedBelow(part: Part, was: seq<Word>, first: nat, data: seq<Word>, m: nat, w: nat)
    requires m <= |data| && first + m <= |was| && part.Comes(|was|) && part.Narrow() && first < 0x80 <= w < |was|
    ensures Placed(part, was, first, data, m)[w] == was[w]
  {
    if m == 0 {
    } else {
      PlacedBelow(part, was, first, data, m - 1, w);
      TargetFits(part, |was|, first, m - 1);
    }
  }

  // ----- What is to be written -----

  function Join(lo: Byte, hi: Byte): Word { lo + hi as int * 0x100 }

  lemma HalfOfJoin(lo: Byte, hi: Byte, high: bool)
    ensures Half(Join(lo, hi), high) == if high then hi else lo
  {
  }

  /** Byte `k` of the image that is meant: `bytes` stored in `base` at `offset` */
  function MeantByte(base: seq<Word>, offset: nat, bytes: seq<Byte>, k: nat): Byte
    requires k < 2 * |base|
  {
    if offset <= k < offset + |bytes| then bytes[k - offset] else ByteOf(base, k)
  }

  function MeantWord(base: seq<Word>, offset: nat, bytes: seq<Byte>, w: nat): Word
    requires w < |base|
  {
    Join(MeantByte(base, offset, bytes, 2 * w), MeantByte(base, offset, bytes, 2 * w + 1))
  }

  /** The words that the bytes lie in, with the bytes stored in them */
  function Meant(base: seq<Word>, offset: nat, bytes: seq<Byte>): (data: seq<Word>)
    requires |bytes| > 0 && offset + |bytes| <= 2 * |base|
    ensures |data| == Count(offset, |bytes|) && offset / 2 + |data| <= |base|
  {
    seq<Word>(Count(offset, |bytes|), i requires 0 <= i < Count(offset, |bytes|) =>
      MeantWord(base, offset, bytes, offset / 2 + i))
  }

  /** How many words `len` bytes lie in */
  function Count(offset: nat, len: nat): nat
    requires len > 0
  {
    Last(offset, len) - offset / 2 + 1
  }

  lemma MeantAt(base: seq<Word>, offset: nat, bytes: seq<Byte>, i: nat)
    requires |bytes| > 0 && offset + |bytes| <= 2 * |base| && i < Count(offset, |bytes|)
    ensures Meant(base, offset, bytes)[i] == MeantWord(base, offset, bytes, offset / 2 + i)
  {
    hide MeantWord;
  }

  lemma MeantHalves(base: seq<Word>, offset: nat, bytes: seq<Byte>, k: nat)
    requires |bytes| > 0 && offset + |bytes| <= 2 * |base| && offset / 2 <= k / 2 <= Last(offset, |bytes|)
    ensures k < 2 * |base|
    ensures Half(Meant(base, offset, bytes)[k / 2 - offset / 2], k % 2 == 1) == MeantByte(base, offset, bytes, k)
  {
    hide Half, Join, MeantByte, Meant;
    var w := k / 2;
    MeantAt(base, offset, bytes, w - offset / 2);
    HalfOfJoin(MeantByte(base, offset, bytes, 2 * w), MeantByte(base, offset, bytes, 2 * w + 1), k % 2 == 1);
    assert k == if k % 2 == 1 then 2 * w + 1 else 2 * w;
  }

  /** The image that a complete write of the bytes, stored in `base`, leaves of `was` */
  function Image(part: Part, was: seq<Word>, base: seq<Word>, offset: nat, bytes: seq<Byte>): (now: seq<Word>)
    requires |bytes| > 0 && offset + |bytes| <= 2 * |was| && |base| == |was| && part.Comes(|was|)
    ensures |now| == |was|
  {
    Placed(part, was, offset / 2, Meant(base, offset, bytes), Count(offset, |bytes|))
  }

  /** The images agree, but for the checksum word when it was recomputed. */
  ghost predicate SameBut(a: seq<Word>, b: seq<Word>, recomputed: bool)
    requires |a| == |b|
  {
    forall i :: 0 <= i < |a| && !(recomputed && i == EEPROM_CHECKSUM_REG) ==> a[i] == b[i]
  }

  /** Words in a row: the bytes are stored. `base` and `was` differ in the written words alone. */
  lemma ImageStored(part: Part, was: seq<Word>, base: seq<Word>, now: seq<Word>, offset: nat, bytes: seq<Byte>,
                    recomputed: bool)
    requires |bytes| > 0 && offset + |bytes| <= 2 * |was| && |now| == |base| == |was| && part.Comes(|was|)
    requires !part.Straddles(offset / 2, Count(offset, |bytes|))
    requires forall i :: 0 <= i < |was| && !(offset / 2 <= i <= Last(offset, |bytes|)) ==> base[i] == was[i]
    requires SameBut(now, Image(part, was, base, offset, bytes), recomputed)
    ensures Stored(base, now, offset, bytes, recomputed)
  {
    var first, data, n := offset / 2, Meant(base, offset, bytes), Count(offset, |bytes|);
    PlacedInRow(part, was, first, data, n, n);
    hide Placed, Meant, Half;
    forall k | 0 <= k < 2 * |was| && !(recomputed && k / 2 == EEPROM_CHECKSUM_REG)
      ensures BytesStored(base, now, offset, bytes, k)
    {
      assert now[k / 2] == Image(part, was, base, offset, bytes)[k / 2];
      if first <= k / 2 <= Last(offset, |bytes|) {
        MeantHalves(base, offset, bytes, k);
      } else {
        Outside(offset, |bytes|, k);
      }
    }
  }

  lemma Outside(offset: nat, len: nat, k: nat)
    requires len > 0 && !(offset / 2 <= k / 2 <= Last(offset, len))
    ensures !(offset <= k < offset + len)
  {
  }

  class Nvm {
    const words: array<Word>
    const part: Part
    const bigEndian: bool
    /** Whether the access of each number comes through, if its range lies in the EEPROM */
    const fate: nat -> bool
    /** How many accesses there have been to ranges in the EEPROM */
    var accesses: nat

    ghost predicate Valid() { words.Length > EEPROM_CHECKSUM_REG && part.Comes(words.Length) }

    constructor (image: seq<Word>, part: Part, bigEndian: bool, fate: nat -> bool)
      requires |image| > EEPROM_CHECKSUM_REG && part.Comes(|image|)
      ensures Valid() && words[..] == image && fresh(words)
      ensures this.part == part && this.bigEndian == bigEndian && this.fate == fate && accesses == 0
    {
      words := new Word[|image|](i requires 0 <= i < |image| => image[i]);
      this.part, this.bigEndian, this.fate, accesses := part, bigEndian, fate, 0;
    }

    predicate InRange(offset: nat, n: nat) { offset < words.Length && n <= words.Length - offset && n != 0 }

    /** The `n` accesses from number `a` on come through. */
    predicate Through(a: nat, n: nat) { forall i :: a <= i < a + n ==> fate(i) }

    /** e1000_read_eeprom: into `buff` from its slot `at`, or nothing at all. */
    method ReadEeprom(offset: nat, n: nat, buff: array<Word>, at: nat) returns (ok: bool)
      requires at + n <= buff.Length && buff != words
      modifies buff, `accesses
      ensures accesses == old(accesses) + if InRange(offset, n) then 1 else 0
      ensures ok <==> InRange(offset, n) && fate(old(accesses))
      ensures ok ==> buff[..] == old(buff[..at]) + words[offset..offset + n] + old(buff[at + n..])
      ensures !ok ==> buff[..] == old(buff[..])
    {
      if !InRange(offset, n) { return false; }
      ok, accesses := fate(accesses), accesses + 1;
      if !ok { return; }
      Copy(offset, n, buff, at);
    }

    method Copy(offset: nat, n: nat, buff: array<Word>, at: nat)
      requires at + n <= buff.Length && buff != words && offset + n <= words.Length
      modifies buff
      ensures buff[..] == old(buff[..at]) + words[offset..offset + n] + old(buff[at + n..])
    {
      var i := 0;
      while i < n
        invariant i <= n
        invariant forall j :: 0 <= j < buff.Length ==>
                    buff[j] == if at <= j < at + i then words[offset + j - at] else old(buff[j])
      {
        buff[at + i] := words[offset + i];
        i := i + 1;
      }
    }

    /** A read of one word */
    method ReadWord(i: nat, buff: array<Word>, at: nat) returns (ok: bool)
      requires i < words.Length && at < buff.Length && buff != words
      modifies buff, `accesses
      ensures accesses == old(accesses) + 1 && ok == fate(old(accesses))
      ensures buff[..] == if ok then old(buff[..])[at := words[i]] else old(buff[..])
    {
      ok := ReadEeprom(i, 1, buff, at);
    }

    /** The first `m` words of a buffer, each to its target. */
    method Put(offset: nat, m: nat, buff: array<Word>)
      requires Valid() && m <= buff.Length && buff != words && offset + m <= words.Length
      modifies words
      ensures words[..] == Placed(part, old(words[..]), offset, buff[..], m)
    {
      var i := 0;
      while i < m
        invariant i <= m && words[..] == Placed(part, old(words[..]), offset, buff[..], i)
      {
        TargetFits(part, words.Length, offset, i);
        words[part.Target(offset, i)] := buff[i];
        i := i + 1;
      }
    }

    /** e1000_write_eeprom: all the words, or on failure the first few. */
    method WriteEeprom(offset: nat, n: nat, buff: array<Word>) returns (ok: bool, ghost m: nat)
      requires Valid() && n <= buff.Length && buff != words
      modifies words, `accesses
      ensures accesses == old(accesses) + if InRange(offset, n) then 1 else 0
      ensures ok <==> InRange(offset, n) && fate(old(accesses))
      ensures m <= n && (ok ==> m == n) && (m > 0 ==> InRange(offset, n))
      ensures m == 0 ==> words[..] == old(words[..])
      ensures m > 0 ==> words[..] == Placed(part, old(words[..]), offset, buff[..], m)
    {
      if !InRange(offset, n) { return false, 0; }
      ok, accesses := fate(accesses), accesses + 1;
      var written: nat := *;
      if ok || written > n { written := n; }
      Put(offset, written, buff);
      m := written;
    }

    /** e1000_validate_eeprom_checksum */
    method ValidateChecksum() returns (ok: bool)
      requires Valid()
      modifies `accesses
      ensures ok <==> Through(old(accesses), EEPROM_CHECKSUM_REG + 1) && ChecksumValid(words[..])
    {
      var checksum: int, i := 0, 0;
      var data := new Word[1];
      while i < EEPROM_CHECKSUM_REG + 1
        invariant i <= EEPROM_CHECKSUM_REG + 1 && checksum == Sum(words[..], i) % 0x1_0000 && fresh(data)
        invariant accesses == old(accesses) + i && Through(old(accesses), i)
      {
        var read := ReadEeprom(i, 1, data, 0);
        if !read { return false; }
        checksum := (checksum + data[0] as int) % 0x1_0000;
        i := i + 1;
      }
      return checksum == EEPROM_SUM;
    }

    /** e1000_update_eeprom_checksum: the image validates and only word 0x3F differs, or nothing
        was changed. */
    method UpdateChecksum() returns (ok: bool)
      requires Valid()
      modifies words, `accesses
      ensures ok <==> Through(old(accesses), EEPROM_CHECKSUM_REG + 1)
      ensures ChecksumValid(words[..]) || (!ok && words[..] == old(words[..]))
      ensures forall i :: 0 <= i < words.Length && i != EEPROM_CHECKSUM_REG ==> words[i] == old(words[i])
    {
      var checksum: int, i := 0, 0;
      var data := new Word[1];
      while i < EEPROM_CHECKSUM_REG
        invariant i <= EEPROM_CHECKSUM_REG && checksum == Sum(words[..], i) % 0x1_0000
        invariant fresh(data) && data.Length == 1
        invariant accesses == old(accesses) + i && Through(old(accesses), i)
        modifies data, `accesses
      {
        var read := ReadEeprom(i, 1, data, 0);
        if !read { return false; }
        checksum := (checksum + data[0] as int) % 0x1_0000;
        i := i + 1;
      }
      hide Placed;
      ghost var was := words[..];
      data[0] := (EEPROM_SUM - checksum) % 0x1_0000;
      ghost var m;
      ok, m := WriteEeprom(EEPROM_CHECKSUM_REG, 1, data);
      if m > 0 {
        PlacedInRow(part, was, EEPROM_CHECKSUM_REG, data[..], 1, 1);
        SumSame(was, words[..], EEPROM_CHECKSUM_REG);
      }
    }

    /** Each of the first `n` words of a buffer, to or from the host's byte order. */
    method ConvertAll(buff: array<Word>, n: nat)
      requires n <= buff.Length && buff != words
      modifies buff
      ensures forall i :: 0 <= i < buff.Length ==>
                buff[i] == if i < n then Le16(bigEndian, old(buff[i])) else old(buff[i])
    {
      var i := 0;
      while i < n
        invariant i <= n
        invariant forall j :: 0 <= j < buff.Length ==>
                    buff[j] == if j < i then Le16(bigEndian, old(buff[j])) else old(buff[j])
      {
        buff[i] := Le16(bigEndian, buff[i]);
        i := i + 1;
      }
    }

    static ghost predicate Copied(big: bool, was: seq<Word>, now: seq<Word>, at: nat, bytes: seq<Byte>) {
      && |was| == |now|
      && forall k :: 0 <= k < 2 * |was| ==>
           MemoryByte(big, now, k) == (if at <= k < at + |bytes| then bytes[k - at] else MemoryByte(big, was, k))
    }

    /** memcpy into the memory of a buffer of words, from its byte `at` on. */
    method CopyBytes(buff: array<Word>, at: nat, bytes: seq<Byte>)
      requires at + |bytes| <= 2 * buff.Length && buff != words
      modifies buff
      ensures Copied(bigEndian, old(buff[..]), buff[..], at, bytes)
    {
      var i := 0;
      while i < |bytes|
        invariant i <= |bytes|
        invariant Copied(bigEndian, old(buff[..]), buff[..], at, bytes[..i])
      {
        ghost var was := buff[..];
        var w, h := (at + i) / 2, High(bigEndian, at + i);
        buff[w] := WithHalf(buff[w], h, bytes[i]);
        forall k | 0 <= k < 2 * buff.Length
          ensures MemoryByte(bigEndian, buff[..], k) == if k == at + i then bytes[i] else MemoryByte(bigEndian, was, k)
        {
          HalfOfWithHalf(was[w], h, bytes[i], High(bigEndian, k));
          SameByte(k, at + i);
        }
        i := i + 1;
      }
    }

    static lemma SameByte(a: nat, b: nat)
      ensures a / 2 == b / 2 && (a % 2 == 1) == (b % 2 == 1) <==> a == b
    {
    }

    /** The reads of `n` words from `first` on all come through: one read, or one for each word. */
    predicate Fetched(a: nat, first: nat, n: nat) {
      if part.Spi? then InRange(first, n) && fate(a) else first + n <= words.Length && Through(a, n)
    }

    /** The words of a range into a new buffer. */
    method Fetch(first: nat, n: nat) returns (ok: bool, buff: array<Word>)
      requires n > 0
      modifies `accesses
      ensures fresh(buff) && buff.Length == n && (ok <==> Fetched(old(accesses), first, n))
      ensures ok ==> first + n <= words.Length && buff[..] == words[first..first + n]
    {
      buff := new Word[n];
      if part.Spi? {
        ok := ReadEeprom(first, n, buff, 0);
      } else {
        var i := 0;
        ok := true;
        while i < n && ok
          invariant i <= n && fresh(buff) && buff.Length == n && Through(old(accesses), i)
          invariant i > 0 ==> first + i <= words.Length && buff[..i] == words[first..first + i]
          invariant if ok then accesses == old(accesses) + i
                    else i < n && (first + i >= words.Length || !fate(old(accesses) + i))
          decreases n - i, ok
        {
          ok := ReadEeprom(first + i, 1, buff, i);
          if ok { i := i + 1; }
        }
      }
    }

    /** memcpy out of the memory of a buffer of words. */
    method CopyOut(buff: array<Word>, at: nat, len: nat) returns (bytes: seq<Byte>)
      requires at + len <= 2 * buff.Length
      ensures |bytes| == len && forall k :: 0 <= k < len ==> bytes[k] == MemoryByte(bigEndian, buff[..], at + k)
    {
      bytes := [];
      var k := 0;
      while k < len
        invariant k == |bytes| <= len
        invariant forall j :: 0 <= j < k ==> bytes[j] == MemoryByte(bigEndian, buff[..], at + j)
      {
        bytes := bytes + [MemoryByte(bigEndian, buff[..], at + k)];
        k := k + 1;
      }
    }

    /** e1000_get_eeprom: it succeeds exactly when there is memory and every read comes through, and
        then gives the bytes of the image from `offset` on. */
    method GetEeprom(offset: nat, len: nat, memory: bool) returns (ret: Status, bytes: seq<Byte>)
      modifies `accesses
      ensures ret.Invalid? <==> len == 0
      ensures ret.NoMemory? <==> len > 0 && !memory
      ensures ret.Success? <==>
                len > 0 && memory && Fetched(old(accesses), offset / 2, Last(offset, len) - offset / 2 + 1)
      ensures ret.Invalid? || ret.NoMemory? || ret.Success? || ret.Failed?
      ensures ret.Success? ==> |bytes| == len > 0 && offset + len <= 2 * words.Length
      ensures ret.Success? ==> forall k :: 0 <= k < len ==> bytes[k] == ByteOf(words[..], offset + k)
    {
      if len == 0 { return Invalid, []; }
      var first, last := offset / 2, Last(offset, len);
      if !memory { return NoMemory, []; }
      var n := last - first + 1;
      var ok, buff := Fetch(first, n);
      ConvertAll(buff, n);
      bytes := CopyOut(buff, offset % 2, len);
      if ok {
        forall k | 0 <= k < len
          ensures bytes[k] == ByteOf(words[..], offset + k)
        {
          var at := offset % 2 + k;
          Split(first, offset % 2, k);
          Le16Memory(bigEndian, words[first + at / 2], at);
        }
      }
      ret := if ok then Success else Failed;
    }

    static lemma Split(first: nat, odd: nat, k: nat)
      requires odd < 2
      ensures (2 * first + odd + k) / 2 == first + (odd + k) / 2 && (2 * first + odd + k) % 2 == (odd + k) % 2
    {
    }

    /** The image that the bytes are stored in when the first access is number `a` */
    function BaseOf(a: nat, was: seq<Word>, junk: seq<Word>, offset: nat, len: nat): (base: seq<Word>)
      requires len > 0 && offset + len <= 2 * |was| && |junk| == |was|
      ensures |base| == |was|
    {
      Base(was, junk, offset, len, fate(a), fate(a + 1))
    }

    /** What a write then leaves that has got as far as `m` words */
    function PrefixOf(a: nat, was: seq<Word>, junk: seq<Word>, offset: nat, bytes: seq<Byte>, m: nat): (now: seq<Word>)
      requires |bytes| > 0 && offset + |bytes| <= 2 * |was| && |junk| == |was| && part.Comes(|was|)
      requires m <= Count(offset, |bytes|)
      ensures |now| == |was|
    {
      Placed(part, was, offset / 2, Meant(BaseOf(a, was, junk, offset, |bytes|), offset, bytes), m)
    }

    /** What a complete write then leaves */
    function ImageOf(a: nat, was: seq<Word>, junk: seq<Word>, offset: nat, bytes: seq<Byte>): (now: seq<Word>)
      requires |bytes| > 0 && offset + |bytes| <= 2 * |was| && |junk| == |was| && part.Comes(|was|)
      ensures |now| == |was|
    {
      Image(part, was, BaseOf(a, was, junk, offset, |bytes|), offset, bytes)
    }

    /** The words at the ends of the range, where bytes of theirs are to be kept, into a buffer that
        holds `junk`. */
    method FetchEnds(offset: nat, len: nat, junk: seq<Word>) returns (buff: array<Word>)
      requires len > 0 && offset + len <= 2 * words.Length && |junk| == words.Length
      modifies `accesses
      ensures fresh(buff) && buff.Length == words.Length
      ensures accesses == old(accesses) + Reads(offset, len, fate(old(accesses)))
      ensures forall i :: 0 <= i <= Last(offset, len) - offset / 2 ==>
                buff[i] == BaseOf(old(accesses), words[..], junk, offset, len)[offset / 2 + i]
    {
      hide Base;
      var first, last := offset / 2, Last(offset, len);
      buff := new Word[words.Length](i requires 0 <= i < |junk| => junk[i]);
      var ok := true;
      if offset % 2 == 1 { ok := ReadWord(first, buff, 0); }
      ghost var mid := buff[..];
      if (offset + len) % 2 == 1 && ok { ok := ReadWord(last, buff, last - first); }
      EndsGot(words[..], junk, mid, buff[..], offset, len, fate(old(accesses)), fate(old(accesses) + 1));
    }

    static lemma EndsGot(words: seq<Word>, junk: seq<Word>, mid: seq<Word>, now: seq<Word>, offset: nat, len: nat,
                         one: bool, two: bool)
      requires len > 0 && offset + len <= 2 * |words| && |junk| == |words|
      requires mid == if GotFirst(offset, one) then junk[0 := words[offset / 2]] else junk
      requires now == if GotLast(offset, len, one, two)
                      then mid[Last(offset, len) - offset / 2 := words[Last(offset, len)]] else mid
      ensures forall i :: 0 <= i <= Last(offset, len) - offset / 2 ==>
                now[i] == Base(words, junk, offset, len, one, two)[offset / 2 + i]
    {
    }

    /** What e1000_set_eeprom writes back: the bytes stored in the words they lie in. */
    method Patch(offset: nat, bytes: seq<Byte>, junk: seq<Word>) returns (buff: array<Word>)
      requires |bytes| > 0 && offset + |bytes| <= 2 * words.Length && |junk| == words.Length
      modifies `accesses
      ensures fresh(buff) && buff.Length == words.Length
      ensures accesses == old(accesses) + Reads(offset, |bytes|, fate(old(accesses)))
      ensures buff[..Count(offset, |bytes|)]
              == Meant(BaseOf(old(accesses), words[..], junk, offset, |bytes|), offset, bytes)
    {
      var first, n := offset / 2, Count(offset, |bytes|);
      ghost var base := BaseOf(accesses, words[..], junk, offset, |bytes|);
      buff := FetchEnds(offset, |bytes|, junk);
      ghost var b0 := buff[..];
      ConvertAll(buff, n);
      ghost var b1 := buff[..];
      CopyBytes(buff, offset % 2, bytes);
      ghost var b2 := buff[..];
      ConvertAll(buff, n);
      Repacked(bigEndian, base, b0, b1, b2, buff[..], offset, bytes);
    }

    /** The words of the buffer: as fetched, converted, with the bytes copied in, converted back. */
    static lemma Repacked(big: bool, base: seq<Word>, b0: seq<Word>, b1: seq<Word>, b2: seq<Word>, b3: seq<Word>,
                          offset: nat, bytes: seq<Byte>)
      requires |bytes| > 0 && offset + |bytes| <= 2 * |base|
      requires |b0| == |b1| == |b2| == |b3| && Count(offset, |bytes|) <= |b0|
      requires forall i :: 0 <= i < Count(offset, |bytes|) ==>
                 b0[i] == base[offset / 2 + i] && b1[i] == Le16(big, b0[i]) && b3[i] == Le16(big, b2[i])
      requires Copied(big, b1, b2, offset % 2, bytes)
      ensures b3[..Count(offset, |bytes|)] == Meant(base, offset, bytes)
    {
      hide Le16, Half, MeantByte, Meant, Copied, MemoryByte;
      var first, n := offset / 2, Count(offset, |bytes|);
      forall k | 0 <= k < 2 * n
        ensures Half(b3[..n][k / 2], k % 2 == 1) == MeantByte(base, offset, bytes, 2 * first + k)
      {
        CopiedAt(big, b1, b2, offset % 2, bytes, k);
        ByteKept(big, base, b0, b1, b2, b3, first, n, offset, bytes, k);
      }
      IsMeant(base, b3[..n], offset, bytes);
    }

    /** Words with the meant bytes are the meant words. */
    static lemma IsMeant(base: seq<Word>, data: seq<Word>, offset: nat, bytes: seq<Byte>)
      requires |bytes| > 0 && offset + |bytes| <= 2 * |base| && |data| == Count(offset, |bytes|)
      requires forall k :: 0 <= k < 2 * |data| ==>
                 Half(data[k / 2], k % 2 == 1) == MeantByte(base, offset, bytes, 2 * (offset / 2) + k)
      ensures data == Meant(base, offset, bytes)
    {
      forall i | 0 <= i < |data|
        ensures data[i] == Meant(base, offset, bytes)[i]
      {
        MeantAt(base, offset, bytes, i);
        assert Half(data[2 * i / 2], 2 * i % 2 == 1) == data[i] % 0x100;
        assert Half(data[(2 * i + 1) / 2], (2 * i + 1) % 2 == 1) == data[i] / 0x100;
      }
    }

    static lemma CopiedAt(big: bool, was: seq<Word>, now: seq<Word>, at: nat, bytes: seq<Byte>, k: nat)
      requires Copied(big, was, now, at, bytes) && k < 2 * |was|
      ensures MemoryByte(big, now, k) == if at <= k < at + |bytes| then bytes[k - at] else MemoryByte(big, was, k)
    {
    }

    /** One byte on its way: converted to the host's order, copied over or kept, converted back. */
    static lemma ByteKept(big: bool, base: seq<Word>, b0: seq<Word>, b1: seq<Word>, b2: seq<Word>, b3: seq<Word>,
                          first: nat, n: nat, offset: nat, bytes: seq<Byte>, k: nat)
      requires |b0| == |b1| == |b2| == |b3| && n <= |b0| && first + n <= |base| && k < 2 * n && first == offset / 2
      requires b0[k / 2] == base[first + k / 2]
      requires b1[k / 2] == Le16(big, b0[k / 2]) && b3[k / 2] == Le16(big, b2[k / 2])
      requires MemoryByte(big, b2, k)
               == if offset % 2 <= k < offset % 2 + |bytes| then bytes[k - offset % 2] else MemoryByte(big, b1, k)
      ensures Half(b3[k / 2], k % 2 == 1) == MeantByte(base, offset, bytes, 2 * first + k)
    {
      Le16Memory(big, b0[k / 2], k);
      Le16Memory(big, Le16(big, b2[k / 2]), k);
      Le16Memory(big, b2[k / 2], k);
      Split(first, 0, k);
      assert ByteOf(b3, k) == MemoryByte(big, b2, k);
      assert MemoryByte(big, b1, k) == ByteOf(b0, k);
    }

    /** The number of the write */
    function WriteOf(a: nat, offset: nat, len: nat): nat { a + Reads(offset, len, fate(a)) }

    /** e1000_set_eeprom, with the buffer holding `junk` before. Its caller has checked that the
        range lies in the image. What it reports depends on the write alone. Reported a success,
        the words meant are written where the part puts them, and the checksum word is recomputed
        for a range that begins at or below it. */
    method SetEeprom(offset: nat, bytes: seq<Byte>, magicOk: bool, memory: bool, junk: seq<Word>) returns (ret: Status)
      requires Valid() && offset + |bytes| <= 2 * words.Length && |junk| == words.Length
      modifies words, `accesses
      ensures bytes == [] <==> ret.Unsupported?
      ensures bytes != [] && !magicOk <==> ret.WrongMagic?
      ensures bytes != [] && magicOk && !memory <==> ret.NoMemory?
      ensures bytes != [] && magicOk && memory ==>
                ret == if fate(WriteOf(old(accesses), offset, |bytes|)) then Success else Failed
      ensures ret.Unsupported? || ret.WrongMagic? || ret.NoMemory? ==> words[..] == old(words[..])
      ensures ret.Success? ==>
                SameBut(words[..], ImageOf(old(accesses), old(words[..]), junk, offset, bytes),
                        offset / 2 <= EEPROM_CHECKSUM_REG)
      ensures ret.Success? && !part.Straddles(offset / 2, Count(offset, |bytes|)) ==>
                Stored(BaseOf(old(accesses), old(words[..]), junk, offset, |bytes|), words[..],
                       offset, bytes, offset / 2 <= EEPROM_CHECKSUM_REG)
      ensures ret.Success? && offset / 2 <= EEPROM_CHECKSUM_REG ==>
                || ChecksumValid(words[..])
                || (&& !Through(WriteOf(old(accesses), offset, |bytes|) + 1, EEPROM_CHECKSUM_REG + 1)
                    && words[..] == ImageOf(old(accesses), old(words[..]), junk, offset, bytes))
      ensures ret.Failed? ==>
                exists m ::
                  && 0 <= m <= Count(offset, |bytes|)
                  && words[..] == PrefixOf(old(accesses), old(words[..]), junk, offset, bytes, m)
      ensures bytes != [] && offset / 2 > EEPROM_CHECKSUM_REG && !part.Straddles(offset / 2, Count(offset, |bytes|)) ==>
                ChecksumValid(words[..]) == old(ChecksumValid(words[..]))
    {
      if |bytes| == 0 { return Unsupported; }
      if !magicOk { return WrongMagic; }
      if !memory { return NoMemory; }
      ghost var base, was := BaseOf(accesses, words[..], junk, offset, |bytes|), words[..];
      var first, n := offset / 2, Count(offset, |bytes|);
      var buff := Patch(offset, bytes, junk);
      var ok;
      ghost var m;
      ok, m := WriteEeprom(first, n, buff);
      ghost var mid, data := words[..], Meant(base, offset, bytes);
      SamePlaced(part, was, first, buff[..], data, m);
      assert mid == PrefixOf(old(accesses), was, junk, offset, bytes, m);
      if first > EEPROM_CHECKSUM_REG && !part.Straddles(first, n) {
        PlacedInRow(part, was, first, data, m, n);
        SumSame(mid, was, EEPROM_CHECKSUM_REG + 1);
      }
      if ok && first <= EEPROM_CHECKSUM_REG {
        var updated := UpdateChecksum();
      }
      if ok && !part.Straddles(first, n) {
        ImageStored(part, was, base, words[..], offset, bytes, first <= EEPROM_CHECKSUM_REG);
      }
      ret := if ok then Success else Failed;
    }

    static lemma {:induction false} SamePlaced(part: Part, was: seq<Word>, first: nat, buff: seq<Word>,
                                               data: seq<Word>, m: nat)
      requires m <= |data| <= |buff| && buff[..|data|] == data && first + m <= |was| && part.Comes(|was|)
      ensures Placed(part, was, first, buff, m) == Placed(part, was, first, data, m)
    {
      if m == 0 {
      } else {
        SamePlaced(part, was, first, buff, data, m - 1);
      }
    }

    /** What is set is got back, outside the checksum word and but for a straddling range, whatever
        failed on the way. */
    method SetThenGet(offset: nat, bytes: seq<Byte>, memory: bool, junk: seq<Word>)
      returns (stored: Status, get: Status, back: seq<Byte>)
      requires Valid() && offset + |bytes| <= 2 * words.Length && |junk| == words.Length
      modifies words, `accesses
      ensures bytes != [] && !part.Straddles(offset / 2, Count(offset, |bytes|)) && stored.Success? && get.Success? ==>
                && |back| == |bytes|
                && forall k :: 0 <= k < |bytes| && (offset + k) / 2 != EEPROM_CHECKSUM_REG ==> back[k] == bytes[k]
    {
      ghost var base := if |bytes| > 0 then BaseOf(accesses, words[..], junk, offset, |bytes|) else [];
      stored := SetEeprom(offset, bytes, true, memory, junk);
      get, back := GetEeprom(offset, |bytes|, memory);
      if stored.Success? && get.Success? && !part.Straddles(offset / 2, Count(offset, |bytes|)) {
        forall k | 0 <= k < |bytes| && (offset + k) / 2 != EEPROM_CHECKSUM_REG
          ensures back[k] == bytes[k]
        {
          assert BytesStored(base, words[..], offset, bytes, offset + k);
        }
      }
    }
  }

  // ----- When a reported success can be relied on -----

  /** Whichever reads fail, whatever the buffer held and whatever is stored: a reported success
      stores the bytes and leaves every other byte as it was, but for a checksum word that is
      recomputed. */
  ghost predicate AlwaysExact(part: Part, size: nat, offset: nat, len: nat)
    requires len > 0 && offset + len <= 2 * size && part.Comes(size)
  {
    forall was: seq<Word>, now: seq<Word>, junk: seq<Word>, bytes: seq<Byte>, one: bool, two: bool ::
      Outcome(part, size, offset, len, was, now, junk, bytes, one, two) ==>
        Stored(was, now, offset, bytes, offset / 2 <= EEPROM_CHECKSUM_REG)
  }

  /** A successful write of `bytes` makes `now` of `was`, when the fates of the reads are `one` and
      `two` and the buffer held `junk`. */
  ghost predicate Outcome(part: Part, size: nat, offset: nat, len: nat, was: seq<Word>, now: seq<Word>,
                          junk: seq<Word>, bytes: seq<Byte>, one: bool, two: bool)
    requires len > 0 && offset + len <= 2 * size && part.Comes(size)
  {
    && |was| == |now| == |junk| == size && |bytes| == len
    && SameBut(now, Image(part, was, Base(was, junk, offset, len, one, two), offset, bytes),
               offset / 2 <= EEPROM_CHECKSUM_REG)
  }

  /** The range keeps no byte of its end words, unless that word is the recomputed one. */
  predicate WholeWords(offset: nat, len: nat)
    requires len > 0
  {
    && (offset % 2 == 0 || offset / 2 == EEPROM_CHECKSUM_REG)
    && ((offset + len) % 2 == 0 || Last(offset, len) == EEPROM_CHECKSUM_REG)
  }

  lemma BaseElsewhere(was: seq<Word>, junk: seq<Word>, offset: nat, len: nat, one: bool, two: bool)
    requires len > 0 && offset + len <= 2 * |was| && |junk| == |was|
    ensures forall i :: 0 <= i < |was| && !(offset / 2 <= i <= Last(offset, len)) ==>
              Base(was, junk, offset, len, one, two)[i] == was[i]
  {
  }

  lemma WholeWordsExact(was: seq<Word>, now: seq<Word>, junk: seq<Word>, offset: nat, bytes: seq<Byte>,
                        one: bool, two: bool, recomputed: bool)
    requires |was| == |now| == |junk| && |bytes| > 0 && offset + |bytes| <= 2 * |was| && WholeWords(offset, |bytes|)
    requires recomputed == (offset / 2 <= EEPROM_CHECKSUM_REG)
    requires Stored(Base(was, junk, offset, |bytes|, one, two), now, offset, bytes, recomputed)
    ensures Stored(was, now, offset, bytes, recomputed)
  {
    var base := Base(was, junk, offset, |bytes|, one, two);
    forall k | 0 <= k < 2 * |was| && !(recomputed && k / 2 == EEPROM_CHECKSUM_REG)
      ensures BytesStored(was, now, offset, bytes, k)
    {
      assert BytesStored(base, now, offset, bytes, k);
      if !(offset <= k < offset + |bytes|) {
        assert k / 2 < offset / 2 || k / 2 > Last(offset, |bytes|);
      }
    }
  }

  /** With a byte of an end word to keep, in a range that does not straddle: zeros, a buffer of
      ones, and a read that fails. */
  lemma KeptByteLost(part: Part, size: nat, offset: nat, len: nat)
    returns (was: seq<Word>, now: seq<Word>, junk: seq<Word>, bytes: seq<Byte>)
    requires len > 0 && offset + len <= 2 * size && part.Comes(size)
    requires !WholeWords(offset, len) && !part.Straddles(offset / 2, Count(offset, len))
    ensures Outcome(part, size, offset, len, was, now, junk, bytes, false, false)
    ensures !Stored(was, now, offset, bytes, offset / 2 <= EEPROM_CHECKSUM_REG)
  {
    was, junk, bytes := seq(size, _ => 0), seq(size, _ => 0xFFFF), seq(len, _ => 0xFF);
    var base := Base(was, junk, offset, len, false, false);
    now := Image(part, was, base, offset, bytes);
    BaseElsewhere(was, junk, offset, len, false, false);
    ImageStored(part, was, base, now, offset, bytes, false);
    var lost := if offset % 2 == 1 && offset / 2 != EEPROM_CHECKSUM_REG then offset - 1 else offset + len;
    NothingGot(was, junk, offset, len, lost);
    assert BytesStored(base, now, offset, bytes, lost);
    assert !BytesStored(was, now, offset, bytes, lost);
  }

  /** A kept byte that was not got is what the buffer held. */
  lemma NothingGot(was: seq<Word>, junk: seq<Word>, offset: nat, len: nat, k: nat)
    requires len > 0 && offset + len <= 2 * |was| && |junk| == |was| && offset / 2 <= k / 2 <= Last(offset, len)
    ensures Base(was, junk, offset, len, false, false)[k / 2] == junk[k / 2 - offset / 2]
  {
    assert !GotFirst(offset, false) && !GotLast(offset, len, false, false);
  }

  /** A straddling range: word 128 keeps its zeros. */
  lemma StraddlingLost(part: Part, size: nat, offset: nat, len: nat, junk: seq<Word>, one: bool, two: bool)
    returns (was: seq<Word>, now: seq<Word>, bytes: seq<Byte>)
    requires len > 0 && offset + len <= 2 * size == 2 * |junk| && part.Comes(size)
    requires part.Straddles(offset / 2, Count(offset, len))
    ensures Outcome(part, size, offset, len, was, now, junk, bytes, one, two)
    ensures !Stored(was, now, offset, bytes, offset / 2 <= EEPROM_CHECKSUM_REG)
  {
    was, bytes := seq(size, _ => 0), seq(len, _ => 0xFF);
    var base := Base(was, junk, offset, len, one, two);
    now := Image(part, was, base, offset, bytes);
    PlacedBelow(part, was, offset / 2, Meant(base, offset, bytes), Count(offset, len), 0x80);
    assert now[0x80] == 0;
    assert !BytesStored(was, now, offset, bytes, 0x100);
  }

  /** A range begins in the middle of a word whose read fails: the byte before it becomes what the
      buffer held in its first. */
  lemma FirstByteLost(part: Part, size: nat, offset: nat, was: seq<Word>, now: seq<Word>, junk: seq<Word>,
                      bytes: seq<Byte>, two: bool)
    requires bytes != [] && offset + |bytes| <= 2 * size && part.Comes(size)
    requires offset % 2 == 1 && offset / 2 != EEPROM_CHECKSUM_REG
    requires !part.Straddles(offset / 2, Count(offset, |bytes|))
    requires Outcome(part, size, offset, |bytes|, was, now, junk, bytes, false, two)
    ensures ByteOf(now, offset - 1) == ByteOf(junk, 0)
  {
    var base := Base(was, junk, offset, |bytes|, false, two);
    FirstNotGot(was, junk, offset, |bytes|, two);
    BaseElsewhere(was, junk, offset, |bytes|, false, two);
    hide Base, Image, SameBut;
    ImageStored(part, was, base, now, offset, bytes, offset / 2 <= EEPROM_CHECKSUM_REG);
    assert BytesStored(base, now, offset, bytes, offset - 1);
  }

  lemma FirstNotGot(was: seq<Word>, junk: seq<Word>, offset: nat, len: nat, two: bool)
    requires len > 0 && offset + len <= 2 * |was| && |junk| == |was| && offset % 2 == 1
    ensures ByteOf(Base(was, junk, offset, len, false, two), offset - 1) == ByteOf(junk, 0)
  {
    assert !GotFirst(offset, false) && !GotLast(offset, len, false, two);
    var base, w := Base(was, junk, offset, len, false, two), offset / 2;
    assert (offset - 1) / 2 == w && (offset - 1) % 2 == 0;
    assert offset / 2 <= w <= Last(offset, len) && base[w] == junk[w - offset / 2];
  }

  /** Four whole words at word 126 of a chip with one address byte and 256 words, every access
      coming through: the last two land in words 0 and 1, and words 128 and 129 stay. */
  lemma StraddleExample(was: seq<Word>, now: seq<Word>, junk: seq<Word>, bytes: seq<Byte>, one: bool, two: bool)
    requires Outcome(Spi(false), 0x100, 252, 8, was, now, junk, bytes, one, two)
    ensures WholeWords(252, 8) && now[128] == was[128] && now[129] == was[129]
    ensures forall k :: 0 <= k < 4 ==> ByteOf(now, k) == bytes[4 + k] && ByteOf(now, 252 + k) == bytes[k]
  {
    var base := Base(was, junk, 252, 8, one, two);
    var data := Meant(base, 252, bytes);
    FourPlaced(was, data);
    forall k | 0 <= k < 8
      ensures Half(data[k / 2], k % 2 == 1) == bytes[k]
    {
      MeantHalves(base, 252, bytes, 252 + k);
    }
    forall k | 0 <= k < 4
      ensures ByteOf(now, k) == bytes[4 + k] && ByteOf(now, 252 + k) == bytes[k]
    {
      assert Half(data[(4 + k) / 2], (4 + k) % 2 == 1) == bytes[4 + k];
    }
  }

  lemma FourPlaced(was: seq<Word>, data: seq<Word>)
    requires |was| == 0x100 && |data| == 4
    ensures Placed(Spi(false), was, 126, data, 4)
            == was[126 := data[0]][127 := data[1]][0 := data[2]][1 := data[3]]
  {
    assert Placed(Spi(false), was, 126, data, 1) == Placed(Spi(false), was, 126, data, 0)[126 := data[0]];
    assert Placed(Spi(false), was, 126, data, 2) == Placed(Spi(false), was, 126, data, 1)[127 := data[1]];
    assert Placed(Spi(false), was, 126, data, 3) == Placed(Spi(false), was, 126, data, 2)[0 := data[2]];
    assert Placed(Spi(false), was, 126, data, 4) == Placed(Spi(false), was, 126, data, 3)[1 := data[3]];
  }

  /** Setting bytes is exact whatever reads fail if and only if the range keeps no byte of its end
      words but of word 0x3F, and does not straddle word 128 of a chip with one address byte. */
  lemma SetIsExact(part: Part, size: nat, offset: nat, len: nat)
    requires len > 0 && offset + len <= 2 * size && part.Comes(size)
    ensures AlwaysExact(part, size, offset, len) <==>
            WholeWords(offset, len) && !part.Straddles(offset / 2, Count(offset, len))
  {
    hide Image, Base, Stored;
    var recomputed := offset / 2 <= EEPROM_CHECKSUM_REG;
    if part.Straddles(offset / 2, Count(offset, len)) {
      var was, now, bytes := StraddlingLost(part, size, offset, len, seq(size, _ => 0), true, true);
    } else if WholeWords(offset, len) {
      forall was: seq<Word>, now: seq<Word>, junk: seq<Word>, bytes: seq<Byte>, one: bool, two: bool
        | Outcome(part, size, offset, len, was, now, junk, bytes, one, two)
        ensures Stored(was, now, offset, bytes, recomputed)
      {
        BaseElsewhere(was, junk, offset, len, one, two);
        ImageStored(part, was, Base(was, junk, offset, len, one, two), now, offset, bytes, recomputed);
        WholeWordsExact(was, now, junk, offset, bytes, one, two, recomputed);
      }
    } else {
      var was, now, junk, bytes := KeptByteLost(part, size, offset, len);
    }
  }
}
