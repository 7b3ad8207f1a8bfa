/**
  Writing a range of the logical eFuse map (core/rtw_efuse.c): the range is cut into
  eight-byte sections, and each section with a change becomes one packet that enables
  exactly the two-byte words that change.  A word is enabled by a zero bit.
 */
module Efuse {

  import opened Bytes

  const SECTION := 8              // PGPKT_DATA_SIZE
  const NO_WORDS: bv8 := 0xF

  datatype Packet = Packet(offset: nat, wordEn: bv8, data: seq<byte>)

  function Bit(w: nat): bv8
    requires w < 4
  {
    if w == 0 then 1 else if w == 1 then 2 else if w == 2 then 4 else 8
  }

  predicate Enabled(wordEn: bv8, w: nat)
    requires w < 4
  {
    wordEn & Bit(w) == 0
  }

  function Enable(wordEn: bv8, w: nat): bv8
    requires w < 4
  {
    wordEn & !Bit(w)
  }

  lemma EnableWord(wordEn: bv8, w: nat)
    requires w < 4
    ensures forall v :: 0 <= v < 4 ==> (Enabled(Enable(wordEn, w), v) <==> v == w || Enabled(wordEn, v))
    ensures Enable(wordEn, w) & 0xF0 == wordEn & 0xF0
  {
  }

  lemma NoWords(wordEn: bv8)
    requires wordEn & 0xF0 == 0
    ensures wordEn == NO_WORDS <==> forall w :: 0 <= w < 4 ==> !Enabled(wordEn, w)
  {
    assert wordEn != NO_WORDS ==> Enabled(wordEn, 0) || Enabled(wordEn, 1) || Enabled(wordEn, 2) || Enabled(wordEn, 3);
  }

  // ---------------------------------------------------------------------------
  // What a packet does to the map
  // ---------------------------------------------------------------------------

  /** efuse_WordEnableDataRead: the enabled words come from the packet. */
  function Merge(wordEn: bv8, source: seq<byte>, target: seq<byte>): seq<byte>
    requires |source| == |target| == SECTION
  {
    seq(SECTION, b requires 0 <= b < SECTION => if Enabled(wordEn, b / 2) then source[b] else target[b])
  }

  method WordEnableDataRead(wordEn: bv8, source: array<byte>, target: array<byte>)
    requires source.Length >= SECTION && target.Length >= SECTION && source != target
    modifies target
    ensures target[..SECTION] == Merge(wordEn, source[..SECTION], old(target[..SECTION]))
    ensures target[SECTION..] == old(target[SECTION..])
  {
    if wordEn & 1 == 0 {
      target[0] := source[0];
      target[1] := source[1];
    }
    if wordEn & 2 == 0 {
      target[2] := source[2];
      target[3] := source[3];
    }
    if wordEn & 4 == 0 {
      target[4] := source[4];
      target[5] := source[5];
    }
    if wordEn & 8 == 0 {
      target[6] := source[6];
      target[7] := source[7];
    }
  }

  /** The packet applied to its own section of the map, byte by byte. */
  ghost function Apply(m: seq<byte>, p: Packet): (r: seq<byte>)
    requires |p.data| == SECTION
    ensures |r| == |m|
  {
    seq(|m|, b requires 0 <= b < |m| =>
      if b / SECTION == p.offset && Enabled(p.wordEn, b % SECTION / 2) then p.data[b % SECTION] else m[b])
  }

  /** On a whole section that is what efuse_WordEnableDataRead computes. */
  lemma ApplyMerges(m: seq<byte>, p: Packet)
    requires |p.data| == SECTION && p.offset * SECTION + SECTION <= |m|
    ensures
      var lo, hi := p.offset * SECTION, p.offset * SECTION + SECTION;
      Apply(m, p) == m[..lo] + Merge(p.wordEn, p.data, m[lo..hi]) + m[hi..]
  {
    var lo, hi := p.offset * SECTION, p.offset * SECTION + SECTION;
    var r := m[..lo] + Merge(p.wordEn, p.data, m[lo..hi]) + m[hi..];
    forall b | 0 <= b < |m| ensures Apply(m, p)[b] == r[b] {
      if lo <= b < hi {
        assert b / SECTION == p.offset && b % SECTION == b - lo;
      } else {
        assert b / SECTION != p.offset;
      }
    }
  }

  ghost predicate Packets(ps: seq<Packet>) {
    forall p :: p in ps ==> |p.data| == SECTION
  }

  ghost function ApplyAll(m: seq<byte>, ps: seq<Packet>): (r: seq<byte>)
    requires Packets(ps)
    ensures |r| == |m|
    decreases |ps|
  {
    if ps == [] then m else Apply(ApplyAll(m, ps[..|ps| - 1]), ps[|ps| - 1])
  }

  /** The map with its bytes from `addr` on replaced by the first `n` bytes of `data`. */
  function Replaced(m: seq<byte>, addr: nat, data: seq<byte>, n: nat): (r: seq<byte>)
    requires n <= |data| && addr + n <= |m|
    ensures |r| == |m|
  {
    m[..addr] + data[..n] + m[addr + n..]
  }

  lemma ReplacedAt(m: seq<byte>, addr: nat, data: seq<byte>, n: nat, b: nat)
    requires n <= |data| && addr + n <= |m| && b < |m|
    ensures Replaced(m, addr, data, n)[b] == if addr <= b < addr + n then data[b - addr] else m[b]
  {
  }

  /** Byte `b` lies in section b / SECTION. */
  lemma InSection(b: nat, offset: nat)
    ensures b / SECTION == offset <==> offset * SECTION <= b < offset * SECTION + SECTION
  {
  }

  // ---------------------------------------------------------------------------
  // One section
  // ---------------------------------------------------------------------------

  ghost predicate Fits(m: seq<byte>, addr: nat, data: seq<byte>) {
    (data == [] ==> addr % 2 == 0) && addr + |data| <= |m| && |m| % 2 == 0
  }

  /** Word `w` of section `offset` is enabled exactly when replacing `n` bytes changes it, and then
      carries what it changes to. */
  ghost predicate WordRight(m: seq<byte>, t: seq<byte>, offset: nat, wordEn: bv8, nd: seq<byte>, w: nat)
    requires |m| == |t| && |nd| >= SECTION && w < 4
  {
    var b := offset * SECTION + 2 * w;
    if b + 1 < |m| then
      && (Enabled(wordEn, w) <==> t[b] != m[b] || t[b + 1] != m[b + 1])
      && (Enabled(wordEn, w) ==> nd[2 * w] == t[b] && nd[2 * w + 1] == t[b + 1])
    else !Enabled(wordEn, w)
  }

  ghost predicate SectionRight(m: seq<byte>, t: seq<byte>, offset: nat, wordEn: bv8, nd: seq<byte>)
    requires |m| == |t| && |nd| >= SECTION
  {
    wordEn & 0xF0 == 0 && forall w :: 0 <= w < 4 ==> WordRight(m, t, offset, wordEn, nd, w)
  }

  /** A section whose packet is right brings the map from what was written before it to what is
      written after it. */
  lemma SectionDone(m: seq<byte>, t0: seq<byte>, t: seq<byte>, offset: nat, wordEn: bv8, nd: seq<byte>)
    requires |m| == |t0| == |t| && |m| % 2 == 0 && |nd| == SECTION
    requires SectionRight(m, t, offset, wordEn, nd)
    requires forall b :: 0 <= b < |m| && b / SECTION != offset ==> t[b] == t0[b]
    requires forall b :: 0 <= b < |m| && b / SECTION == offset ==> t0[b] == m[b]
    ensures Apply(t0, Packet(offset, wordEn, nd)) == t
    ensures wordEn == NO_WORDS ==> t == t0
  {
    forall b | 0 <= b < |m| ensures Apply(t0, Packet(offset, wordEn, nd))[b] == t[b]
    {
      if b / SECTION == offset {
        var w := b % SECTION / 2;
        assert WordRight(m, t, offset, wordEn, nd, w);
        assert b == offset * SECTION + b % SECTION && 2 * w <= b % SECTION <= 2 * w + 1;
      }
    }
    if wordEn == NO_WORDS {
      NoWords(wordEn);
    }
  }

  /** Replacing up to the end of the word at `p` leaves the word at `b` as it was. */
  lemma OtherWord(m: seq<byte>, addr: nat, data: seq<byte>, n: nat, n2: nat, b: nat, p: nat)
    requires n <= n2 <= |data| && addr + n2 <= |m| && b + 1 < |m|
    requires p <= addr + n && addr + n2 <= p + 2 && (b + 1 < p || p + 2 <= b)
    requires addr + n == p || n == 0
    ensures Replaced(m, addr, data, n2)[b] == Replaced(m, addr, data, n)[b]
    ensures Replaced(m, addr, data, n2)[b + 1] == Replaced(m, addr, data, n)[b + 1]
  {
    hide Replaced;
    ReplacedAt(m, addr, data, n, b);
    ReplacedAt(m, addr, data, n2, b);
    ReplacedAt(m, addr, data, n, b + 1);
    ReplacedAt(m, addr, data, n2, b + 1);
  }

  /** Advancing through word `w` of the section, from `n` bytes replaced to `n2`. */
  lemma WordDone(m: seq<byte>, addr: nat, data: seq<byte>, n: nat, n2: nat, offset: nat, w: nat,
                 wordEn: bv8, nd: seq<byte>, wordEn2: bv8, nd2: seq<byte>)
    requires Fits(m, addr, data) && n <= n2 <= |data| && w < 4 && |nd| == |nd2| == SECTION
    requires offset * SECTION + 2 * w <= addr + n && addr + n2 <= offset * SECTION + 2 * w + 2
    requires n < n2
    requires SectionRight(m, Replaced(m, addr, data, n), offset, wordEn, nd)
    requires forall v :: 0 <= v < SECTION && v / 2 != w ==> nd2[v] == nd[v]
    requires offset * SECTION + 2 * w + 1 < |m|
    requires
      var b, t := offset * SECTION + 2 * w, Replaced(m, addr, data, n2);
      if t[b] == m[b] && t[b + 1] == m[b + 1] then wordEn2 == wordEn && nd2 == nd
      else wordEn2 == Enable(wordEn, w) && nd2[2 * w] == t[b] && nd2[2 * w + 1] == t[b + 1]
    requires addr + n == offset * SECTION + 2 * w || n == 0
    ensures SectionRight(m, Replaced(m, addr, data, n2), offset, wordEn2, nd2)
  {
    hide Enabled, Enable, Replaced;
    var t, t2 := Replaced(m, addr, data, n), Replaced(m, addr, data, n2);
    EnableWord(wordEn, w);
    forall v | 0 <= v < 4 ensures WordRight(m, t2, offset, wordEn2, nd2, v) {
      assert WordRight(m, t, offset, wordEn, nd, v);
      var b := offset * SECTION + 2 * v;
      if b + 1 < |m| && v != w {
        OtherWord(m, addr, data, n, n2, b, offset * SECTION + 2 * w);
        assert (2 * v) / 2 != w && (2 * v + 1) / 2 != w;
      } else if v == w {
        ReplacedAt(m, addr, data, n, b);
        ReplacedAt(m, addr, data, n, b + 1);
      }
    }
  }

  // ---------------------------------------------------------------------------
  // rtw_efuse_map_write
  // ---------------------------------------------------------------------------

  /** Both bytes of the word at `i` of the packet. */
  method PutWord(nd: array<byte>, i: nat, x: byte, y: byte)
    requires nd.Length == SECTION + 1 && i % 2 == 0 && i < SECTION
    modifies nd
    ensures nd[i] == x && nd[i + 1] == y
    ensures forall v :: 0 <= v < SECTION && v / 2 != i / 2 ==> nd[..SECTION][v] == old(nd[..SECTION])[v]
  {
    nd[i] := x;
    nd[i + 1] := y;
    forall v | 0 <= v < SECTION && v / 2 != i / 2 ensures nd[v] == old(nd[v]) {
      assert v != i && v != i + 1;
    }
  }

  /** The word at `i` becomes (x, y), if that changes it. */
  method FillWord(m: seq<byte>, addr: nat, data: seq<byte>, nd: array<byte>, offset: nat,
                  i: nat, idx: nat, n: nat, x: byte, y: byte, wordEn: bv8)
    returns (wordEn2: bv8)
    requires Fits(m, addr, data) && nd.Length == SECTION + 1
    requires i < SECTION && i % 2 == 0 && 1 <= n <= 2 && idx + n <= |data| && addr + idx == offset * SECTION + i
    requires addr + idx + 1 < |m|
    requires Replaced(m, addr, data, idx + n)[addr + idx] == x && Replaced(m, addr, data, idx + n)[addr + idx + 1] == y
    requires SectionRight(m, Replaced(m, addr, data, idx), offset, wordEn, nd[..SECTION])
    modifies nd
    ensures SectionRight(m, Replaced(m, addr, data, idx + n), offset, wordEn2, nd[..SECTION])
  {
    hide SectionRight, Enable, Replaced;
    ghost var nd0, w := nd[..SECTION], i / 2;
    assert 2 * w == i;
    wordEn2 := wordEn;
    if x != m[addr + idx] || y != m[addr + idx + 1] {
      wordEn2 := Enable(wordEn, i / 2);
      PutWord(nd, i, x, y);
    }
    WordDone(m, addr, data, idx, idx + n, offset, w, wordEn, nd0, wordEn2, nd[..SECTION]);
  }

  /** The for loop: fills the section's packet word by word, until the section or the data ends. */
  method FillSection(m: seq<byte>, addr: nat, data: seq<byte>, nd: array<byte>, offset: nat,
                     i0: nat, idx0: nat, wordEn0: bv8)
    returns (idx: nat, wordEn: bv8)
    requires Fits(m, addr, data) && nd.Length == SECTION + 1
    requires i0 <= SECTION && i0 % 2 == 0 && idx0 <= |data| && addr + idx0 == offset * SECTION + i0
    requires SectionRight(m, Replaced(m, addr, data, idx0), offset, wordEn0, nd[..SECTION])
    modifies nd
    ensures idx0 <= idx <= |data|
    ensures idx == |data| || addr + idx == offset * SECTION + SECTION
    ensures addr + idx <= offset * SECTION + SECTION
    ensures idx == idx0 ==> wordEn == wordEn0
    ensures SectionRight(m, Replaced(m, addr, data, idx), offset, wordEn, nd[..SECTION])
  {
    hide SectionRight, Enable, Replaced;
    var i, cnts := i0, |data|;
    idx, wordEn := idx0, wordEn0;
    while i < SECTION
      invariant i0 <= i <= SECTION && i % 2 == 0
      invariant idx0 <= idx <= cnts && addr + idx == offset * SECTION + i
      invariant idx == idx0 ==> wordEn == wordEn0
      invariant SectionRight(m, Replaced(m, addr, data, idx), offset, wordEn, nd[..SECTION])
    {
      if cnts == idx {
        break;
      }
      EvenPlace(addr, idx, offset, i);
      if cnts - idx == 1 {
        // The packet's word is completed with the byte behind the data.
        ReplacedWord(m, addr, data, idx, idx + 1, i);
        wordEn := FillWord(m, addr, data, nd, offset, i, idx, 1, data[idx], m[addr + idx + 1], wordEn);
        idx := idx + 1;
        break;
      } else {
        ReplacedWord(m, addr, data, idx, idx + 2, i);
        wordEn := FillWord(m, addr, data, nd, offset, i, idx, 2, data[idx], data[idx + 1], wordEn);
        idx := idx + 2;
      }
      i := i + 2;
      if idx == cnts {
        break;
      }
    }
  }

  lemma EvenPlace(addr: nat, idx: nat, offset: nat, i: nat)
    requires addr + idx == offset * SECTION + i && i % 2 == 0
    ensures (addr + idx) % 2 == 0
  {
  }

  lemma ReplacedWord(m: seq<byte>, addr: nat, data: seq<byte>, n: nat, n2: nat, i: nat)
    requires Fits(m, addr, data) && n < n2 <= |data| && n2 <= n + 2 && (addr + n) % 2 == 0
    ensures addr + n + 1 < |m|
    ensures Replaced(m, addr, data, n2)[addr + n] == data[n]
    ensures Replaced(m, addr, data, n2)[addr + n + 1] == if n2 == n + 2 then data[n + 1] else m[addr + n + 1]
  {
  }

  /** The packets bring the map to its first `n` bytes replaced; each names a different section, in
      order, and enables exactly the words that the whole write changes. */
  ghost predicate Written(m: seq<byte>, addr: nat, data: seq<byte>, ps: seq<Packet>, n: nat)
    requires Fits(m, addr, data) && n <= |data|
  {
    && Packets(ps)
    && ApplyAll(m, ps) == Replaced(m, addr, data, n)
    && (forall i, j :: 0 <= i < j < |ps| ==> ps[i].offset < ps[j].offset)
    && (forall i :: 0 <= i < |ps| ==>
          && ps[i].wordEn != NO_WORDS && ps[i].offset * SECTION < addr + n
          && SectionRight(m, Replaced(m, addr, data, n), ps[i].offset, ps[i].wordEn, ps[i].data))
  }

  /** Writing what is there already burns nothing: no packet, whatever the range. */
  lemma RewriteIsSilent(m: seq<byte>, addr: nat, data: seq<byte>, ps: seq<Packet>)
    requires Fits(m, addr, data) && Written(m, addr, data, ps, |data|)
    requires m == Replaced(m, addr, data, |data|)
    ensures ps == []
  {
    if ps != [] {
      var p := ps[0];
      forall w | 0 <= w < 4 ensures !Enabled(p.wordEn, w) {
        assert WordRight(m, m, p.offset, p.wordEn, p.data, w);
      }
      NoWords(p.wordEn);
      assert false;
    }
  }

  /** Replacing more bytes beyond a section does not change what is right for it. */
  lemma RightStays(m: seq<byte>, addr: nat, data: seq<byte>, n: nat, n2: nat, p: Packet)
    requires Fits(m, addr, data) && n <= n2 <= |data| && |p.data| == SECTION
    requires p.offset * SECTION + SECTION <= addr + n
    requires SectionRight(m, Replaced(m, addr, data, n), p.offset, p.wordEn, p.data)
    ensures SectionRight(m, Replaced(m, addr, data, n2), p.offset, p.wordEn, p.data)
  {
    hide Enabled, Replaced;
    var t, t2 := Replaced(m, addr, data, n), Replaced(m, addr, data, n2);
    forall w | 0 <= w < 4 ensures WordRight(m, t2, p.offset, p.wordEn, p.data, w) {
      assert WordRight(m, t, p.offset, p.wordEn, p.data, w);
      var b := p.offset * SECTION + 2 * w;
      ReplacedAt(m, addr, data, n, b);
      ReplacedAt(m, addr, data, n2, b);
      ReplacedAt(m, addr, data, n, b + 1);
      ReplacedAt(m, addr, data, n2, b + 1);
    }
  }

  /** What one more section adds to the packets. */
  lemma SectionWritten(m: seq<byte>, addr: nat, data: seq<byte>, ps: seq<Packet>, n: nat, n2: nat,
                       offset: nat, wordEn: bv8, nd: seq<byte>)
    requires Fits(m, addr, data) && n <= n2 <= |data| && |nd| == SECTION
    requires Written(m, addr, data, ps, n)
    requires n == 0 || addr + n == offset * SECTION
    requires offset * SECTION <= addr + n && addr + n2 <= offset * SECTION + SECTION && n < n2
    requires n == 0 ==> ps == []
    requires SectionRight(m, Replaced(m, addr, data, n2), offset, wordEn, nd)
    ensures Written(m, addr, data, if wordEn == NO_WORDS then ps else ps + [Packet(offset, wordEn, nd)], n2)
  {
    hide Enabled, SectionRight, Replaced, Apply, ApplyAll;
    var t0, t := Replaced(m, addr, data, n), Replaced(m, addr, data, n2);
    SectionChanges(m, addr, data, n, n2, offset);
    SectionDone(m, t0, t, offset, wordEn, nd);
    forall i | 0 <= i < |ps|
      ensures SectionRight(m, t, ps[i].offset, ps[i].wordEn, ps[i].data) && ps[i].offset < offset
    {
      assert ps[i].offset * SECTION < addr + n == offset * SECTION;
      RightStays(m, addr, data, n, n2, ps[i]);
    }
    if wordEn != NO_WORDS {
      ApplyOneMore(m, ps, Packet(offset, wordEn, nd));
    }
  }

  lemma ApplyOneMore(m: seq<byte>, ps: seq<Packet>, p: Packet)
    requires Packets(ps) && |p.data| == SECTION
    ensures Packets(ps + [p]) && ApplyAll(m, ps + [p]) == Apply(ApplyAll(m, ps), p)
  {
    assert (ps + [p])[..|ps|] == ps;
  }

  /** Going on through section `offset` changes that section alone, and leaves it as it was before. */
  lemma SectionChanges(m: seq<byte>, addr: nat, data: seq<byte>, n: nat, n2: nat, offset: nat)
    requires n <= n2 <= |data| && addr + n2 <= |m| && (n == 0 || addr + n == offset * SECTION)
    requires offset * SECTION <= addr + n && addr + n2 <= offset * SECTION + SECTION
    ensures
      var t0, t := Replaced(m, addr, data, n), Replaced(m, addr, data, n2);
      && (forall b :: 0 <= b < |m| && b / SECTION != offset ==> t[b] == t0[b])
      && (forall b :: 0 <= b < |m| && b / SECTION == offset ==> t0[b] == m[b])
  {
    hide Replaced;
    var t0, t := Replaced(m, addr, data, n), Replaced(m, addr, data, n2);
    forall b | 0 <= b < |m|
      ensures (b / SECTION != offset ==> t[b] == t0[b]) && (b / SECTION == offset ==> t0[b] == m[b])
    {
      InSection(b, offset);
      ReplacedAt(m, addr, data, n, b);
      ReplacedAt(m, addr, data, n2, b);
    }
  }

  /** EFUSE_MAP_LEN_8723A, as Hal_GetEfuseDefinition gives it. */
  const MAP_LEN := 256

  /** A section's number fits the source's u8. */
  lemma OffsetsFit(m: seq<byte>, addr: nat, data: seq<byte>, ps: seq<Packet>, n: nat)
    requires Fits(m, addr, data) && n <= |data| && Written(m, addr, data, ps, n)
    requires |m| == MAP_LEN
    ensures forall p <- ps :: p.offset < 0x100
  {
    hide SectionRight, Replaced;
    forall p <- ps ensures p.offset < 0x100 {
      var i :| 0 <= i < |ps| && ps[i] == p;
      assert ps[i].offset * SECTION < addr + n;
    }
  }

  lemma ReplacedNone(m: seq<byte>, addr: nat, data: seq<byte>)
    requires addr <= |m|
    ensures Replaced(m, addr, data, 0) == m
  {
  }

  lemma NothingBelow(m: seq<byte>, addr: nat, data: seq<byte>, n: nat, offset: nat, nd: seq<byte>)
    requires Fits(m, addr, data) && n <= |data| && |nd| == SECTION
    requires n == 0 || addr + n <= offset * SECTION
    ensures SectionRight(m, Replaced(m, addr, data, n), offset, NO_WORDS, nd)
    ensures n == 0 ==> Written(m, addr, data, [], n)
  {
    NoWords(NO_WORDS);
    ReplacedNone(m, addr, data);
    hide Enabled, Replaced;
    var t := Replaced(m, addr, data, n);
    forall w | 0 <= w < 4 ensures WordRight(m, t, offset, NO_WORDS, nd, w) {
      var b := offset * SECTION + 2 * w;
      if b + 1 < |m| {
        ReplacedAt(m, addr, data, n, b);
        ReplacedAt(m, addr, data, n, b + 1);
      }
    }
  }

  lemma ReplacedFirst(m: seq<byte>, addr: nat, data: seq<byte>)
    requires Fits(m, addr, data) && addr % 2 == 1
    ensures Replaced(m, addr, data, 1)[addr] == data[0]
    ensures Replaced(m, addr, data, 1)[addr - 1] == m[addr - 1]
  {
  }

  lemma OddStart(addr: nat, i: nat)
    requires i == addr % SECTION
    ensures addr == addr / SECTION * SECTION + i && i < SECTION && i % 2 == addr % 2
    ensures i % 2 == 1 ==> 2 * (i / 2) == i - 1 && i / 2 < 4 && (i - 1) / 2 == i / 2
  {
    var q := addr / SECTION;
    assert addr == SECTION * q + i;
    assert addr % 2 == (2 * (4 * q) + i) % 2 == i % 2;
    OddHalf(i);
  }

  lemma OddHalf(i: nat)
    requires i < SECTION
    ensures i % 2 == 1 ==> 2 * (i / 2) == i - 1 && i / 2 < 4 && (i - 1) / 2 == i / 2
  {
  }

  /** The odd start: a range that begins in the middle of a word changes the word's second byte. */
  method FirstWord(m: seq<byte>, addr: nat, data: seq<byte>, nd: array<byte>)
    returns (i: nat, idx: nat, wordEn: bv8)
    requires Fits(m, addr, data) && nd.Length == SECTION + 1
    modifies nd
    ensures i % 2 == 0 && i <= SECTION && idx <= |data| && idx <= 1 && (idx == 0 ==> wordEn == NO_WORDS)
    ensures addr + idx == addr / SECTION * SECTION + i
    ensures SectionRight(m, Replaced(m, addr, data, idx), addr / SECTION, wordEn, nd[..SECTION])
  {
    hide SectionRight, Replaced, Enable;
    wordEn := NO_WORDS;
    i, idx := addr % SECTION, 0;
    OddStart(addr, i);
    NothingBelow(m, addr, data, 0, addr / SECTION, nd[..SECTION]);
    if i % 2 == 1 {
      ReplacedFirst(m, addr, data);
      ghost var nd0 := nd[..SECTION];
      if data[idx] != m[addr + idx] {
        wordEn := Enable(wordEn, i / 2);
        PutWord(nd, i - 1, m[addr + idx - 1], data[idx]);
      }
      WordDone(m, addr, data, 0, 1, addr / SECTION, i / 2, NO_WORDS, nd0, wordEn, nd[..SECTION]);
      i := i + 1;
      idx := idx + 1;
    }
  }

  /** rtw_efuse_map_write on a map `m`.  The packet writer fails on its call number `failAt`, if it
      is called that often.  `done` is how much of the data the packets written put in place. */
  method MapWrite(m: seq<byte>, addr: nat, data: seq<byte>, failAt: nat)
    returns (ok: bool, ps: seq<Packet>, ghost done: nat)
    requires |m| == MAP_LEN && (data == [] && addr <= |m| ==> addr % 2 == 0)
    ensures addr + |data| > |m| ==> !ok && ps == []
    ensures addr + |data| <= |m| ==>
              && done <= |data| && Written(m, addr, data, ps, done)
              && (ok ==> done == |data|)
              && (!ok ==> |ps| == failAt && (done == 0 || (addr + done) % SECTION == 0))
              && forall p <- ps :: p.offset < 0x100
  {
    hide SectionRight, Written, Replaced;
    ps, done := [], 0;
    if addr + |data| > |m| {
      return false, [], 0;
    }
    var cnts := |data|;
    var offset: nat := addr / SECTION;
    var nd := new byte[SECTION + 1](_ => 0xFF);
    NothingBelow(m, addr, data, 0, offset, nd[..SECTION]);
    var i, idx, wordEn := FirstWord(m, addr, data, nd);
    while true
      invariant i <= SECTION && i % 2 == 0 && idx <= cnts && addr + idx == offset * SECTION + i
      invariant done <= idx && (done == 0 || addr + done == offset * SECTION)
      invariant offset * SECTION <= addr + done < offset * SECTION + SECTION
      invariant done == 0 ==> ps == []
      invariant (done < cnts || cnts == 0) && |ps| <= failAt && fresh(nd)
      invariant idx == done ==> wordEn == NO_WORDS
      invariant SectionRight(m, Replaced(m, addr, data, idx), offset, wordEn, nd[..SECTION])
      invariant Written(m, addr, data, ps, done)
      decreases cnts - done
    {
      idx, wordEn := FillSection(m, addr, data, nd, offset, i, idx, wordEn);
      if done < idx {
        SectionWritten(m, addr, data, ps, done, idx, offset, wordEn, nd[..SECTION]);
      }
      if wordEn != NO_WORDS {
        if |ps| == failAt {
          OffsetsFit(m, addr, data, ps, done);
          return false, ps, done;
        }
        ps := ps + [Packet(offset, wordEn, nd[..SECTION])];
      }
      done := idx;
      if idx == cnts {
        OffsetsFit(m, addr, data, ps, done);
        return true, ps, done;
      }
      offset := offset + 1;
      i, wordEn := 0, NO_WORDS;
      forall k | 0 <= k < SECTION {
        nd[k] := 0xFF;
      }
      NothingBelow(m, addr, data, idx, offset, nd[..SECTION]);
    }
  }
}
