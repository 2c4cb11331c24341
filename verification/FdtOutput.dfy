/** `fdt_output`: the blocks of the device tree in guest memory, and the reader
    that finds them from the header (section 5.2 of the Devicetree Specification
    v0.2). */
module FdtOutput {
  import opened Options
  import opened Storage
  import opened FdtFormat
  import opened FdtTree
  import opened FdtBuilder
  import opened FdtImage
  import Vmm

  const FDT_MAGIC := 0xd00dfeed
  const FDT_VERSION := 17
  const HEADER_SIZE := 40
  const RESERVE_SIZE := 16

  datatype Header = Header(magic: nat, totalSize: nat, offStruct: nat, offStrings: nat, offReserve: nat,
                           version: nat, lastCompVersion: nat, bootCpuid: nat, sizeStrings: nat, sizeStruct: nat) {
    predicate Valid() {
      && magic < 0x1_0000_0000 && totalSize < 0x1_0000_0000 && offStruct < 0x1_0000_0000
      && offStrings < 0x1_0000_0000 && offReserve < 0x1_0000_0000 && version < 0x1_0000_0000
      && lastCompVersion < 0x1_0000_0000 && bootCpuid < 0x1_0000_0000 && sizeStrings < 0x1_0000_0000
      && sizeStruct < 0x1_0000_0000
    }

    function ToBytes(): (b: Bytes)
      requires Valid()
      ensures |b| == HEADER_SIZE
    {
      Be32(magic) + Be32(totalSize) + Be32(offStruct) + Be32(offStrings) + Be32(offReserve) +
      Be32(version) + Be32(lastCompVersion) + Be32(bootCpuid) + Be32(sizeStrings) + Be32(sizeStruct)
    }
  }

  function HeaderOf(b: Bytes): (h: Header)
    requires |b| >= HEADER_SIZE
    ensures h.Valid()
  {
    Header(FromBe32(b[..4]), FromBe32(b[4..8]), FromBe32(b[8..12]), FromBe32(b[12..16]), FromBe32(b[16..20]),
           FromBe32(b[20..24]), FromBe32(b[24..28]), FromBe32(b[28..32]), FromBe32(b[32..36]), FromBe32(b[36..40]))
  }

  function Align8(n: nat): (m: nat)
    ensures n <= m < n + 8 && m % 8 == 0
  {
    (n + 7) / 8 * 8
  }

  /** Where the blocks go: after the header the structure, the reserve map and the strings. */
  function Layout(structSize: nat, stringsSize: nat): Header {
    var offReserve := Align8(HEADER_SIZE + structSize);
    var offStrings := offReserve + RESERVE_SIZE;
    Header(FDT_MAGIC, Align8(offStrings + stringsSize), HEADER_SIZE, offStrings, offReserve,
           FDT_VERSION, 16, 0, stringsSize, structSize)
  }

  /** The image of the two blocks. */
  function Blob(structure: Bytes, strings: Bytes): (b: Bytes)
    requires Layout(|structure|, |strings|).Valid()
    ensures |b| == Layout(|structure|, |strings|).totalSize
  {
    var h := Layout(|structure|, |strings|);
    h.ToBytes() + structure + Zeros(h.offReserve - (HEADER_SIZE + |structure|)) + Zeros(RESERVE_SIZE) +
    strings + Zeros(h.totalSize - (h.offStrings + |strings|))
  }

  /** The blocks are disjoint, in the code's order and aligned, and fill the image. */
  lemma LayoutOrdered(structSize: nat, stringsSize: nat)
    ensures var h := Layout(structSize, stringsSize);
            && HEADER_SIZE <= h.offStruct && h.offStruct + h.sizeStruct <= h.offReserve
            && h.offReserve + RESERVE_SIZE <= h.offStrings && h.offStrings + h.sizeStrings <= h.totalSize
            && h.offStruct % 4 == 0 && h.offReserve % 8 == 0 && h.totalSize % 8 == 0
  {
  }

  /** A reader of the image. */
  function ReadBlob(b: Bytes): Option<seq<Event>> {
    if |b| < HEADER_SIZE then None
    else
      var h := HeaderOf(b);
      if || h.magic != FDT_MAGIC || h.totalSize > |b|
         || h.offStruct + h.sizeStruct > h.totalSize || h.offStrings + h.sizeStrings > h.totalSize then None
      else Read(b[h.offStruct..h.offStruct + h.sizeStruct], b[h.offStrings..h.offStrings + h.sizeStrings])
  }

  lemma HeaderRoundTrip(h: Header, rest: Bytes)
    requires h.Valid()
    ensures HeaderOf(h.ToBytes() + rest) == h
  {
    Be32RoundTrip(h.magic);
    Be32RoundTrip(h.totalSize);
    Be32RoundTrip(h.offStruct);
    Be32RoundTrip(h.offStrings);
    Be32RoundTrip(h.offReserve);
    Be32RoundTrip(h.version);
    Be32RoundTrip(h.lastCompVersion);
    Be32RoundTrip(h.bootCpuid);
    Be32RoundTrip(h.sizeStrings);
    Be32RoundTrip(h.sizeStruct);
    hide Be32;
    hide FromBe32;
    TenParts(Be32(h.magic), Be32(h.totalSize), Be32(h.offStruct), Be32(h.offStrings), Be32(h.offReserve),
             Be32(h.version), Be32(h.lastCompVersion), Be32(h.bootCpuid), Be32(h.sizeStrings), Be32(h.sizeStruct),
             rest);
  }

  lemma FiveParts(a: Bytes, b: Bytes, c: Bytes, d: Bytes, e: Bytes, rest: Bytes)
    requires |a| == |b| == |c| == |d| == |e| == 4
    ensures var s := a + b + c + d + e + rest;
            && |s| == 20 + |rest| && s[20..] == rest
            && s[..4] == a && s[4..8] == b && s[8..12] == c && s[12..16] == d && s[16..20] == e
  {
  }

  lemma TenParts(a: Bytes, b: Bytes, c: Bytes, d: Bytes, e: Bytes, f: Bytes, g: Bytes, h: Bytes, i: Bytes, j: Bytes,
                 rest: Bytes)
    requires |a| == |b| == |c| == |d| == |e| == |f| == |g| == |h| == |i| == |j| == 4
    ensures var s := a + b + c + d + e + f + g + h + i + j + rest;
            && |s| == 40 + |rest| && s[..4] == a && s[4..8] == b && s[8..12] == c && s[12..16] == d && s[16..20] == e
            && s[20..24] == f && s[24..28] == g && s[28..32] == h && s[32..36] == i && s[36..40] == j
  {
    var s, t := a + b + c + d + e + f + g + h + i + j + rest, f + g + h + i + j + rest;
    assert s == a + b + c + d + e + t;
    FiveParts(a, b, c, d, e, t);
    FiveParts(f, g, h, i, j, rest);
    SliceOfTail(s, 20, 0);
    SliceOfTail(s, 20, 4);
    SliceOfTail(s, 20, 8);
    SliceOfTail(s, 20, 12);
    SliceOfTail(s, 20, 16);
  }

  lemma SliceOfTail(s: Bytes, i: nat, k: nat)
    requires i + k + 4 <= |s|
    ensures s[i..][k..k + 4] == s[i + k..i + k + 4]
  {
  }

  /** The header of the image leads to both blocks. */
  lemma BlobBlocks(structure: Bytes, strings: Bytes)
    requires Layout(|structure|, |strings|).Valid()
    ensures var b, h := Blob(structure, strings), Layout(|structure|, |strings|);
            && HeaderOf(b) == h
            && b[h.offStruct..h.offStruct + h.sizeStruct] == structure
            && b[h.offReserve..h.offReserve + RESERVE_SIZE] == Zeros(RESERVE_SIZE)
            && b[h.offStrings..h.offStrings + h.sizeStrings] == strings
  {
    var h := Layout(|structure|, |strings|);
    var b := Blob(structure, strings);
    HeaderRoundTrip(h, b[HEADER_SIZE..]);
    hide HeaderOf;
    var head := h.ToBytes();
    assert b == head + b[HEADER_SIZE..];
  }

  /** The image of a builder's blocks reads back as its calls. */
  lemma BlobReadsBack(s: Fdt)
    requires s.Valid() && Layout(|s.Structure()|, |s.Strings()|).Valid()
    ensures ReadBlob(Blob(s.Structure(), s.Strings())) == Some(s.events)
  {
    BlobBlocks(s.Structure(), s.Strings());
    LayoutOrdered(|s.Structure()|, |s.Strings()|);
    s.ReadsBack();
    hide Read;
    hide HeaderOf;
    hide Blob;
  }

  /** The header, word by word. */
  lemma HeaderWords(h: Header, rest: Bytes)
    requires h.Valid()
    ensures var b := h.ToBytes() + rest;
            && b[..4] == Be32(h.magic) && Word(b, 4) == h.totalSize && Word(b, 8) == h.offStruct
            && Word(b, 12) == h.offStrings && Word(b, 16) == h.offReserve && Word(b, 20) == h.version
            && Word(b, 24) == h.lastCompVersion && Word(b, 28) == h.bootCpuid && Word(b, 32) == h.sizeStrings
            && Word(b, 36) == h.sizeStruct
  {
    hide Be32;
    hide Word;
    var b := h.ToBytes() + rest;
    TenParts(Be32(h.magic), Be32(h.totalSize), Be32(h.offStruct), Be32(h.offStrings), Be32(h.offReserve),
             Be32(h.version), Be32(h.lastCompVersion), Be32(h.bootCpuid), Be32(h.sizeStrings), Be32(h.sizeStruct),
             rest);
    WordIn(b, 4, h.totalSize);
    WordIn(b, 8, h.offStruct);
    WordIn(b, 12, h.offStrings);
    WordIn(b, 16, h.offReserve);
    WordIn(b, 20, h.version);
    WordIn(b, 24, h.lastCompVersion);
    WordIn(b, 28, h.bootCpuid);
    WordIn(b, 32, h.sizeStrings);
    WordIn(b, 36, h.sizeStruct);
  }

  lemma Magic()
    ensures Be32(FDT_MAGIC) == [0xd0, 0x0d, 0xfe, 0xed]
  {
  }

  /** The gaps of the image are zero. */
  lemma BlobGaps(structure: Bytes, strings: Bytes)
    requires Layout(|structure|, |strings|).Valid()
    ensures var b, h := Blob(structure, strings), Layout(|structure|, |strings|);
            Clear(b, 40 + |structure|, h.offStrings) && Clear(b, h.offStrings + |strings|, |b|)
  {
    var h := Layout(|structure|, |strings|);
    var head := h.ToBytes();
    hide Header.ToBytes;
    var gap := h.offReserve - (HEADER_SIZE + |structure|);
    var b := Blob(structure, strings);
    assert |head + structure| == HEADER_SIZE + |structure|;
    assert |head + structure + Zeros(gap) + Zeros(RESERVE_SIZE)| == h.offStrings;
  }

  /** Where the blocks go, in numbers. */
  lemma LayoutNumbers(structSize: nat, stringsSize: nat)
    ensures var h := Layout(structSize, stringsSize);
            && h.offStruct == 40 && h.version == 17 && h.lastCompVersion == 16 && h.bootCpuid == 0
            && h.sizeStruct == structSize && h.sizeStrings == stringsSize && h.offStrings == h.offReserve + 16
            && h.offReserve % 8 == 0 && 40 + structSize <= h.offReserve < 40 + structSize + 8
            && h.totalSize % 8 == 0 && h.offStrings + stringsSize <= h.totalSize < h.offStrings + stringsSize + 8
            && h.magic == FDT_MAGIC
  {
  }

  lemma ImageOf(structure: Bytes, strings: Bytes, events: seq<Event>)
    requires Layout(|structure|, |strings|).Valid() && Spells(structure, strings, events)
    ensures Image(Blob(structure, strings), events)
  {
    hide *;
    var b, h := Blob(structure, strings), Layout(|structure|, |strings|);
    LayoutNumbers(|structure|, |strings|);
    BlobBlocks(structure, strings);
    BlobGaps(structure, strings);
    BlobIs(structure, strings);
    var rest := Body(structure, strings);
    HeaderWords(h, rest);
    Magic();
    ImageIs(b, events, structure, strings, h.offStrings, h.offReserve);
  }

  lemma ImageIs(b: Bytes, events: seq<Event>, structure: Bytes, strings: Bytes, stringsAt: nat, reserveAt: nat)
    requires |b| >= 40 && |b| % 8 == 0 && b[..4] == [0xd0, 0x0d, 0xfe, 0xed]
    requires Word(b, 4) == |b| && Word(b, 8) == 40 && Word(b, 20) == 17 && Word(b, 24) == 16 && Word(b, 28) == 0
    requires Word(b, 12) == stringsAt && Word(b, 16) == reserveAt
    requires Word(b, 32) == |strings| && Word(b, 36) == |structure|
    requires reserveAt % 8 == 0 && 40 + |structure| <= reserveAt < 40 + |structure| + 8 && stringsAt == reserveAt + 16
    requires stringsAt + |strings| <= |b| < stringsAt + |strings| + 8
    requires Clear(b, 40 + |structure|, stringsAt) && Clear(b, stringsAt + |strings|, |b|)
    requires b[40..40 + |structure|] == structure && b[stringsAt..stringsAt + |strings|] == strings
    requires Spells(structure, strings, events)
    ensures Image(b, events)
  {
    hide Word;
    hide Clear;
    hide Spells;
  }

  /** The image of a builder's blocks is, byte by byte, the device tree of its calls. */
  lemma BlobIsImage(s: Fdt)
    requires s.Valid() && Layout(|s.Structure()|, |s.Strings()|).Valid()
    ensures Image(Blob(s.Structure(), s.Strings()), s.events)
  {
    TokensSpell(s.tokens, s.Strings(), s.events);
    assert Spells(s.Structure(), s.Strings(), s.events);
    hide *;
    ImageOf(s.Structure(), s.Strings(), s.events);
  }

  // ----- writing the image

  /** Memory `m` is `m0` with `img` at `at`. */
  ghost predicate Holds(m0: Bytes, at: nat, img: Bytes, m: Bytes)
    ensures Holds(m0, at, img, m) ==> at + |img| <= |m0| == |m|
  {
    at + |img| <= |m0| && m == m0[..at] + img + m0[at + |img|..]
  }

  lemma PatchImage(m0: Bytes, at: nat, img: Bytes, m: Bytes, p: nat, w: Bytes)
    requires Holds(m0, at, img, m) && p + |w| <= |img|
    ensures Holds(m0, at, Patched(img, p, w), Patched(m, at + p, w))
  {
  }

  /** What follows the header. */
  function Body(structure: Bytes, strings: Bytes): (b: Bytes)
    ensures |b| == Layout(|structure|, |strings|).totalSize - HEADER_SIZE
  {
    var h := Layout(|structure|, |strings|);
    structure + Zeros(h.offReserve - (HEADER_SIZE + |structure|)) + Zeros(RESERVE_SIZE) +
    strings + Zeros(h.totalSize - (h.offStrings + |strings|))
  }

  lemma BlobIs(structure: Bytes, strings: Bytes)
    requires Layout(|structure|, |strings|).Valid()
    ensures Blob(structure, strings) == Layout(|structure|, |strings|).ToBytes() + Body(structure, strings)
  {
  }

  /** The image so far: a header, and the body up to `pos`. */
  ghost predicate Filled(img: Bytes, header: Header, body: Bytes, pos: nat)
    ensures Filled(img, header, body, pos) ==> HEADER_SIZE <= pos <= |img| == HEADER_SIZE + |body| && header.Valid()
  {
    && |img| == HEADER_SIZE + |body| && header.Valid() && HEADER_SIZE <= pos <= |img|
    && img[..HEADER_SIZE] == header.ToBytes() && img[HEADER_SIZE..pos] == body[..pos - HEADER_SIZE]
  }

  lemma FillHeader(img: Bytes, header: Header, body: Bytes, pos: nat, header': Header)
    requires Filled(img, header, body, pos) && header'.Valid()
    ensures Filled(Patched(img, 0, header'.ToBytes()), header', body, pos)
  {
    hide Header.ToBytes;
    var r := Patched(img, 0, header'.ToBytes());
    assert r[HEADER_SIZE..pos] == img[HEADER_SIZE..pos];
  }

  lemma FillMore(img: Bytes, header: Header, body: Bytes, pos: nat, w: Bytes)
    requires Filled(img, header, body, pos) && pos + |w| <= |img|
    requires body[pos - HEADER_SIZE..pos - HEADER_SIZE + |w|] == w
    ensures Filled(Patched(img, pos, w), header, body, pos + |w|)
  {
    hide Header.ToBytes;
    var r := Patched(img, pos, w);
    assert r[..HEADER_SIZE] == img[..HEADER_SIZE];
    assert r[HEADER_SIZE..pos + |w|] == img[HEADER_SIZE..pos] + w;
    assert body[..pos - HEADER_SIZE + |w|] == body[..pos - HEADER_SIZE] + w;
  }

  /** `vmm_write` of some bytes. */
  method PutAt(vmm: Vmm.Vmm, addr: nat, b: Bytes)
    requires vmm.Valid() && addr + |b| <= |vmm.Memory()|
    modifies vmm.repr
    ensures vmm.Valid() && old(vmm.repr) <= vmm.repr && (forall o :: o in vmm.repr ==> o in old(vmm.repr) || fresh(o))
    ensures vmm.Memory() == Patched(old(vmm.Memory()), addr, b)
  {
    hide Vmm.Vmm.Valid;
    hide Vmm.Vmm.Memory;
    assert allocated(vmm.repr);
    var buf := new byte[|b|](i requires 0 <= i < |b| => b[i]);
    assert buf[..|b|] == b;
    vmm.Write(addr, buf, |b|);
  }

  function HeaderAt(m: Bytes, addr: nat): (h: Header)
    ensures h.Valid()
  {
    HeaderOf(if addr + HEADER_SIZE <= |m| then m[addr..addr + HEADER_SIZE] else Zeros(HEADER_SIZE))
  }

  /** The header that was written is the one that is read back. */
  lemma HeaderStays(m0: Bytes, at: nat, img: Bytes, m: Bytes, header: Header, body: Bytes, pos: nat)
    requires Holds(m0, at, img, m) && Filled(img, header, body, pos)
    ensures HeaderAt(m, at) == header
  {
    HeaderRoundTrip(header, []);
    assert header.ToBytes() + [] == header.ToBytes();
    hide HeaderOf;
    hide Header.ToBytes;
    assert m[at..at + HEADER_SIZE] == img[..HEADER_SIZE];
  }

  /** `vmm_read` of the header. */
  method GetHeader(vmm: Vmm.Vmm, addr: nat) returns (h: Header)
    requires vmm.Valid() && addr + HEADER_SIZE <= |vmm.Memory()|
    modifies vmm.repr
    ensures vmm.Valid() && old(vmm.repr) <= vmm.repr && (forall o :: o in vmm.repr ==> o in old(vmm.repr) || fresh(o))
    ensures vmm.Memory() == old(vmm.Memory()) && h.Valid()
    ensures h == HeaderAt(vmm.Memory(), addr)
  {
    hide Vmm.Vmm.Valid;
    hide Vmm.Vmm.Memory;
    assert allocated(vmm.repr);
    var buf := new byte[HEADER_SIZE];
    ghost var was := buf[..];
    vmm.Read(addr, buf, HEADER_SIZE);
    assert buf[..] == vmm.Memory()[addr..addr + HEADER_SIZE];
    h := HeaderOf(buf[..]);
  }

  // ----- the function of the source

  /** At `pos` the image is to hold `w`. */
  predicate Part(body: Bytes, pos: nat, w: Bytes)
    ensures Part(body, pos, w) ==> HEADER_SIZE <= pos && pos + |w| <= HEADER_SIZE + |body|
  {
    && HEADER_SIZE <= pos && pos + |w| <= HEADER_SIZE + |body|
    && body[pos - HEADER_SIZE..pos - HEADER_SIZE + |w|] == w
  }

  /** From `pos` to the next multiple of 8 the image is to hold zeros. */
  predicate Padding(body: Bytes, pos: nat)
    ensures Padding(body, pos) ==> HEADER_SIZE <= pos && Align8(pos) <= HEADER_SIZE + |body|
  {
    && HEADER_SIZE <= pos && Align8(pos) <= HEADER_SIZE + |body|
    && forall i :: pos - HEADER_SIZE <= i < Align8(pos) - HEADER_SIZE ==> body[i] == 0
  }

  lemma PaddingByte(body: Bytes, from: nat, pos: nat)
    requires Padding(body, from) && from <= pos < Align8(from)
    ensures Part(body, pos, [0])
  {
    assert body[pos - HEADER_SIZE] == 0;
  }

  /** Bytes of the image at `pos`; the image so far is a ghost. */
  method PutBody(vmm: Vmm.Vmm, at: nat, pos: nat, w: Bytes, ghost m0: Bytes, ghost img: Bytes,
                 ghost header: Header, ghost body: Bytes)
    returns (ghost img': Bytes)
    requires vmm.Valid() && Holds(m0, at, img, vmm.Memory()) && Filled(img, header, body, pos) && Part(body, pos, w)
    modifies vmm.repr
    ensures vmm.Valid() && old(vmm.repr) <= vmm.repr && (forall o :: o in vmm.repr ==> o in old(vmm.repr) || fresh(o))
    ensures Holds(m0, at, img', vmm.Memory()) && Filled(img', header, body, pos + |w|)
  {
    hide Vmm.Vmm.Valid;
    hide Vmm.Vmm.Memory;
    hide Filled;
    hide Holds;
    hide Patched;
    PatchImage(m0, at, img, vmm.Memory(), pos, w);
    FillMore(img, header, body, pos, w);
    img' := Patched(img, pos, w);
    PutAt(vmm, at + pos, w);
  }

  method PutHeader(vmm: Vmm.Vmm, at: nat, pos: nat, h: Header, ghost m0: Bytes, ghost img: Bytes,
                   ghost header: Header, ghost body: Bytes)
    returns (ghost img': Bytes)
    requires vmm.Valid() && Holds(m0, at, img, vmm.Memory()) && Filled(img, header, body, pos) && h.Valid()
    modifies vmm.repr
    ensures vmm.Valid() && old(vmm.repr) <= vmm.repr && (forall o :: o in vmm.repr ==> o in old(vmm.repr) || fresh(o))
    ensures Holds(m0, at, img', vmm.Memory()) && Filled(img', h, body, pos)
  {
    hide Vmm.Vmm.Valid;
    hide Vmm.Vmm.Memory;
    hide Holds;
    hide Patched;
    PatchImage(m0, at, img, vmm.Memory(), 0, h.ToBytes());
    FillHeader(img, header, body, pos, h);
    hide Filled;
    img' := Patched(img, 0, h.ToBytes());
    PutAt(vmm, at, h.ToBytes());
  }

  /** The zero bytes up to the next multiple of 8. */
  method PadTo8(vmm: Vmm.Vmm, at: nat, from: nat, ghost m0: Bytes, ghost img: Bytes, ghost header: Header,
                ghost body: Bytes)
    returns (pos: nat, ghost img': Bytes)
    requires vmm.Valid() && Holds(m0, at, img, vmm.Memory()) && Filled(img, header, body, from) && Padding(body, from)
    modifies vmm.repr
    ensures vmm.Valid() && old(vmm.repr) <= vmm.repr && (forall o :: o in vmm.repr ==> o in old(vmm.repr) || fresh(o))
    ensures pos == Align8(from) && Holds(m0, at, img', vmm.Memory()) && Filled(img', header, body, pos)
  {
    hide Vmm.Vmm.Valid;
    hide Vmm.Vmm.Memory;
    hide Holds;
    pos, img' := from, img;
    while pos % 8 != 0
      invariant from <= pos <= Align8(from) && vmm.Valid()
      invariant old(vmm.repr) <= vmm.repr && (forall o :: o in vmm.repr ==> o in old(vmm.repr) || fresh(o))
      invariant Holds(m0, at, img', vmm.Memory()) && Filled(img', header, body, pos)
      decreases Align8(from) - pos
    {
      PaddingByte(body, from, pos);
      img' := PutBody(vmm, at, pos, [0], m0, img', header, body);
      pos := pos + 1;
    }
  }

  lemma FillFirst(img: Bytes, header: Header, body: Bytes)
    requires |img| == HEADER_SIZE + |body| && header.Valid()
    ensures Filled(Patched(img, 0, header.ToBytes()), header, body, HEADER_SIZE)
  {
  }

  lemma FirstImage(m: Bytes, at: nat, total: nat)
    requires at + total <= |m|
    ensures Holds(m, at, m[at..at + total], m)
  {
  }

  /** The parts of the body, by position. */
  lemma BodyParts(structure: Bytes, strings: Bytes)
    ensures var b, h := Body(structure, strings), Layout(|structure|, |strings|);
            && Part(b, HEADER_SIZE, structure) && Padding(b, HEADER_SIZE + |structure|)
            && Part(b, h.offReserve, Zeros(RESERVE_SIZE)) && Part(b, h.offStrings, strings)
            && Padding(b, h.offStrings + |strings|)
  {
  }

  lemma LayoutIs(structSize: nat, stringsSize: nat)
    ensures var h := Layout(structSize, stringsSize);
            && h.offReserve == Align8(HEADER_SIZE + structSize) && h.offStrings == h.offReserve + RESERVE_SIZE
            && h.totalSize == Align8(h.offStrings + stringsSize)
            && h.magic == FDT_MAGIC && h.version == FDT_VERSION && h.lastCompVersion == 16 && h.bootCpuid == 0
            && h.sizeStrings == stringsSize && h.sizeStruct == structSize && h.offStruct == HEADER_SIZE
  {
  }

  /** The first header: what is known before the blocks are placed. */
  method PutFirst(vmm: Vmm.Vmm, at: nat, structSize: nat, stringsSize: nat, ghost m0: Bytes, ghost body: Bytes)
    returns (ghost img: Bytes, ghost header: Header)
    requires vmm.Valid() && vmm.Memory() == m0 && at + HEADER_SIZE + |body| <= |m0|
    requires structSize < 0x1_0000_0000 && stringsSize < 0x1_0000_0000
    modifies vmm.repr
    ensures vmm.Valid() && old(vmm.repr) <= vmm.repr && (forall o :: o in vmm.repr ==> o in old(vmm.repr) || fresh(o))
    ensures Holds(m0, at, img, vmm.Memory()) && Filled(img, header, body, HEADER_SIZE)
    ensures FixedFields(header, structSize, stringsSize)
  {
    hide Vmm.Vmm.Valid;
    hide Vmm.Vmm.Memory;
    hide Holds;
    hide Header.ToBytes;
    var h := GetHeader(vmm, at);
    h := h.(magic := FDT_MAGIC, version := FDT_VERSION, lastCompVersion := 16, bootCpuid := 0,
            sizeStrings := stringsSize, sizeStruct := structSize);
    h := h.(offStruct := HEADER_SIZE);
    img := m0[at..at + HEADER_SIZE + |body|];
    FirstImage(m0, at, HEADER_SIZE + |body|);
    PatchImage(m0, at, img, m0, 0, h.ToBytes());
    FillFirst(img, h, body);
    hide Filled;
    hide Patched;
    PutAt(vmm, at, h.ToBytes());
    img, header := Patched(img, 0, h.ToBytes()), h;
  }

  /** The fields that do not depend on where the blocks are. */
  predicate FixedFields(h: Header, structSize: nat, stringsSize: nat) {
    && h.magic == FDT_MAGIC && h.version == FDT_VERSION && h.lastCompVersion == 16 && h.bootCpuid == 0
    && h.sizeStrings == stringsSize && h.sizeStruct == structSize && h.offStruct == HEADER_SIZE
  }

  datatype Field = Reserve(pos: nat) | StringsAt(pos: nat) | Total(pos: nat)

  function SetField(h: Header, f: Field): Header {
    match f
    case Reserve(pos) => h.(offReserve := pos)
    case StringsAt(pos) => h.(offStrings := pos)
    case Total(pos) => h.(totalSize := pos)
  }

  /** The header is read, given one more field and written back. */
  method PutField(vmm: Vmm.Vmm, at: nat, pos: nat, f: Field, ghost m0: Bytes, ghost img: Bytes,
                  ghost header: Header, ghost body: Bytes)
    returns (ghost img': Bytes, ghost header': Header)
    requires vmm.Valid() && Holds(m0, at, img, vmm.Memory()) && Filled(img, header, body, pos) && f.pos < 0x1_0000_0000
    modifies vmm.repr
    ensures vmm.Valid() && old(vmm.repr) <= vmm.repr && (forall o :: o in vmm.repr ==> o in old(vmm.repr) || fresh(o))
    ensures header' == SetField(header, f) && Holds(m0, at, img', vmm.Memory()) && Filled(img', header', body, pos)
  {
    hide Vmm.Vmm.Valid;
    hide Vmm.Vmm.Memory;
    hide Holds;
    hide Filled;
    hide HeaderAt;
    hide Header.ToBytes;
    HeaderStays(m0, at, img, vmm.Memory(), header, body, pos);
    var h := GetHeader(vmm, at);
    h := SetField(h, f);
    img' := PutHeader(vmm, at, pos, h, m0, img, header, body);
    header' := h;
  }

  /** The header with its three late fields. */
  lemma FinalHeader(h: Header, structSize: nat, stringsSize: nat)
    requires FixedFields(h, structSize, stringsSize)
    ensures var l := Layout(structSize, stringsSize);
            SetField(SetField(SetField(h, Reserve(l.offReserve)), StringsAt(l.offStrings)), Total(l.totalSize)) == l
  {
  }

  /** The reserve map: one empty entry, which ends the map; and where the strings block starts. */
  method OutputReserve(vmm: Vmm.Vmm, at: nat, pos: nat, ghost m0: Bytes, ghost img0: Bytes, ghost header0: Header,
                       ghost body: Bytes)
    returns (pos': nat, ghost img: Bytes, ghost header: Header)
    requires vmm.Valid() && Holds(m0, at, img0, vmm.Memory()) && Filled(img0, header0, body, pos)
    requires Part(body, pos, Zeros(RESERVE_SIZE)) && pos + RESERVE_SIZE < 0x8000_0000
    modifies vmm.repr
    ensures vmm.Valid() && old(vmm.repr) <= vmm.repr && (forall o :: o in vmm.repr ==> o in old(vmm.repr) || fresh(o))
    ensures Holds(m0, at, img, vmm.Memory()) && Filled(img, header, body, pos')
    ensures pos' == pos + RESERVE_SIZE && header == SetField(header0, StringsAt(pos'))
  {
    hide *;
    assert allocated(vmm.repr);
    var res := new byte[RESERVE_SIZE];
    vmm.Read(at + pos, res, RESERVE_SIZE);
    img := PutBody(vmm, at, pos, Zeros(RESERVE_SIZE), m0, img0, header0, body);
    pos' := pos + RESERVE_SIZE;
    img, header := PutField(vmm, at, pos', StringsAt(pos'), m0, img, header0, body);
  }

  /** The strings block and the size of the image. */
  method OutputStrings(vmm: Vmm.Vmm, at: nat, offStrings: nat, strings: Bytes, ghost m0: Bytes, ghost img0: Bytes,
                       ghost header0: Header, ghost body: Bytes)
    returns (pos: nat, ghost img: Bytes, ghost header: Header)
    requires vmm.Valid() && Holds(m0, at, img0, vmm.Memory()) && Filled(img0, header0, body, offStrings)
    requires Part(body, offStrings, strings) && Padding(body, offStrings + |strings|)
    requires Align8(offStrings + |strings|) < 0x8000_0000
    modifies vmm.repr
    ensures vmm.Valid() && Holds(m0, at, img, vmm.Memory()) && Filled(img, header, body, pos)
    ensures pos == Align8(offStrings + |strings|) && header == SetField(header0, Total(pos))
  {
    hide *;
    img := PutBody(vmm, at, offStrings, strings, m0, img0, header0, body);
    pos := offStrings + |strings|;
    pos, img := PadTo8(vmm, at, pos, m0, img, header0, body);
    img, header := PutField(vmm, at, pos, Total(pos), m0, img, header0, body);
  }

  lemma BuffersOf(s: Fdt)
    requires s.Valid()
    ensures s.Buffers()
  {
  }

  /** With every field set, the image is the blob. */
  lemma Complete(img: Bytes, header: Header, structure: Bytes, strings: Bytes)
    requires Filled(img, header, Body(structure, strings), |img|) && header == Layout(|structure|, |strings|)
    ensures img == Blob(structure, strings)
  {
    BlobIs(structure, strings);
    hide Body;
    hide Header.ToBytes;
    hide Blob;
    assert img == img[..HEADER_SIZE] + img[HEADER_SIZE..|img|];
  }

  /** Whoever reads guest memory where the image was put finds the calls that built it. */
  lemma OutputReadsBack(s: Fdt, m0: Bytes, at: nat, m: Bytes)
    requires s.Valid() && Layout(|s.Structure()|, |s.Strings()|).Valid()
    requires Holds(m0, at, Blob(s.Structure(), s.Strings()), m)
    ensures ReadBlob(m[at..at + Layout(|s.Structure()|, |s.Strings()|).totalSize]) == Some(s.events)
  {
    BlobReadsBack(s);
    hide *;
    assert m[at..at + |Blob(s.Structure(), s.Strings())|] == Blob(s.Structure(), s.Strings()) by {
      HeldAt(m0, at, Blob(s.Structure(), s.Strings()), m);
    }
  }

  /** Memory that holds the image is, byte by byte, the device tree of the calls. */
  lemma OutputIsImage(s: Fdt, m0: Bytes, at: nat)
    requires s.Valid() && Layout(|s.Structure()|, |s.Strings()|).Valid()
    ensures forall m :: Holds(m0, at, Blob(s.Structure(), s.Strings()), m) ==>
              ImageAt(m0, at, Layout(|s.Structure()|, |s.Strings()|).totalSize, m, s.events)
  {
    BlobIsImage(s);
    hide *;
    var b := Blob(s.Structure(), s.Strings());
    forall m | Holds(m0, at, b, m) ensures ImageAt(m0, at, |b|, m, s.events) {
      HeldImage(m0, at, b, m, s.events);
    }
  }

  lemma HeldImage(m0: Bytes, at: nat, b: Bytes, m: Bytes, events: seq<Event>)
    requires Holds(m0, at, b, m) && Image(b, events)
    ensures ImageAt(m0, at, |b|, m, events)
  {
    hide Image;
    HeldAt(m0, at, b, m);
  }

  lemma HeldAt(m0: Bytes, at: nat, img: Bytes, m: Bytes)
    requires Holds(m0, at, img, m)
    ensures m[at..at + |img|] == img
  {
  }

  method OutputBlocks(vmm: Vmm.Vmm, at: nat, structure: Bytes, strings: Bytes) returns (pos: nat)
    requires vmm.Valid() && Layout(|structure|, |strings|).totalSize < 0x8000_0000
    requires at + Layout(|structure|, |strings|).totalSize <= |vmm.Memory()|
    modifies vmm.repr
    ensures vmm.Valid() && pos == Layout(|structure|, |strings|).totalSize
    ensures Holds(old(vmm.Memory()), at, Blob(structure, strings), vmm.Memory())
  {
    hide *;
    ghost var m0, body := vmm.Memory(), Body(structure, strings);
    BodyParts(structure, strings);
    LayoutIs(|structure|, |strings|);
    var img, header := PutFirst(vmm, at, |structure|, |strings|, m0, body);
    FinalHeader(header, |structure|, |strings|);
    pos := HEADER_SIZE;
    img := PutBody(vmm, at, pos, structure, m0, img, header, body);
    pos := pos + |structure|;
    pos, img := PadTo8(vmm, at, pos, m0, img, header, body);
    img, header := PutField(vmm, at, pos, Reserve(pos), m0, img, header, body);
    pos, img, header := OutputReserve(vmm, at, pos, m0, img, header, body);
    pos, img, header := OutputStrings(vmm, at, pos, strings, m0, img, header, body);
    Complete(img, header, structure, strings);
  }

  /** `fdt_output`: the image in guest memory, and its size. */
  method Output(s: Fdt, vmm: Vmm.Vmm, at: nat) returns (pos: nat)
    requires s.Valid() && vmm.Valid() && s !in vmm.repr && s.tab !in vmm.repr && s.strings !in vmm.repr
    requires Layout(|s.Structure()|, |s.Strings()|).totalSize < 0x8000_0000
    requires at + Layout(|s.Structure()|, |s.Strings()|).totalSize <= |vmm.Memory()|
    modifies vmm.repr
    ensures vmm.Valid() && pos == Layout(|s.Structure()|, |s.Strings()|).totalSize
    ensures Holds(old(vmm.Memory()), at, Blob(s.Structure(), s.Strings()), vmm.Memory())
    ensures ImageAt(old(vmm.Memory()), at, pos, vmm.Memory(), s.events)
  {
    hide Vmm.Vmm.Valid;
    hide Vmm.Vmm.Memory;
    hide Fdt.Valid;
    hide Holds;
    hide Body;
    hide Blob;
    hide Filled;
    hide Header.ToBytes;
    hide ImageAt;
    assert s.Buffers() by { BuffersOf(s); }
    OutputIsImage(s, vmm.Memory(), at);
    pos := OutputBlocks(vmm, at, s.tab[..4 * s.tabLen], s.strings[..s.stringLen]);
  }
}
