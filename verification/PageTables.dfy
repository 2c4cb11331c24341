/** Sv32, Sv39 and Sv48 with their numbers written out, byte by byte and bit by
    bit: the reference that the walk of PageWalk is compared with. It uses none of
    the shifts, masks and field functions of the walk. */
module PageTables {
  import opened Options
  import opened Powers
  import opened Storage
  import opened PhysMemory
  import opened PageWalk

  // ----- bytes of memory

  /** The byte of RAM at an address, by the first range there; 0 outside RAM. */
  function ByteAt(ranges: seq<Range>, a: nat): nat {
    if ranges == [] then 0
    else if ranges[0].base <= a < ranges[0].base + |ranges[0].bytes| then
      if ranges[0].isRam then ranges[0].bytes[a - ranges[0].base] as nat else 0
    else ByteAt(ranges[1..], a)
  }

  function Word32(ranges: seq<Range>, a: nat): nat {
    ByteAt(ranges, a) + 0x100 * ByteAt(ranges, a + 1)
    + 0x1_0000 * ByteAt(ranges, a + 2) + 0x100_0000 * ByteAt(ranges, a + 3)
  }

  function Word64(ranges: seq<Range>, a: nat): nat {
    Word32(ranges, a) + 0x1_0000_0000 * Word32(ranges, a + 4)
  }

  /** Byte `i` of a word, the lowest first. */
  function ByteOf(v: nat, i: nat): nat
    requires i < 8
  {
    match i
    case 0 => v % 0x100
    case 1 => v / 0x100 % 0x100
    case 2 => v / 0x1_0000 % 0x100
    case 3 => v / 0x100_0000 % 0x100
    case 4 => v / 0x1_0000_0000 % 0x100
    case 5 => v / 0x100_0000_0000 % 0x100
    case 6 => v / 0x1_0000_0000_0000 % 0x100
    case 7 => v / 0x100_0000_0000_0000 % 0x100
  }

  // ----- the tables

  /** The leaf entry that an address leads to: its place, its value and the number
      of bytes of virtual memory that an entry of its level spans. */
  datatype Leaf = Leaf(at: nat, pte: nat, span: nat)

  /** Follows the tables, whose levels have the given spans: of 512 entries of eight
      bytes when `wide`, else of 1024 entries of four bytes. */
  function Search(ranges: seq<Range>, v: nat, spans: seq<nat>, table: nat, wide: bool): (l: Option<Leaf>)
    requires forall i :: 0 <= i < |spans| ==> spans[i] > 0
    ensures l.Some? ==> l.value.span > 0
  {
    if spans == [] then None
    else
      var at := if wide then (table + 8 * (v / spans[0] % 512)) % 0x1_0000_0000_0000_0000
                else (table + 4 * (v / spans[0] % 1024)) % 0x1_0000_0000;
      var pte := if wide then Word64(ranges, at) else Word32(ranges, at);
      if pte % 2 == 0 then None
      else if pte / 2 % 2 == 0 && pte / 4 % 2 == 0 && pte / 8 % 2 == 0 then
        Search(ranges, v, spans[1..], PageFrame(pte, wide), wide)
      else Some(Leaf(at, pte, spans[0]))
  }

  /** The page number of an entry starts at bit 10. */
  function PageFrame(pte: nat, wide: bool): nat {
    pte / 1024 * 4096 % (if wide then 0x1_0000_0000_0000_0000 else 0x1_0000_0000)
  }

  function Spans(s: Cpu): seq<nat> {
    if s.maxXlen == 32 then [0x40_0000, 0x1000]
    else if s.satp / 0x1000_0000_0000_0000 == 8 then [0x4000_0000, 0x20_0000, 0x1000]
    else [0x80_0000_0000, 0x4000_0000, 0x20_0000, 0x1000]
  }

  function RootTable(s: Cpu): nat {
    if s.maxXlen == 32 then s.satp % 0x40_0000 * 4096 % 0x1_0000_0000
    else s.satp % 0x1000_0000_0000 * 4096
  }

  predicate Bare(s: Cpu) {
    s.satp < if s.maxXlen == 32 then 0x8000_0000 else 0x1000_0000_0000_0000
  }

  /** Addresses of 39 or 48 bits are extended by their highest bit. */
  predicate Extended(s: Cpu, v: nat) {
    if s.maxXlen == 32 then true
    else if s.satp / 0x1000_0000_0000_0000 == 8 then
      v < 0x40_0000_0000 || 0xffff_ffc0_0000_0000 <= v < 0x1_0000_0000_0000_0000
    else v < 0x8000_0000_0000 || 0xffff_8000_0000_0000 <= v < 0x1_0000_0000_0000_0000
  }

  /** MPRV is bit 17 of `mstatus`, MPP its bits 11 and 12. */
  function Privilege(s: Cpu, access: Access): nat {
    if s.mstatus / 0x2_0000 % 2 == 1 && access != Code then s.mstatus / 0x800 % 4 else s.priv
  }

  /** The R, W, X and U bits of an entry are bits 1 to 4; SUM and MXR are bits 18
      and 19 of `mstatus`. */
  predicate Allowed(s: Cpu, pte: nat, access: Access) {
    var r, w, x, u := pte / 2 % 2 == 1, pte / 4 % 2 == 1, pte / 8 % 2 == 1, pte / 16 % 2 == 1;
    && (w ==> r)
    && (if Privilege(s, access) == 1 then u ==> s.mstatus / 0x4_0000 % 2 == 1 else u)
    && match access
       case Read => r || (x && s.mstatus / 0x8_0000 % 2 == 1)
       case Write => w
       case Code => x
  }

  function LeafOf(s: Cpu, ranges: seq<Range>, v: nat, access: Access): Option<Leaf> {
    if Privilege(s, access) == 3 || Bare(s) || !Extended(s, v) then None
    else match Search(ranges, v, Spans(s), RootTable(s), s.maxXlen != 32)
      case None => None
      case Some(leaf) => if Allowed(s, leaf.pte, access) then Some(leaf) else None
  }

  /** The frame of the leaf and the offset in its span. */
  function Target(s: Cpu, leaf: Leaf, v: nat): nat
    requires leaf.span > 0
  {
    PageFrame(leaf.pte, s.maxXlen != 32) / leaf.span * leaf.span + v % leaf.span
  }

  /** The result of a translation, with its numbers written out. */
  function Translation(s: Cpu, ranges: seq<Range>, v: nat, access: Access): Option<nat> {
    if Privilege(s, access) == 3 then Some(if s.curXlen < s.maxXlen then v % Pow2(s.curXlen) else v)
    else if Bare(s) then Some(v)
    else match LeafOf(s, ranges, v, access)
      case None => None
      case Some(leaf) => Some(Target(s, leaf, v))
  }

  /** The A bit is bit 6 of an entry, the D bit its bit 7. */
  function Touched(pte: nat, access: Access): nat {
    pte + (if pte / 64 % 2 == 0 then 64 else 0) + (if access == Write && pte / 128 % 2 == 0 then 128 else 0)
  }

  // ----- words and their bytes

  lemma {:induction false} FindWord(ranges: seq<Range>, addr: nat, size: nat, i: nat)
    requires Registered(ranges) && WordSize(size) && addr % size == 0 && i < size
    ensures Find(ranges, addr + i) == Find(ranges, addr)
  {
    if ranges != [] {
      CoversWord(ranges[0], addr, size, i);
      FindWord(ranges[1..], addr, size, i);
    }
  }

  lemma CoversWord(r: Range, addr: nat, size: nat, i: nat)
    requires r.base % 8 == 0 && |r.bytes| % 8 == 0 && WordSize(size) && addr % size == 0 && i < size
    ensures Covers(r, addr + i) == Covers(r, addr)
  {
    if size == 4 {
      Within4(addr / 4, r.base / 8, |r.bytes| / 8, i);
    } else {
      Within8(addr / 8, r.base / 8, |r.bytes| / 8, i);
    }
  }

  lemma Within4(q: nat, j: nat, k: nat, i: nat)
    requires i < 4
    ensures 8 * j <= 4 * q + i < 8 * j + 8 * k <==> 8 * j <= 4 * q < 8 * j + 8 * k
  {
    assert 8 * j <= 4 * q + i <==> 2 * j <= q;
    assert 4 * q + i < 8 * (j + k) <==> q < 2 * (j + k);
  }

  lemma Within8(q: nat, j: nat, k: nat, i: nat)
    requires i < 8
    ensures 8 * j <= 8 * q + i < 8 * j + 8 * k <==> 8 * j <= 8 * q < 8 * j + 8 * k
  {
  }

  lemma {:induction false} ByteFound(ranges: seq<Range>, a: nat)
    ensures InRam(ranges, a) ==>
              var r := ranges[Find(ranges, a)]; ByteAt(ranges, a) == r.bytes[a - r.base] as nat
    ensures !InRam(ranges, a) ==> ByteAt(ranges, a) == 0
  {
    if ranges != [] && !Covers(ranges[0], a) {
      ByteFound(ranges[1..], a);
    }
  }

  lemma FourBytes(b: seq<byte>)
    requires |b| >= 4
    ensures FromBytes(b) == b[0] as nat + 0x100 * b[1] as nat + 0x1_0000 * b[2] as nat + 0x100_0000 * b[3] as nat
                            + 0x1_0000_0000 * FromBytes(b[4..])
  {
    assert b[1..][1..] == b[2..] && b[2..][1..] == b[3..] && b[3..][1..] == b[4..];
    FromStep(b);
    FromStep(b[1..]);
    FromStep(b[2..]);
    FromStep(b[3..]);
    hide FromBytes;
  }

  lemma FromStep(b: seq<byte>)
    requires b != []
    ensures FromBytes(b) == b[0] as nat + 256 * FromBytes(b[1..])
  {
  }

  /** A word of memory is the sum of its bytes by their weights. */
  lemma WordIsBytes(ranges: seq<Range>, addr: nat)
    requires Registered(ranges)
    ensures addr % 4 == 0 ==> Word(ranges, addr, 4) == Word32(ranges, addr)
    ensures addr % 8 == 0 ==> Word(ranges, addr, 8) == Word64(ranges, addr)
  {
    if addr % 4 == 0 {
      WordAt(ranges, addr, 4);
    }
    if addr % 8 == 0 {
      WordAt(ranges, addr, 8);
    }
  }

  lemma ByteInWord(ranges: seq<Range>, addr: nat, size: nat, i: nat)
    requires Registered(ranges) && WordSize(size) && addr % size == 0 && i < size
    ensures InRam(ranges, addr) ==>
              var r := ranges[Find(ranges, addr)];
              addr - r.base + size <= |r.bytes| && ByteAt(ranges, addr + i) == r.bytes[addr - r.base + i] as nat
    ensures !InRam(ranges, addr) ==> ByteAt(ranges, addr + i) == 0
  {
    hide ByteAt;
    hide Find;
    FindWord(ranges, addr, size, i);
    ByteFound(ranges, addr + i);
    if InRam(ranges, addr) {
      WordFits(ranges, addr, size);
    }
  }

  lemma SliceIsBytes(b: seq<byte>, o: nat, size: nat)
    requires WordSize(size) && o + size <= |b|
    ensures FromBytes(b[o..o + size])
         == b[o] as nat + 0x100 * b[o + 1] as nat + 0x1_0000 * b[o + 2] as nat + 0x100_0000 * b[o + 3] as nat
            + if size == 4 then 0
              else 0x1_0000_0000 * (b[o + 4] as nat + 0x100 * b[o + 5] as nat
                                    + 0x1_0000 * b[o + 6] as nat + 0x100_0000 * b[o + 7] as nat)
  {
    hide FromBytes;
    var s := b[o..o + size];
    FourBytes(s);
    if size == 8 {
      FourBytes(s[4..]);
      NoBytes(s[4..][4..]);
    } else {
      NoBytes(s[4..]);
    }
  }

  lemma WordOfRam(ranges: seq<Range>, addr: nat, size: nat)
    requires Registered(ranges) && WordSize(size) && addr % size == 0
    ensures InRam(ranges, addr) ==>
              var r := ranges[Find(ranges, addr)];
              addr - r.base + size <= |r.bytes|
              && Word(ranges, addr, size) == FromBytes(r.bytes[addr - r.base..addr - r.base + size])
    ensures !InRam(ranges, addr) ==> Word(ranges, addr, size) == 0
  {
    hide FromBytes;
    hide Find;
    if InRam(ranges, addr) {
      WordFits(ranges, addr, size);
    }
  }

  lemma WordAt(ranges: seq<Range>, addr: nat, size: nat)
    requires Registered(ranges) && WordSize(size) && addr % size == 0
    ensures Word(ranges, addr, size) == if size == 4 then Word32(ranges, addr) else Word64(ranges, addr)
  {
    hide Word;
    hide FromBytes;
    hide ByteAt;
    hide Find;
    hide Registered;
    WordOfRam(ranges, addr, size);
    ByteInWord(ranges, addr, size, 0);
    ByteInWord(ranges, addr, size, 1);
    ByteInWord(ranges, addr, size, 2);
    ByteInWord(ranges, addr, size, 3);
    if size == 8 {
      ByteInWord(ranges, addr, size, 4);
      ByteInWord(ranges, addr, size, 5);
      ByteInWord(ranges, addr, size, 6);
      ByteInWord(ranges, addr, size, 7);
    }
    if InRam(ranges, addr) {
      var r := ranges[Find(ranges, addr)];
      hide InRam;
      SliceIsBytes(r.bytes, addr - r.base, size);
    }
  }

  lemma NoBytes(b: seq<byte>)
    requires b == []
    ensures FromBytes(b) == 0
  {
  }

  // ----- stores

  lemma {:induction false} StoredByteOf(v: nat, n: nat, i: nat)
    requires i < n && i < 8
    ensures ToBytes(v, n)[i] as nat == ByteOf(v, i)
  {
    if i > 0 {
      StoredByteOf(v / 256, n - 1, i - 1);
      ByteOfStep(v, i);
    }
  }

  lemma ByteOfStep(v: nat, i: nat)
    requires 0 < i < 8
    ensures ByteOf(v / 256, i - 1) == ByteOf(v, i)
  {
    match i
    case 1 =>
    case 2 => DivTwice(v, v / 256, 0x100);
    case 3 => DivTwice(v, v / 256, 0x1_0000);
    case 4 => DivTwice(v, v / 256, 0x100_0000);
    case 5 => DivTwice(v, v / 256, 0x1_0000_0000);
    case 6 => DivTwice(v, v / 256, 0x100_0000_0000);
    case 7 => DivTwice(v, v / 256, 0x1_0000_0000_0000);
  }

  lemma DivTwice(v: nat, u: nat, c: nat)
    requires u == v / 256 && c > 0
    ensures v / (256 * c) == u / c
  {
    DivMod(u, c);
    var q, r, t := u / c, u % c, v % 256;
    Nested(q, c, 256, r, t);
    DivRem(q, r * 256 + t, c * 256);
  }

  /** A store puts the bytes of the word, the lowest first, at its address, and
      leaves every other byte; outside RAM it leaves all of them. */
  lemma StoreIsBytes(ranges: seq<Range>, addr: nat, size: nat, v: nat, a: nat)
    requires Registered(ranges) && WordSize(size) && addr % size == 0
    ensures ByteAt(Stored(ranges, addr, size, v), a)
         == if addr <= a < addr + size && InRam(ranges, addr) then ByteOf(v, a - addr) else ByteAt(ranges, a)
  {
    hide ByteAt;
    hide ByteOf;
    hide Find;
    hide ToBytes;
    var t := Stored(ranges, addr, size, v);
    FindSame(ranges, t, a);
    ByteFound(ranges, a);
    ByteFound(t, a);
    if InRam(ranges, addr) {
      WordFits(ranges, addr, size);
      if addr <= a < addr + size {
        FindWord(ranges, addr, size, a - addr);
        StoredByteOf(v, size, a - addr);
      }
    }
  }

  // ----- the walk follows the tables

  lemma ModeIs(s: Cpu)
    requires s.Valid()
    ensures Bare(s) <==> s.Mode() == 0
    ensures s.maxXlen == 64 ==> s.Mode() == s.satp / 0x1000_0000_0000_0000
  {
    PowerTable();
    hide Pow2;
  }

  lemma SpanAt(s: Cpu, level: nat)
    requires s.Valid() && level < s.Levels() && !Bare(s)
    ensures |Spans(s)| == s.Levels() && Spans(s)[level] == Pow2(LevelShift(s, level))
  {
    ModeIs(s);
    PowerTable();
    hide Pow2;
    hide Cpu.Mode;
    hide Bare;
    var n := s.Levels() - 1 - level;
    assert n == 0 || n == 1 || n == 2 || n == 3;
  }

  lemma EntryBy(s: Cpu, table: nat, v: nat, level: nat, d: nat)
    requires s.Valid() && level < s.Levels() && d == Pow2(LevelShift(s, level))
    ensures d > 0
    ensures EntryAddr(s, table, v, level)
         == if s.maxXlen != 32 then (table + 8 * (v / d % 512)) % 0x1_0000_0000_0000_0000
            else (table + 4 * (v / d % 1024)) % 0x1_0000_0000
  {
    PowerTable();
    hide Pow2;
    hide LevelShift;
    hide Cpu.Mode;
    hide Cpu.Levels;
  }

  lemma EntryIs(s: Cpu, table: nat, v: nat, level: nat)
    requires s.Valid() && level < s.Levels() && !Bare(s)
    ensures |Spans(s)| == s.Levels() && Spans(s)[level] > 0
    ensures EntryAddr(s, table, v, level)
         == if s.maxXlen != 32 then (table + 8 * (v / Spans(s)[level] % 512)) % 0x1_0000_0000_0000_0000
            else (table + 4 * (v / Spans(s)[level] % 1024)) % 0x1_0000_0000
  {
    hide *;
    SpanAt(s, level);
    EntryBy(s, table, v, level, Spans(s)[level]);
  }

  lemma FrameIs(s: Cpu, pte: nat)
    requires s.Valid()
    ensures Frame(s, pte) == PageFrame(pte, s.maxXlen != 32) && Root(s) == RootTable(s)
  {
    PowerTable();
    hide Pow2;
  }

  lemma JoinIs(s: Cpu, v: nat, pte: nat, level: nat, at: nat)
    requires s.Valid() && level < s.Levels() && !Bare(s)
    ensures |Spans(s)| == s.Levels() && Spans(s)[level] > 0
    ensures Join(v, Frame(s, pte), LevelShift(s, level)) == Target(s, Leaf(at, pte, Spans(s)[level]), v)
  {
    SpanAt(s, level);
    FrameIs(s, pte);
    hide Pow2;
    hide LevelShift;
    hide Spans;
    hide Frame;
    hide PageFrame;
  }

  lemma BitsOf(x: nat)
    requires x < 8
    ensures x == x % 2 + 2 * (x / 2 % 2) + 4 * (x / 4 % 2)
  {
  }

  lemma XwrIs(pte: nat)
    ensures Xwr(pte) == pte / 2 % 2 + 2 * (pte / 4 % 2) + 4 * (pte / 8 % 2)
  {
    var q, x := pte / 16, pte / 2 % 8;
    LowBits(pte / 2, pte / 2 / 8, x);
    BitsOf(x);
    HalfOf(pte);
  }

  lemma LowBits(p: nat, q: nat, x: nat)
    requires p == 8 * q + x && x < 8
    ensures p % 2 == x % 2 && p / 2 % 2 == x / 2 % 2 && p / 4 % 2 == x / 4 % 2
  {
    ModMultiple(4 * q, x, 2);
    ModMultiple(2 * q, x / 2, 2);
    ModMultiple(q, x / 4, 2);
    ModMultiple(2 * q, x, 4);
  }

  lemma HalfOf(p: nat)
    ensures p / 2 / 2 == p / 4 && p / 2 / 4 == p / 8
  {
  }

  lemma AllowedIs(s: Cpu, pte: nat, access: Access)
    ensures Permitted(s, pte, access) == Allowed(s, pte, access)
    ensures s.PrivFor(access) == Privilege(s, access)
  {
    PowerTable();
    XwrIs(pte);
    hide Pow2;
    hide Xwr;
  }

  /** What the walk makes of the leaf it meets. */
  function Settled(s: Cpu, leaf: Option<Leaf>, v: nat, access: Access): Option<Hit>
    requires leaf.Some? ==> leaf.value.span > 0
  {
    match leaf
    case None => None
    case Some(l) => if Allowed(s, l.pte, access) then Some(Hit(Target(s, l, v), l.at, l.pte)) else None
  }

  lemma PteIs(s: Cpu, ranges: seq<Range>, at: nat)
    requires s.Valid() && Registered(ranges) && OnEntry(s, at)
    ensures Word(ranges, at, s.PteSize()) == if s.maxXlen != 32 then Word64(ranges, at) else Word32(ranges, at)
  {
    WordIsBytes(ranges, at);
    hide Word;
    hide Word32;
    hide Word64;
  }

  lemma SearchStep(ranges: seq<Range>, v: nat, spans: seq<nat>, table: nat, wide: bool, at: nat, pte: nat)
    requires spans != [] && forall i :: 0 <= i < |spans| ==> spans[i] > 0
    requires at == if wide then (table + 8 * (v / spans[0] % 512)) % 0x1_0000_0000_0000_0000
                   else (table + 4 * (v / spans[0] % 1024)) % 0x1_0000_0000
    requires pte == if wide then Word64(ranges, at) else Word32(ranges, at)
    ensures Search(ranges, v, spans, table, wide)
         == if !ValidBit(pte) then None
            else if Xwr(pte) == 0 then Search(ranges, v, spans[1..], PageFrame(pte, wide), wide)
            else Some(Leaf(at, pte, spans[0]))
  {
    XwrIs(pte);
    hide Xwr;
    hide Word32;
    hide Word64;
    hide PageFrame;
  }

  /** The walk from any table is the search with the remaining spans. */
  lemma {:induction false} WalkIsSearch(s: Cpu, ranges: seq<Range>, v: nat, access: Access, level: nat, table: nat)
    requires s.Valid() && Registered(ranges) && !Bare(s) && level <= s.Levels() == |Spans(s)| && OnEntry(s, table)
    requires forall i :: 0 <= i < |Spans(s)| ==> Spans(s)[i] > 0
    ensures Walk(s, ranges, v, access, level, table)
         == Settled(s, Search(ranges, v, Spans(s)[level..], table, s.maxXlen != 32), v, access)
    decreases s.Levels() - level
  {
    hide *;
    var wide := s.maxXlen != 32;
    var spans := Spans(s)[level..];
    if level == s.Levels() {
      WalkEnd(s, ranges, v, access, table);
      assert spans == [];
      SearchEnd(s, ranges, v, access, table);
    } else {
      var at := EntryAddr(s, table, v, level);
      Aligned(s, table, v, level);
      EntryIs(s, table, v, level);
      PteIs(s, ranges, at);
      var pte := Word(ranges, at, s.PteSize());
      WalkStep(s, ranges, v, access, level, table);
      SearchStep(ranges, v, spans, table, wide, at, pte);
      FrameIs(s, pte);
      FrameAligned(s, pte);
      AllowedIs(s, pte, access);
      JoinIs(s, v, pte, level, at);
      SettledIs(s, Leaf(at, pte, spans[0]), v, access);
      assert Spans(s)[level + 1..] == spans[1..];
      WalkIsSearch(s, ranges, v, access, level + 1, Frame(s, pte));
    }
  }

  lemma SearchEnd(s: Cpu, ranges: seq<Range>, v: nat, access: Access, table: nat)
    ensures Settled(s, Search(ranges, v, [], table, s.maxXlen != 32), v, access) == None
    ensures Settled(s, None, v, access) == None
  {
  }

  lemma SettledIs(s: Cpu, leaf: Leaf, v: nat, access: Access)
    requires leaf.span > 0
    ensures Settled(s, None, v, access) == None
    ensures Settled(s, Some(leaf), v, access)
         == if Allowed(s, leaf.pte, access) then Some(Hit(Target(s, leaf, v), leaf.at, leaf.pte)) else None
  {
  }

  lemma CanonicalIs(s: Cpu, v: nat)
    requires s.Valid() && !Bare(s)
    ensures Extended(s, v) <==> s.maxXlen != 64 || Canonical(s, v)
  {
    ModeIs(s);
    PowerTable();
    hide Pow2;
    hide Cpu.Mode;
    if s.maxXlen == 64 {
      if s.Levels() == 3 {
        TopBits(v, 0x40_0000_0000, 0x400_0000);
      } else {
        TopBits(v, 0x8000_0000_0000, 0x2_0000);
      }
    }
  }

  lemma TopBits(v: nat, d: nat, n: nat)
    requires d > 0 && n > 0
    ensures v / d == 0 <==> v < d
    ensures v / d == n - 1 <==> n * d - d <= v < n * d
  {
    DivMod(v, d);
    var q := v / d;
    Distribute(n, -1, d);
    Distribute(q, 1, d);
    if q < n - 1 {
      MulMono(q + 1, n - 1, d);
    } else if q > n - 1 {
      MulMono(n, q, d);
    }
  }

  /** The leaf that the walk ends in, as the tables written out have it. */
  lemma WalkOfIs(s: Cpu, ranges: seq<Range>, v: nat, access: Access)
    requires s.Valid() && Registered(ranges)
    ensures WalkOf(s, ranges, v, access)
         == match LeafOf(s, ranges, v, access)
            case None => None
            case Some(leaf) => Some(Hit(Target(s, leaf, v), leaf.at, leaf.pte))
  {
    hide Walk;
    hide Search;
    hide Extended;
    hide Canonical;
    hide Spans;
    hide Root;
    hide RootTable;
    hide Target;
    hide Allowed;
    hide Permitted;
    hide Bare;
    hide Cpu.Mode;
    hide Cpu.PrivFor;
    hide Privilege;
    AllowedIs(s, 0, access);
    ModeIs(s);
    FrameIs(s, 0);
    if s.PrivFor(access) != 3 && !Bare(s) {
      CanonicalIs(s, v);
      FrameAligned(s, 0);
      hide OnEntry;
      SpansPositive(s);
      WalkIsSearch(s, ranges, v, access, 0, Root(s));
      assert Spans(s)[0..] == Spans(s);
    }
  }

  lemma SpansPositive(s: Cpu)
    requires s.Valid() && !Bare(s)
    ensures |Spans(s)| == s.Levels() && forall i :: 0 <= i < |Spans(s)| ==> Spans(s)[i] > 0
  {
    SpanAt(s, 0);
  }

  /** A translation delivers what the tables written out deliver. */
  lemma TranslateIs(s: Cpu, ranges: seq<Range>, v: nat, access: Access)
    requires s.Valid() && Registered(ranges)
    ensures Translate(s, ranges, v, access) == Translation(s, ranges, v, access)
  {
    hide WalkOf;
    hide LeafOf;
    hide Pow2;
    hide Target;
    hide Bare;
    hide Cpu.Mode;
    hide Cpu.PrivFor;
    hide Privilege;
    AllowedIs(s, 0, access);
    ModeIs(s);
    WalkOfIs(s, ranges, v, access);
  }

  lemma TouchedIs(pte: nat, access: Access)
    ensures Marked(pte, access) == Touched(pte, access) && (NeedWrite(pte, access) <==> Touched(pte, access) != pte)
  {
    AddAccessed(pte);
    hide Alike;
  }

  /** A translation leaves the bytes of its leaf entry with the A bit set, and the D
      bit when it is for a store, and every other byte as it was. */
  lemma BytesAfter(s: Cpu, ranges: seq<Range>, v: nat, access: Access, a: nat)
    requires s.Valid() && Registered(ranges)
    ensures ByteAt(After(s, ranges, v, access), a)
         == match LeafOf(s, ranges, v, access)
            case None => ByteAt(ranges, a)
            case Some(leaf) =>
              var pte := Touched(leaf.pte, access);
              if leaf.at <= a < leaf.at + (if s.maxXlen == 32 then 4 else 8) && pte != leaf.pte then
                ByteOf(pte, a - leaf.at)
              else ByteAt(ranges, a)
  {
    hide Walk;
    hide LeafOf;
    hide Stored;
    hide ByteAt;
    hide ByteOf;
    hide Touched;
    hide Marked;
    hide NeedWrite;
    hide Target;
    WalkOfIs(s, ranges, v, access);
    FrameAligned(s, 0);
    hide Root;
    HitIsEntry(s, ranges, v, access, 0, Root(s));
    var w := WalkOf(s, ranges, v, access);
    if w.Some? {
      var hit := w.value;
      TouchedIs(hit.pte, access);
      EntrySize(s, hit.pteAddr);
      ValidInRam(s, ranges, hit.pteAddr);
      StoreIsBytes(ranges, hit.pteAddr, s.PteSize(), Touched(hit.pte, access), a);
    }
  }

  lemma ValidInRam(s: Cpu, ranges: seq<Range>, at: nat)
    requires ValidBit(Word(ranges, at, s.PteSize()))
    ensures InRam(ranges, at)
  {
  }
}
