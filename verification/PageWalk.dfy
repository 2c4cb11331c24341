/** `get_phys_addr` of lib/tinyemu/riscv_cpu.c: address translation through
    multi-level page tables, with the accessed and dirty bits written back into
    the memory that the walk reads. */
module PageWalk {
  import opened Options
  import opened Powers
  import opened PhysMemory

  datatype Access = Read | Write | Code

  /** The registers that translation depends on; MAX_XLEN is fixed at build time. */
  datatype Cpu = Cpu(maxXlen: nat, curXlen: nat, satp: nat, mstatus: nat, priv: nat) {
    /** What the writers of `satp` and `priv` keep. */
    predicate Valid() {
      && (maxXlen == 32 || maxXlen == 64) && curXlen <= maxXlen && satp < Pow2(maxXlen) && priv < 4
      && (maxXlen == 64 ==> Mode() == 0 || Mode() == 8 || Mode() == 9)
    }

    function Mode(): nat {
      if maxXlen == 32 then Shr(satp, 31) else Shr(satp, 60)
    }

    function Levels(): nat
      requires Valid()
    {
      if maxXlen == 32 || Mode() == 0 then 2 else Mode() - 8 + 3
    }

    function PteSize(): (size: nat)
      ensures WordSize(size)
    {
      if maxXlen == 32 then 4 else 8
    }

    /** Index bits of a level: 12 less the logarithm of the entry size. */
    function PteBits(): nat {
      if maxXlen == 32 then 10 else 9
    }

    function PteAddrBits(): nat {
      if maxXlen == 32 then 22 else 44
    }

    /** MPRV replaces the privilege of loads and stores by MPP. */
    function PrivFor(access: Access): nat {
      if Low(Shr(mstatus, 17), 1) == 1 && access != Code then Low(Shr(mstatus, 11), 2) else priv
    }

    predicate Sum() {
      Low(Shr(mstatus, 18), 1) == 1
    }

    predicate Mxr() {
      Low(Shr(mstatus, 19), 1) == 1
    }
  }

  // ----- page table entries

  function ValidBit(pte: nat): bool { pte % 2 == 1 }

  /** The X, W and R bits. */
  function Xwr(pte: nat): nat { pte / 2 % 8 }

  function UserBit(pte: nat): bool { pte / 16 % 2 == 1 }

  function AccessedBit(pte: nat): bool { pte / 64 % 2 == 1 }

  function DirtyBit(pte: nat): bool { pte / 128 % 2 == 1 }

  function Frame(s: Cpu, pte: nat): nat {
    Low(pte / 1024 * 4096, s.maxXlen)
  }

  /** Whether a leaf entry allows the access. */
  predicate Permitted(s: Cpu, pte: nat, access: Access) {
    var xwr := Xwr(pte);
    && xwr != 2 && xwr != 6
    && (if s.PrivFor(access) == 1 then !UserBit(pte) || s.Sum() else UserBit(pte))
    && match access
       case Read => xwr % 2 == 1 || (s.Mxr() && xwr >= 4)
       case Write => xwr / 2 % 2 == 1
       case Code => xwr >= 4
  }

  function SetAccessed(pte: nat): nat {
    if AccessedBit(pte) then pte else pte + 64
  }

  function SetDirty(pte: nat): nat {
    if DirtyBit(pte) then pte else pte + 128
  }

  function Marked(pte: nat, access: Access): nat {
    if access == Write then SetDirty(SetAccessed(pte)) else SetAccessed(pte)
  }

  predicate NeedWrite(pte: nat, access: Access) {
    !AccessedBit(pte) || (!DirtyBit(pte) && access == Write)
  }

  // ----- the walk

  /** The leaf that a walk ends in. */
  datatype Hit = Hit(paddr: nat, pteAddr: nat, pte: nat)

  function Root(s: Cpu): nat {
    Low(Low(s.satp, s.PteAddrBits()) * 4096, s.maxXlen)
  }

  function LevelShift(s: Cpu, level: nat): nat
    requires s.Valid() && level < s.Levels()
  {
    12 + s.PteBits() * (s.Levels() - 1 - level)
  }

  function EntryAddr(s: Cpu, table: nat, vaddr: nat, level: nat): nat
    requires s.Valid() && level < s.Levels()
  {
    Low(table + Low(Shr(vaddr, LevelShift(s, level)), s.PteBits()) * s.PteSize(), s.maxXlen)
  }

  /** The address is a multiple of the entry size. */
  predicate OnEntry(s: Cpu, addr: nat) {
    addr % s.PteSize() == 0
  }

  lemma Aligned(s: Cpu, table: nat, vaddr: nat, level: nat)
    requires s.Valid() && level < s.Levels() && OnEntry(s, table)
    ensures OnEntry(s, EntryAddr(s, table, vaddr, level))
  {
    hide Pow2;
    hide Shr;
    hide Low;
    Pow2At12();
    var i := Low(Shr(vaddr, LevelShift(s, level)), s.PteBits());
    if s.maxXlen == 32 {
      assert table + i * 4 == (table / 4 + i) * Pow2(2);
      LowMultiple(table / 4 + i, 2, 32);
    } else {
      assert table + i * 8 == (table / 8 + i) * Pow2(3);
      LowMultiple(table / 8 + i, 3, 64);
    }
  }

  lemma LowMultiple(x: nat, k: nat, n: nat)
    requires k <= n
    ensures Low(x * Pow2(k), n) % Pow2(k) == 0
  {
    Pow2Add(n - k, k);
    var q := x / Pow2(n - k);
    var r := x % Pow2(n - k);
    DivMod(x, Pow2(n - k));
    var p, g := Pow2(n - k), Pow2(k);
    hide Pow2;
    Distribute(q * p, r, g);
    AssocNat(q, p, g);
    MulMono(r + 1, p, g);
    Distribute(r, 1, g);
    DivRem(q, r * g, p * g);
    DivRem(r, 0, g);
  }

  lemma FrameAligned(s: Cpu, pte: nat)
    requires s.Valid()
    ensures Frame(s, pte) % 4096 == 0 && Root(s) % 4096 == 0 && OnEntry(s, Frame(s, pte)) && OnEntry(s, Root(s))
  {
    Pow2At12();
    LowMultiple(pte / 1024, 12, s.maxXlen);
    LowMultiple(Low(s.satp, s.PteAddrBits()), 12, s.maxXlen);
    hide Pow2;
    PageMultiple(Frame(s, pte));
    PageMultiple(Root(s));
  }

  lemma PageMultiple(x: nat)
    requires x % 4096 == 0
    ensures x % 4 == 0 && x % 8 == 0
  {
    var k := x / 4096;
    DivRem(1024 * k, 0, 4);
    DivRem(512 * k, 0, 8);
  }

  lemma Pow2At12()
    ensures Pow2(12) == 4096 && Pow2(2) == 4 && Pow2(3) == 8
  {
    Pow2Next(0);
    Pow2Next(4);
    Pow2Next(8);
  }

  /** The walk from a given table and level: the permitted leaf it ends in, if any. */
  function Walk(s: Cpu, ranges: seq<Range>, vaddr: nat, access: Access, level: nat, table: nat): Option<Hit>
    requires s.Valid() && level <= s.Levels()
    decreases s.Levels() - level
  {
    if level == s.Levels() then None
    else
      var at := EntryAddr(s, table, vaddr, level);
      var pte := Word(ranges, at, s.PteSize());
      if !ValidBit(pte) then None
      else if Xwr(pte) == 0 then Walk(s, ranges, vaddr, access, level + 1, Frame(s, pte))
      else if Permitted(s, pte, access) then Some(Hit(Join(vaddr, Frame(s, pte), LevelShift(s, level)), at, pte))
      else None
  }

  /** `(vaddr & vaddr_mask) | (paddr & ~vaddr_mask)`. */
  function Join(vaddr: nat, paddr: nat, shift: nat): nat {
    Low(vaddr, shift) + Shr(paddr, shift) * Pow2(shift)
  }

  /** The bits above the translated ones repeat the highest of them. */
  predicate Canonical(s: Cpu, vaddr: nat)
    requires s.Valid()
  {
    var top := 12 + s.Levels() * 9 - 1;
    Shr(vaddr, top) == 0 || Shr(vaddr, top) == Pow2(64 - top) - 1
  }

  predicate Translated(s: Cpu, access: Access) {
    s.PrivFor(access) != 3 && s.Mode() != 0
  }

  function WalkOf(s: Cpu, ranges: seq<Range>, vaddr: nat, access: Access): Option<Hit>
    requires s.Valid()
  {
    if !Translated(s, access) || (s.maxXlen == 64 && !Canonical(s, vaddr)) then None
    else Walk(s, ranges, vaddr, access, 0, Root(s))
  }

  /** The outcome of a translation: the physical address, or a fault. */
  function Translate(s: Cpu, ranges: seq<Range>, vaddr: nat, access: Access): Option<nat>
    requires s.Valid()
  {
    if s.PrivFor(access) == 3 then Some(if s.curXlen < s.maxXlen then Low(vaddr, s.curXlen) else vaddr)
    else if s.Mode() == 0 then Some(vaddr)
    else match WalkOf(s, ranges, vaddr, access)
      case None => None
      case Some(hit) => Some(hit.paddr)
  }

  /** The memory after a translation. */
  function After(s: Cpu, ranges: seq<Range>, vaddr: nat, access: Access): (r: seq<Range>)
    requires s.Valid()
  {
    match WalkOf(s, ranges, vaddr, access)
    case None => ranges
    case Some(hit) =>
      if NeedWrite(hit.pte, access) then Stored(ranges, hit.pteAddr, s.PteSize(), Marked(hit.pte, access)) else ranges
  }

  lemma {:induction false} HitIsEntry(s: Cpu, ranges: seq<Range>, vaddr: nat, access: Access, level: nat, table: nat)
    requires s.Valid() && Registered(ranges) && level <= s.Levels() && OnEntry(s, table)
    ensures var w := Walk(s, ranges, vaddr, access, level, table);
            w.Some? ==>
              && OnEntry(s, w.value.pteAddr) && w.value.pte == Word(ranges, w.value.pteAddr, s.PteSize())
              && ValidBit(w.value.pte) && Permitted(s, w.value.pte, access)
    decreases s.Levels() - level
  {
    hide Word;
    hide EntryAddr;
    hide Frame;
    hide Permitted;
    hide ValidBit;
    hide Xwr;
    hide Join;
    hide OnEntry;
    if level < s.Levels() {
      Aligned(s, table, vaddr, level);
      var pte := Word(ranges, EntryAddr(s, table, vaddr, level), s.PteSize());
      FrameAligned(s, pte);
      if ValidBit(pte) && Xwr(pte) == 0 {
        HitIsEntry(s, ranges, vaddr, access, level + 1, Frame(s, pte));
      }
    }
  }

  // ----- entries that differ in the accessed and dirty bits only

  predicate Alike(p: nat, q: nat) {
    p / 256 == q / 256 && p % 64 == q % 64
  }

  lemma AlikeFields(s: Cpu, p: nat, q: nat, access: Access)
    requires Alike(p, q)
    ensures ValidBit(p) == ValidBit(q) && Xwr(p) == Xwr(q) && UserBit(p) == UserBit(q)
    ensures Frame(s, p) == Frame(s, q) && Permitted(s, p, access) == Permitted(s, q, access)
  {
    hide Low;
    LowFields(p, p / 64, p % 64);
    LowFields(q, q / 64, q % 64);
    HighField(p, p / 256, p % 256);
    HighField(q, q / 256, q % 256);
  }

  lemma ModMultiple(k: nat, c: nat, d: nat)
    requires d > 0
    ensures (k * d + c) % d == c % d && (k * d + c) / d == k + c / d
  {
    DivMod(c, d);
    Distribute(k, c / d, d);
    DivRem(k + c / d, c % d, d);
  }

  lemma LowFields(p: nat, a: nat, b: nat)
    requires p == 64 * a + b && b < 64
    ensures p % 2 == b % 2 && p / 2 % 8 == b / 2 % 8 && p / 16 % 2 == b / 16 % 2
  {
    ModMultiple(32 * a, b, 2);
    ModMultiple(4 * a, b / 2, 8);
    ModMultiple(4 * a, b, 16);
    ModMultiple(2 * a, b / 16, 2);
  }

  lemma HighField(p: nat, a: nat, b: nat)
    requires p == 256 * a + b && b < 256
    ensures p / 1024 == a / 4
  {
  }

  lemma MarkedAlike(pte: nat, access: Access)
    ensures Alike(Marked(pte, access), pte)
  {
    AddAccessed(pte);
    AddDirty(SetAccessed(pte));
  }

  lemma AddAccessed(pte: nat)
    ensures Alike(SetAccessed(pte), pte) && AccessedBit(SetAccessed(pte)) && DirtyBit(SetAccessed(pte)) == DirtyBit(pte)
  {
    ByteFields(pte, pte / 256, pte % 256);
    ByteFields(SetAccessed(pte), pte / 256, SetAccessed(pte) - 256 * (pte / 256));
  }

  lemma AddDirty(pte: nat)
    ensures Alike(SetDirty(pte), pte) && DirtyBit(SetDirty(pte)) && AccessedBit(SetDirty(pte)) == AccessedBit(pte)
  {
    ByteFields(pte, pte / 256, pte % 256);
    ByteFields(SetDirty(pte), pte / 256, SetDirty(pte) - 256 * (pte / 256));
  }

  lemma ByteFields(p: nat, a: nat, b: nat)
    requires p == 256 * a + b && b < 256
    ensures p / 256 == a && p % 64 == b % 64 && p / 64 % 2 == b / 64 % 2 && p / 128 % 2 == b / 128
  {
    ModMultiple(a, b, 256);
    ModMultiple(4 * a, b, 64);
    ModMultiple(2 * a, b / 64, 2);
    ModMultiple(2 * a, b, 128);
    ModMultiple(a, b / 128, 2);
  }

  ghost predicate AlikeMemory(size: nat, r: seq<Range>, t: seq<Range>)
    requires WordSize(size)
  {
    forall addr: nat | addr % size == 0 :: Alike(Word(r, addr, size), Word(t, addr, size))
  }

  lemma AlikeAt(s: Cpu, r: seq<Range>, t: seq<Range>, at: nat)
    requires AlikeMemory(s.PteSize(), r, t) && OnEntry(s, at)
    ensures Alike(Word(r, at, s.PteSize()), Word(t, at, s.PteSize()))
  {
    hide Word;
  }

  /** Walks over memories that are alike end in the same place. */
  lemma {:induction false} WalkAlike(s: Cpu, r: seq<Range>, t: seq<Range>, vaddr: nat, access: Access,
                                   level: nat, table: nat)
    requires s.Valid() && Registered(r) && Registered(t) && AlikeMemory(s.PteSize(), r, t)
    requires level <= s.Levels() && OnEntry(s, table)
    ensures var v, w := Walk(s, r, vaddr, access, level, table), Walk(s, t, vaddr, access, level, table);
            v.Some? == w.Some? && (v.Some? ==> v.value.paddr == w.value.paddr && v.value.pteAddr == w.value.pteAddr)
    decreases s.Levels() - level
  {
    hide Word;
    hide EntryAddr;
    hide Frame;
    hide Permitted;
    hide ValidBit;
    hide Xwr;
    hide Join;
    hide OnEntry;
    if level < s.Levels() {
      Aligned(s, table, vaddr, level);
      var at := EntryAddr(s, table, vaddr, level);
      var p, q := Word(r, at, s.PteSize()), Word(t, at, s.PteSize());
      AlikeAt(s, r, t, at);
      hide Alike;
      hide AlikeMemory;
      AlikeFields(s, p, q, access);
      FrameAligned(s, p);
      if ValidBit(p) && Xwr(p) == 0 {
        WalkAlike(s, r, t, vaddr, access, level + 1, Frame(s, p));
      }
    }
  }

  lemma EntryStored(s: Cpu, ranges: seq<Range>, at: nat, access: Access, addr: nat)
    requires Registered(ranges) && OnEntry(s, at) && OnEntry(s, addr)
    ensures var v := Marked(Word(ranges, at, s.PteSize()), access);
            Alike(Word(Stored(ranges, at, s.PteSize(), v), addr, s.PteSize()), Word(ranges, addr, s.PteSize()))
  {
    var pte := Word(ranges, at, s.PteSize());
    MarkedAlike(pte, access);
    MarkedBound(pte, access, s.PteSize());
    WordAfterStore(ranges, at, s.PteSize(), Marked(pte, access), addr);
    hide Marked;
    hide Word;
    hide Stored;
  }

  /** The write-back leaves a memory that is alike. */
  lemma AfterAlike(s: Cpu, ranges: seq<Range>, vaddr: nat, access: Access)
    requires s.Valid() && Registered(ranges)
    ensures AlikeMemory(s.PteSize(), After(s, ranges, vaddr, access), ranges)
  {
    FrameAligned(s, 0);
    hide Root;
    hide Canonical;
    HitIsEntry(s, ranges, vaddr, access, 0, Root(s));
    hide Walk;
    hide Alike;
    hide Marked;
    hide NeedWrite;
    hide Word;
    hide Stored;
    var w := WalkOf(s, ranges, vaddr, access);
    forall addr: nat | addr % s.PteSize() == 0
      ensures Alike(Word(After(s, ranges, vaddr, access), addr, s.PteSize()), Word(ranges, addr, s.PteSize()))
    {
      AlikeSelf(Word(ranges, addr, s.PteSize()));
      if w.Some? {
        EntryStored(s, ranges, w.value.pteAddr, access, addr);
      }
    }
  }

  lemma AlikeSelf(p: nat)
    ensures Alike(p, p)
  {
  }

  lemma MarkedBound(pte: nat, access: Access, size: nat)
    requires WordSize(size) && pte < Pow256(size)
    ensures Marked(pte, access) < Pow256(size)
  {
    MarkedAlike(pte, access);
    assert Pow256(size) == 256 * Pow256(size - 1);
    hide Pow256;
  }

  /** The accessed and dirty bits that a translation sets change the outcome of no
      translation: not for any address or access, nor any `satp`, `mstatus` and
      privilege of a hart with the same entry size. */
  lemma UpdateInvisible(s: Cpu, ranges: seq<Range>, vaddr: nat, access: Access, s': Cpu, vaddr': nat, access': Access)
    requires s.Valid() && s'.Valid() && s.maxXlen == s'.maxXlen && Registered(ranges)
    ensures Translate(s', After(s, ranges, vaddr, access), vaddr', access') == Translate(s', ranges, vaddr', access')
  {
    AfterAlike(s, ranges, vaddr, access);
    FrameAligned(s', 0);
    hide After;
    hide AlikeMemory;
    hide Root;
    hide OnEntry;
    hide Canonical;
    WalkAlike(s', After(s, ranges, vaddr, access), ranges, vaddr', access', 0, Root(s'));
    hide Walk;
  }

  /** A walk over the updated memory meets the same leaf, now marked. */
  lemma MarkedHit(s: Cpu, ranges: seq<Range>, vaddr: nat, access: Access)
    requires s.Valid() && Registered(ranges)
    requires var w := WalkOf(s, ranges, vaddr, access); w.Some? && NeedWrite(w.value.pte, access)
    ensures var v, w := WalkOf(s, After(s, ranges, vaddr, access), vaddr, access), WalkOf(s, ranges, vaddr, access);
            v.Some? && v.value.pte == Marked(w.value.pte, access)
  {
    var w := WalkOf(s, ranges, vaddr, access).value;
    var once := Stored(ranges, w.pteAddr, s.PteSize(), Marked(w.pte, access));
    AfterAlike(s, ranges, vaddr, access);
    FrameAligned(s, 0);
    hide AlikeMemory;
    hide Root;
    hide OnEntry;
    hide Canonical;
    hide Marked;
    hide NeedWrite;
    hide Stored;
    HitIsEntry(s, ranges, vaddr, access, 0, Root(s));
    HitIsEntry(s, once, vaddr, access, 0, Root(s));
    WalkAlike(s, once, ranges, vaddr, access, 0, Root(s));
    hide Walk;
    EntryAfter(s, ranges, w.pteAddr, access);
  }

  lemma EntryAfter(s: Cpu, ranges: seq<Range>, at: nat, access: Access)
    requires Registered(ranges) && OnEntry(s, at) && ValidBit(Word(ranges, at, s.PteSize()))
    ensures var v := Marked(Word(ranges, at, s.PteSize()), access);
            Word(Stored(ranges, at, s.PteSize(), v), at, s.PteSize()) == v
  {
    var pte := Word(ranges, at, s.PteSize());
    assert InRam(ranges, at);
    MarkedBound(pte, access, s.PteSize());
    hide Marked;
    WordAfterStore(ranges, at, s.PteSize(), Marked(pte, access), at);
  }

  /** Repeating a translation writes nothing more. */
  lemma RepeatWritesNothing(s: Cpu, ranges: seq<Range>, vaddr: nat, access: Access)
    requires s.Valid() && Registered(ranges)
    ensures var once := After(s, ranges, vaddr, access); After(s, once, vaddr, access) == once
  {
    var w := WalkOf(s, ranges, vaddr, access);
    if w.Some? && NeedWrite(w.value.pte, access) {
      MarkedHit(s, ranges, vaddr, access);
      AddAccessed(w.value.pte);
      AddDirty(SetAccessed(w.value.pte));
      hide WalkOf;
      hide Stored;
    }
  }

  /** Where a store is allowed a load is, at the same address. */
  lemma WriteImpliesRead(s: Cpu, ranges: seq<Range>, vaddr: nat)
    requires s.Valid() && Registered(ranges) && Translate(s, ranges, vaddr, Write).Some?
    ensures Translate(s, ranges, vaddr, Read) == Translate(s, ranges, vaddr, Write)
  {
    FrameAligned(s, 0);
    if Translated(s, Write) {
      WalkWriteRead(s, ranges, vaddr, 0, Root(s));
    }
  }

  lemma WritableIsReadable(s: Cpu, pte: nat)
    requires Permitted(s, pte, Write)
    ensures Permitted(s, pte, Read)
  {
    var x := pte / 2 % 8;
    assert x == Xwr(pte);
    WritableXwr(x);
    hide Xwr;
  }

  lemma WritableXwr(x: nat)
    requires x < 8 && x != 2 && x != 6 && x / 2 % 2 == 1
    ensures x % 2 == 1
  {
  }

  lemma {:induction false} WalkWriteRead(s: Cpu, ranges: seq<Range>, vaddr: nat, level: nat, table: nat)
    requires s.Valid() && Registered(ranges) && level <= s.Levels() && OnEntry(s, table)
    requires Walk(s, ranges, vaddr, Write, level, table).Some?
    ensures Walk(s, ranges, vaddr, Read, level, table) == Walk(s, ranges, vaddr, Write, level, table)
    decreases s.Levels() - level
  {
    hide Word;
    hide EntryAddr;
    hide Frame;
    hide ValidBit;
    hide Xwr;
    hide Permitted;
    hide Join;
    hide OnEntry;
    Aligned(s, table, vaddr, level);
    var pte := Word(ranges, EntryAddr(s, table, vaddr, level), s.PteSize());
    FrameAligned(s, pte);
    if Permitted(s, pte, Write) {
      WritableIsReadable(s, pte);
    }
    if Xwr(pte) == 0 {
      WalkWriteRead(s, ranges, vaddr, level + 1, Frame(s, pte));
    }
  }

  // ----- the function of the source

  /** `get_phys_addr`: `None` stands for the translation error. */
  method GetPhysAddr(s: Cpu, mem: Memory, vaddr: nat, access: Access) returns (paddr: Option<nat>)
    requires s.Valid() && mem.Valid()
    modifies mem
    ensures mem.Valid() && paddr == Translate(s, old(mem.ranges), vaddr, access)
    ensures mem.ranges == After(s, old(mem.ranges), vaddr, access)
  {
    hide Pow2;
    hide Low;
    hide Shr;
    hide Walk;
    hide Canonical;
    hide Stored;
    hide Registered;
    var priv := if Low(Shr(s.mstatus, 17), 1) == 1 && access != Code then Low(Shr(s.mstatus, 11), 2) else s.priv;
    if priv == 3 {
      return Some(if s.curXlen < s.maxXlen then Low(vaddr, s.curXlen) else vaddr);
    }
    if s.Mode() == 0 {
      return Some(vaddr);
    }
    if s.maxXlen == 64 && !Canonical(s, vaddr) {
      return None;
    }
    paddr := WalkTables(s, mem, vaddr, access, priv);
  }

  /** The loop over the levels. */
  method WalkTables(s: Cpu, mem: Memory, vaddr: nat, access: Access, priv: nat) returns (paddr: Option<nat>)
    requires s.Valid() && mem.Valid() && priv == s.PrivFor(access) && Translated(s, access)
    requires s.maxXlen == 64 ==> Canonical(s, vaddr)
    modifies mem
    ensures mem.Valid() && paddr == Translate(s, old(mem.ranges), vaddr, access)
    ensures mem.ranges == After(s, old(mem.ranges), vaddr, access)
  {
    hide *;
    FrameAligned(s, 0);
    Outcome(s, mem.ranges, vaddr, access);
    var table := Root(s);
    var i := 0;
    while i < s.Levels()
      invariant i <= s.Levels() && mem.ranges == old(mem.ranges) && mem.Valid() && OnEntry(s, table)
      invariant Walk(s, mem.ranges, vaddr, access, i, table) == WalkOf(s, mem.ranges, vaddr, access)
    {
      Aligned(s, table, vaddr, i);
      var at := EntryAddr(s, table, vaddr, i);
      EntrySize(s, at);
      var pte := mem.ReadWord(at, s.PteSize());
      WalkStep(s, mem.ranges, vaddr, access, i, table);
      if !ValidBit(pte) {
        return None;
      }
      FrameAligned(s, pte);
      if Xwr(pte) != 0 {
        paddr := TryLeaf(s, mem, vaddr, access, priv, i, at, pte);
        return;
      }
      table := Frame(s, pte);
      i := i + 1;
    }
    WalkEnd(s, mem.ranges, vaddr, access, table);
    return None;
  }

  lemma WalkStep(s: Cpu, ranges: seq<Range>, vaddr: nat, access: Access, level: nat, table: nat)
    requires s.Valid() && level < s.Levels()
    ensures var at := EntryAddr(s, table, vaddr, level);
            var pte := Word(ranges, at, s.PteSize());
            Walk(s, ranges, vaddr, access, level, table) ==
              if !ValidBit(pte) then None
              else if Xwr(pte) == 0 then Walk(s, ranges, vaddr, access, level + 1, Frame(s, pte))
              else if Permitted(s, pte, access) then
                Some(Hit(Join(vaddr, Frame(s, pte), LevelShift(s, level)), at, pte))
              else None
  {
  }

  lemma WalkEnd(s: Cpu, ranges: seq<Range>, vaddr: nat, access: Access, table: nat)
    requires s.Valid()
    ensures Walk(s, ranges, vaddr, access, s.Levels(), table) == None
  {
  }

  /** What the result of the walk means. */
  lemma Outcome(s: Cpu, ranges: seq<Range>, vaddr: nat, access: Access)
    requires s.Valid() && Translated(s, access) && (s.maxXlen == 64 ==> Canonical(s, vaddr))
    ensures WalkOf(s, ranges, vaddr, access) == Walk(s, ranges, vaddr, access, 0, Root(s))
    ensures WalkOf(s, ranges, vaddr, access) == None ==>
              Translate(s, ranges, vaddr, access) == None && After(s, ranges, vaddr, access) == ranges
    ensures WalkOf(s, ranges, vaddr, access).Some? ==>
              var hit := WalkOf(s, ranges, vaddr, access).value;
              && Translate(s, ranges, vaddr, access) == Some(hit.paddr)
              && After(s, ranges, vaddr, access) == if NeedWrite(hit.pte, access)
                 then Stored(ranges, hit.pteAddr, s.PteSize(), Marked(hit.pte, access)) else ranges
  {
    hide Walk;
    hide Stored;
  }

  lemma EntrySize(s: Cpu, at: nat)
    requires OnEntry(s, at)
    ensures at % s.PteSize() == 0
  {
  }

  /** A leaf: the checks of the code, and the write-back. */
  method TryLeaf(s: Cpu, mem: Memory, vaddr: nat, access: Access, priv: nat, level: nat, at: nat, pte: nat)
    returns (paddr: Option<nat>)
    requires s.Valid() && mem.Valid() && priv == s.PrivFor(access) && Xwr(pte) != 0 && level < s.Levels()
    requires OnEntry(s, at)
    requires pte == Word(mem.ranges, at, s.PteSize())
    modifies mem
    ensures mem.Valid()
    ensures paddr == if Permitted(s, pte, access) then Some(Join(vaddr, Frame(s, pte), LevelShift(s, level))) else None
    ensures mem.ranges == if Permitted(s, pte, access) && NeedWrite(pte, access)
                          then Stored(old(mem.ranges), at, s.PteSize(), Marked(pte, access)) else old(mem.ranges)
  {
    var allowed := CheckLeaf(s, access, priv, pte);
    if !allowed {
      return None;
    }
    hide Permitted;
    hide Stored;
    hide Word;
    var needWrite := !AccessedBit(pte) || (!DirtyBit(pte) && access == Write);
    var marked := SetAccessed(pte);
    if access == Write {
      marked := SetDirty(marked);
    }
    if needWrite {
      EntrySize(s, at);
      MarkedBound(pte, access, s.PteSize());
      StoredRegistered(mem.ranges, at, s.PteSize(), marked);
      mem.WriteWord(at, s.PteSize(), marked);
    }
    return Some(Join(vaddr, Frame(s, pte), LevelShift(s, level)));
  }

  lemma StoredRegistered(ranges: seq<Range>, at: nat, size: nat, v: nat)
    requires Registered(ranges)
    ensures Registered(Stored(ranges, at, size, v))
  {
  }

  /** The privilege and protection checks. */
  method CheckLeaf(s: Cpu, access: Access, priv: nat, pte: nat) returns (allowed: bool)
    requires priv == s.PrivFor(access)
    ensures allowed == Permitted(s, pte, access)
  {
    hide Low;
    hide Shr;
    var xwr := Xwr(pte);
    if xwr == 2 || xwr == 6 {
      return false;
    }
    if priv == 1 {
      if UserBit(pte) && !s.Sum() {
        return false;
      }
    } else {
      if !UserBit(pte) {
        return false;
      }
    }
    XwrCases(xwr);
    if s.Mxr() && xwr >= 4 && xwr % 2 == 0 {
      xwr := xwr + 1;
    }
    XwrCases(xwr);
    allowed := match access case Read => xwr % 2 == 1 case Write => xwr / 2 % 2 == 1 case Code => xwr / 4 % 2 == 1;
  }

  lemma XwrCases(x: nat)
    requires x < 8
    ensures (x / 4 % 2 == 1 <==> x >= 4) && (x % 2 == 0 ==> (x + 1) / 2 % 2 == x / 2 % 2 && x + 1 < 8)
  {
  }

  // ----- pages

  /** The bits above the page offset, and the offset. */
  lemma PageSplit(v: nat, shift: nat)
    requires shift >= 12
    ensures Shr(v, shift) == Shr(v / 4096, shift - 12)
    ensures Low(v, shift) == Low(v / 4096, shift - 12) * 4096 + v % 4096
  {
    Pow2At12();
    Pow2Add(shift - 12, 12);
    var g, u, o := Pow2(shift - 12), v / 4096, v % 4096;
    hide Pow2;
    DivMod(u, g);
    DivMod(v, 4096);
    Nested(u / g, g, 4096, u % g, o);
    MulMono(u % g + 1, g, 4096);
    DivRem(u / g, u % g * 4096 + o, g * 4096);
  }

  lemma JoinPage(v: nat, paddr: nat, shift: nat)
    requires shift >= 12
    ensures Join(v, paddr, shift) % 4096 == v % 4096
    ensures Join(v, paddr, shift) / 4096 == Low(v / 4096, shift - 12) + Shr(paddr, shift) * Pow2(shift - 12)
  {
    Pow2At12();
    Pow2Add(shift - 12, 12);
    PageSplit(v, shift);
    var g, h, l := Pow2(shift - 12), Shr(paddr, shift), Low(v / 4096, shift - 12);
    hide Pow2;
    hide Shr;
    hide Low;
    AssocNat(h, g, 4096);
    DivRem(l + h * g, v % 4096, 4096);
  }

  predicate SameFrame(a: Option<Hit>, b: Option<Hit>, v: nat, v': nat) {
    && a.Some? == b.Some?
    && (a.Some? ==> && a.value.paddr / 4096 == b.value.paddr / 4096
                    && a.value.paddr % 4096 == v % 4096 && b.value.paddr % 4096 == v' % 4096)
  }

  lemma {:induction false} WalkSamePage(s: Cpu, ranges: seq<Range>, v: nat, v': nat, access: Access,
                                      level: nat, table: nat)
    requires s.Valid() && v / 4096 == v' / 4096 && level <= s.Levels()
    ensures SameFrame(Walk(s, ranges, v, access, level, table), Walk(s, ranges, v', access, level, table), v, v')
    decreases s.Levels() - level
  {
    hide Word;
    hide Frame;
    hide Permitted;
    hide ValidBit;
    hide Xwr;
    hide Join;
    hide Pow2;
    hide Low;
    hide Shr;
    if level < s.Levels() {
      var shift := LevelShift(s, level);
      assert shift >= 12 by { LevelShiftBound(s, level); }
      PageSplit(v, shift);
      PageSplit(v', shift);
      assert EntryAddr(s, table, v, level) == EntryAddr(s, table, v', level);
      var pte := Word(ranges, EntryAddr(s, table, v, level), s.PteSize());
      JoinPage(v, Frame(s, pte), shift);
      JoinPage(v', Frame(s, pte), shift);
      hide EntryAddr;
      hide LevelShift;
      if ValidBit(pte) && Xwr(pte) == 0 {
        WalkSamePage(s, ranges, v, v', access, level + 1, Frame(s, pte));
      }
    }
  }

  lemma LevelShiftBound(s: Cpu, level: nat)
    requires s.Valid() && level < s.Levels()
    ensures LevelShift(s, level) >= 12
  {
  }

  /** Addresses of one page go to one frame, each at its own offset, or fault alike:
      what is cached for one address of a page holds for all of them. */
  lemma SamePage(s: Cpu, ranges: seq<Range>, v: nat, v': nat, access: Access)
    requires s.Valid() && v / 4096 == v' / 4096 && Translated(s, access)
    ensures var a, b := Translate(s, ranges, v, access), Translate(s, ranges, v', access);
            && a.Some? == b.Some?
            && (a.Some? ==>
                  a.value / 4096 == b.value / 4096 && a.value % 4096 == v % 4096 && b.value % 4096 == v' % 4096)
  {
    hide Walk;
    hide Pow2;
    hide Shr;
    hide Low;
    WalkSamePage(s, ranges, v, v', access, 0, Root(s));
    PageSplit(v, 12 + s.Levels() * 9 - 1);
    PageSplit(v', 12 + s.Levels() * 9 - 1);
  }
}
