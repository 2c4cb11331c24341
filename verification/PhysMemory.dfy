/** lib/tinyemu/iomem.c: the physical memory map, with the little-endian word
    accesses that the page walk makes (lib/tinyemu/riscv_cpu.c). */
module PhysMemory {
  import opened Storage

  /** A `PhysMemoryRange`; RAM contents are those of its paged memory. */
  datatype Range = Range(base: nat, isRam: bool, bytes: seq<byte>)

  /** Ranges are registered at multiples of a page. */
  predicate Registered(ranges: seq<Range>) {
    forall i :: 0 <= i < |ranges| ==> ranges[i].base % 8 == 0 && |ranges[i].bytes| % 8 == 0
  }

  predicate Covers(r: Range, addr: nat) {
    r.base <= addr < r.base + |r.bytes|
  }

  /** The first range that covers the address, or the number of ranges. */
  function Find(ranges: seq<Range>, addr: nat): (i: nat)
    ensures i <= |ranges| && (i < |ranges| ==> Covers(ranges[i], addr))
    ensures forall j :: 0 <= j < i ==> !Covers(ranges[j], addr)
  {
    if ranges == [] then 0 else if Covers(ranges[0], addr) then 0 else 1 + Find(ranges[1..], addr)
  }

  predicate InRam(ranges: seq<Range>, addr: nat) {
    var i := Find(ranges, addr);
    i < |ranges| && ranges[i].isRam
  }

  predicate WordSize(size: nat) {
    size == 4 || size == 8
  }

  // ----- little-endian words

  function FromBytes(b: seq<byte>): nat {
    if b == [] then 0 else b[0] as nat + 256 * FromBytes(b[1..])
  }

  function ToBytes(v: nat, n: nat): (b: seq<byte>)
    ensures |b| == n
  {
    if n == 0 then [] else [(v % 256) as byte] + ToBytes(v / 256, n - 1)
  }

  function Pow256(n: nat): nat {
    if n == 0 then 1 else 256 * Pow256(n - 1)
  }

  lemma {:induction false} BytesRoundTrip(v: nat, n: nat)
    requires v < Pow256(n)
    ensures FromBytes(ToBytes(v, n)) == v
  {
    if n > 0 {
      BytesRoundTrip(v / 256, n - 1);
      assert ToBytes(v, n)[1..] == ToBytes(v / 256, n - 1);
    }
  }

  lemma {:induction false} FromBytesBound(b: seq<byte>)
    ensures FromBytes(b) < Pow256(|b|)
  {
    if b != [] {
      FromBytesBound(b[1..]);
    }
  }

  /** An aligned word lies inside the range that covers its address. */
  lemma WordFits(ranges: seq<Range>, addr: nat, size: nat)
    requires Registered(ranges) && WordSize(size) && addr % size == 0 && Find(ranges, addr) < |ranges|
    ensures var r := ranges[Find(ranges, addr)]; addr - r.base + size <= |r.bytes| && (addr - r.base) % size == 0
  {
    var r := ranges[Find(ranges, addr)];
    Multiples(addr, r.base, |r.bytes|, size);
  }

  lemma Multiples(addr: nat, base: nat, len: nat, size: nat)
    requires WordSize(size) && addr % size == 0 && base % 8 == 0 && len % 8 == 0 && base <= addr < base + len
    ensures (addr - base) % size == 0 && addr - base + size <= len
  {
    if size == 4 {
      MultiplesOf4(addr, base, len);
    } else {
      MultiplesOf8(addr, base, len);
    }
  }

  lemma MultiplesOf4(addr: nat, base: nat, len: nat)
    requires addr % 4 == 0 && base % 8 == 0 && len % 8 == 0 && base <= addr < base + len
    ensures (addr - base) % 4 == 0 && addr - base + 4 <= len
  {
    var i, j, k := addr / 4, base / 8, len / 8;
    assert addr - base == 4 * (i - 2 * j) && len == 4 * (2 * k);
  }

  lemma MultiplesOf8(addr: nat, base: nat, len: nat)
    requires addr % 8 == 0 && base % 8 == 0 && len % 8 == 0 && base <= addr < base + len
    ensures (addr - base) % 8 == 0 && addr - base + 8 <= len
  {
    var i, j, k := addr / 8, base / 8, len / 8;
    assert addr - base == 8 * (i - j) && len == 8 * k;
  }

  lemma Apart(a: nat, b: nat, size: nat)
    requires WordSize(size) && a % size == 0 && b % size == 0 && a != b
    ensures a + size <= b || b + size <= a
  {
    if size == 4 {
      Apart4(a, b);
    } else {
      Apart8(a, b);
    }
  }

  lemma Apart4(a: nat, b: nat)
    requires a % 4 == 0 && b % 4 == 0 && a != b
    ensures a + 4 <= b || b + 4 <= a
  {
  }

  lemma Apart8(a: nat, b: nat)
    requires a % 8 == 0 && b % 8 == 0 && a != b
    ensures a + 8 <= b || b + 8 <= a
  {
  }

  /** The word lies in a range of RAM. */
  predicate Holds(ranges: seq<Range>, addr: nat, size: nat) {
    InRam(ranges, addr) && var r := ranges[Find(ranges, addr)]; addr - r.base + size <= |r.bytes|
  }

  /** `phys_read_u32` and `phys_read_u64`: 0 outside RAM. */
  function Word(ranges: seq<Range>, addr: nat, size: nat): (v: nat)
    ensures v < Pow256(size)
  {
    if Holds(ranges, addr, size) then
      var r := ranges[Find(ranges, addr)];
      FromBytesBound(r.bytes[addr - r.base..addr - r.base + size]);
      FromBytes(r.bytes[addr - r.base..addr - r.base + size])
    else PowPositive(size); 0
  }

  lemma PowPositive(n: nat)
    ensures Pow256(n) > 0
  {
  }

  /** `phys_write_u32` and `phys_write_u64`: ignored outside RAM. */
  function Stored(ranges: seq<Range>, addr: nat, size: nat, v: nat): (r: seq<Range>)
    ensures |r| == |ranges|
    ensures forall i :: 0 <= i < |r| ==>
              r[i].base == ranges[i].base && r[i].isRam == ranges[i].isRam && |r[i].bytes| == |ranges[i].bytes|
  {
    var i := Find(ranges, addr);
    if Holds(ranges, addr, size) then
      ranges[i := ranges[i].(bytes := Patched(ranges[i].bytes, addr - ranges[i].base, ToBytes(v, size)))]
    else ranges
  }

  lemma {:induction false} FindSame(r: seq<Range>, t: seq<Range>, addr: nat)
    requires |r| == |t| && forall i :: 0 <= i < |r| ==> r[i].base == t[i].base && |r[i].bytes| == |t[i].bytes|
    ensures Find(r, addr) == Find(t, addr)
  {
    if r != [] && !Covers(r[0], addr) {
      FindSame(r[1..], t[1..], addr);
    }
  }

  lemma PatchedSlice(b: seq<byte>, at: nat, w: seq<byte>, from: nat)
    requires at + |w| <= |b| && from + |w| <= |b| && (from == at || from + |w| <= at || at + |w| <= from)
    ensures Patched(b, at, w)[from..from + |w|] == if from == at then w else b[from..from + |w|]
  {
  }

  /** A store of an aligned word changes that word only. */
  lemma WordAfterStore(ranges: seq<Range>, addr: nat, size: nat, v: nat, b: nat)
    requires Registered(ranges) && WordSize(size) && addr % size == 0 && b % size == 0 && v < Pow256(size)
    ensures Word(Stored(ranges, addr, size, v), b, size)
         == if b == addr && InRam(ranges, addr) then v else Word(ranges, b, size)
    ensures Registered(Stored(ranges, addr, size, v))
  {
    hide FromBytes;
    hide ToBytes;
    hide Patched;
    hide Pow256;
    hide Find;
    var t := Stored(ranges, addr, size, v);
    FindSame(ranges, t, b);
    var i, j := Find(ranges, addr), Find(ranges, b);
    if InRam(ranges, addr) {
      WordFits(ranges, addr, size);
      if j == i {
        WordFits(ranges, b, size);
        assert t[i].bytes == Patched(ranges[i].bytes, addr - ranges[i].base, ToBytes(v, size));
        SliceAfterStore(ranges[i], addr, size, v, b);
      } else if j < |ranges| {
        assert t[j] == ranges[j];
      }
    }
  }

  lemma SliceAfterStore(r: Range, addr: nat, size: nat, v: nat, b: nat)
    requires WordSize(size) && addr % size == 0 && b % size == 0 && v < Pow256(size)
    requires r.base <= addr && addr - r.base + size <= |r.bytes| && r.base <= b && b - r.base + size <= |r.bytes|
    ensures var s := Patched(r.bytes, addr - r.base, ToBytes(v, size))[b - r.base..b - r.base + size];
            FromBytes(s) == if b == addr then v else FromBytes(r.bytes[b - r.base..b - r.base + size])
  {
    BytesRoundTrip(v, size);
    if b != addr {
      Apart(addr, b, size);
    }
    hide Patched;
    hide FromBytes;
    hide ToBytes;
    PatchedSlice(r.bytes, addr - r.base, ToBytes(v, size), b - r.base);
  }

  class Memory {
    var ranges: seq<Range>

    ghost predicate Valid()
      reads this
    {
      Registered(ranges)
    }

    constructor (ranges: seq<Range>)
      requires Registered(ranges)
      ensures Valid() && this.ranges == ranges
    {
      this.ranges := ranges;
    }

    /** `get_phys_mem_range`: the first range that covers the address. */
    method GetRange(addr: nat) returns (i: nat)
      ensures i == Find(ranges, addr)
    {
      i := 0;
      assert ranges[0..] == ranges;
      while i < |ranges|
        invariant 0 <= i <= |ranges| && Find(ranges, addr) == i + Find(ranges[i..], addr)
      {
        if Covers(ranges[i], addr) {
          return;
        }
        assert ranges[i..][1..] == ranges[i + 1..];
        i := i + 1;
      }
    }

    method ReadWord(addr: nat, size: nat) returns (v: nat)
      requires Valid() && WordSize(size) && addr % size == 0
      ensures v == Word(ranges, addr, size)
    {
      var i := GetRange(addr);
      if i == |ranges| || !ranges[i].isRam {
        return 0;
      }
      WordFits(ranges, addr, size);
      var offset := addr - ranges[i].base;
      v := FromBytes(ranges[i].bytes[offset..offset + size]);
    }

    method WriteWord(addr: nat, size: nat, v: nat)
      requires Valid() && WordSize(size) && addr % size == 0
      modifies this
      ensures Valid() && ranges == Stored(old(ranges), addr, size, v)
    {
      var i := GetRange(addr);
      if i == |ranges| || !ranges[i].isRam {
        return;
      }
      WordFits(ranges, addr, size);
      ranges := ranges[i := ranges[i].(bytes := Patched(ranges[i].bytes, addr - ranges[i].base, ToBytes(v, size)))];
    }
  }
}
