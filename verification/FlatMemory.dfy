/** Guest memory as one flat byte array, and what a run of reads and writes
    means for it. */
module FlatMemory {
  import opened Powers
  import opened Storage

  lemma InPages(a: nat, n: nat, ps: nat)
    requires 1 <= ps && a < n * ps
    ensures 0 <= a / ps < n && 0 <= a % ps < ps
  {
    if a / ps >= n {
      MulMono(n, a / ps, ps);
    }
  }

  /** The flat array that equal-sized pages make up. */
  ghost function Flat(pages: seq<seq<byte>>, ps: nat): (m: seq<byte>)
    requires 1 <= ps && Uniform(pages, ps)
    ensures |m| == |pages| * ps
  {
    seq(|pages| * ps, a requires 0 <= a < |pages| * ps => ByteAt(pages, ps, a))
  }

  ghost function ByteAt(pages: seq<seq<byte>>, ps: nat, a: nat): byte
    requires 1 <= ps && Uniform(pages, ps) && a < |pages| * ps
  {
    InPages(a, |pages|, ps);
    pages[a / ps][a % ps]
  }

  lemma SamePage(addr: nat, i: nat, ps: nat)
    requires 1 <= ps && addr % ps + i < ps
    ensures (addr + i) / ps == addr / ps && (addr + i) % ps == addr % ps + i
  {
    var q, r := addr / ps, addr % ps;
    assert addr + i == q * ps + (r + i);
    DivRem(q, r + i, ps);
  }

  lemma ByteInChunk(pages: seq<seq<byte>>, ps: nat, addr: nat, i: nat)
    requires 1 <= ps && Uniform(pages, ps) && addr + i < |pages| * ps && addr % ps + i < ps
    ensures addr / ps < |pages| && ByteAt(pages, ps, addr + i) == pages[addr / ps][addr % ps + i]
  {
    InPages(addr, |pages|, ps);
    SamePage(addr, i, ps);
  }

  /** A chunk inside one page, read from the flat array. */
  lemma FlatChunk(pages: seq<seq<byte>>, ps: nat, addr: nat, n: nat)
    requires 1 <= ps && Uniform(pages, ps) && addr + n <= |pages| * ps && addr % ps + n <= ps && 0 < n
    ensures addr / ps < |pages|
    ensures Flat(pages, ps)[addr..addr + n] == pages[addr / ps][addr % ps..addr % ps + n]
  {
    ByteInChunk(pages, ps, addr, 0);
    var a, b := Flat(pages, ps)[addr..addr + n], pages[addr / ps][addr % ps..addr % ps + n];
    forall i | 0 <= i < n ensures a[i] == b[i] {
      ByteInChunk(pages, ps, addr, i);
    }
  }

  /** A byte that the write of `n` bytes at `addr` does not reach. */
  lemma OutsideChunk(ps: nat, addr: nat, n: nat, a: nat)
    requires 1 <= ps && addr % ps + n <= ps && !(addr <= a < addr + n)
    ensures a / ps == addr / ps ==> !(addr % ps <= a % ps < addr % ps + n)
  {
    if a / ps == addr / ps {
      var q := a / ps;
      assert a == q * ps + a % ps && addr == q * ps + addr % ps;
    }
  }

  lemma ByteAfterUpdate(pages: seq<seq<byte>>, ps: nat, addr: nat, src: seq<byte>, pages': seq<seq<byte>>, a: nat)
    requires 1 <= ps && Uniform(pages, ps) && Uniform(pages', ps) && |pages'| == |pages|
    requires addr / ps < |pages| && addr % ps + |src| <= ps && a < |pages| * ps
    requires var page := pages[addr / ps];
             pages' == pages[addr / ps := page[..addr % ps] + src + page[addr % ps + |src|..]]
    ensures ByteAt(pages', ps, a) == if addr <= a < addr + |src| then src[a - addr] else ByteAt(pages, ps, a)
  {
    InPages(a, |pages|, ps);
    var pn, off := addr / ps, addr % ps;
    if addr <= a < addr + |src| {
      SamePage(addr, a - addr, ps);
      Splice(pages[pn], off, src, off + (a - addr));
    } else {
      OutsideChunk(ps, addr, |src|, a);
      if a / ps == pn {
        Splice(pages[pn], off, src, a % ps);
      }
    }
  }

  lemma Splice(page: seq<byte>, off: nat, src: seq<byte>, r: nat)
    requires off + |src| <= |page| && r < |page|
    ensures (page[..off] + src + page[off + |src|..])[r] == if off <= r < off + |src| then src[r - off] else page[r]
  {
  }

  /** A chunk inside one page, written to the flat array. */
  lemma FlatUpdate(pages: seq<seq<byte>>, ps: nat, addr: nat, src: seq<byte>)
    requires 1 <= ps && Uniform(pages, ps) && addr + |src| <= |pages| * ps && addr % ps + |src| <= ps && src != []
    ensures addr / ps < |pages|
    ensures var page := pages[addr / ps];
            var page' := page[..addr % ps] + src + page[addr % ps + |src|..];
            Uniform(pages[addr / ps := page'], ps) &&
            Flat(pages[addr / ps := page'], ps) == Flat(pages, ps)[..addr] + src + Flat(pages, ps)[addr + |src|..]
  {
    InPages(addr, |pages|, ps);
    var page := pages[addr / ps];
    var pages' := pages[addr / ps := page[..addr % ps] + src + page[addr % ps + |src|..]];
    var m, r := Flat(pages, ps), Flat(pages', ps);
    var w := m[..addr] + src + m[addr + |src|..];
    forall a | 0 <= a < |r| ensures r[a] == w[a] {
      ByteAfterUpdate(pages, ps, addr, src, pages', a);
    }
  }
}
