/** The two block stores below the paged memory: the himem allocator with its
    emulated back end, and the page file. */
module Storage {
  import Powers

  newtype byte = x: int | 0 <= x < 256

  /** lib/HimemAllocator: `maximumBlocks` blocks of `blockSize` bytes; both are
      16-bit quantities, as is every block number. */
  class Himem {
    const blockSize: nat
    const maximumBlocks: nat
    var blocks: seq<seq<byte>>

    ghost predicate Valid()
      reads this
    {
      && blockSize < 0x10000 && maximumBlocks < 0x10000 && |blocks| == maximumBlocks
      && forall b :: 0 <= b < |blocks| ==> |blocks[b]| == blockSize
    }

    /** The container is not cleared: `junk` stands for what the blocks held. */
    constructor (blockSize: nat, maximumBlocks: nat, junk: seq<seq<byte>>)
      requires blockSize < 0x10000 && maximumBlocks < 0x10000 && |junk| == maximumBlocks
      requires forall b :: 0 <= b < |junk| ==> |junk[b]| == blockSize
      ensures Valid() && this.blockSize == blockSize && this.maximumBlocks == maximumBlocks
    {
      this.blockSize, this.maximumBlocks, blocks := blockSize, maximumBlocks, junk;
    }

    method Read(blockId: nat, buf: array<byte>, len: nat) returns (n: nat)
      requires Valid() && len <= buf.Length
      modifies buf
      ensures n == if blockId % 0x10000 < maximumBlocks && len <= blockSize then len else 0
      ensures n == 0 ==> buf[..] == old(buf[..])
      ensures n != 0 ==> buf[..len] == blocks[blockId % 0x10000][..len] && buf[len..] == old(buf[len..])
    {
      var block := blockId % 0x10000;
      if block >= maximumBlocks || len > blockSize {
        return 0;
      }
      forall i | 0 <= i < len {
        buf[i] := blocks[block][i];
      }
      return len;
    }

    method Write(blockId: nat, buf: array<byte>, len: nat) returns (n: nat)
      requires Valid() && len <= buf.Length
      modifies this
      ensures Valid()
      ensures n == if blockId % 0x10000 < maximumBlocks && len <= blockSize then len else 0
      ensures n == 0 ==> blocks == old(blocks)
      ensures n != 0 ==>
                var b := blockId % 0x10000; blocks == old(blocks)[b := buf[..len] + old(blocks)[b][len..]]
    {
      var block := blockId % 0x10000;
      if block >= maximumBlocks || len > blockSize {
        return 0;
      }
      assert len == 0 ==> buf[..len] + blocks[block][len..] == blocks[block];
      blocks := blocks[block := buf[..len] + blocks[block][len..]];
      return len;
    }
  }

  /** The open page file: `fseek` followed by `fread` or `fwrite`. */
  class PageFile {
    var bytes: seq<byte>

    /** `vmm_create` seeks to `maximumSize` in an empty file and writes one zero byte. */
    constructor (maximumSize: nat)
      ensures bytes == Zeros(maximumSize + 1)
    {
      bytes := Zeros(maximumSize + 1);
    }

    method ReadAt(offset: nat, buf: array<byte>, len: nat) returns (n: nat)
      requires len <= buf.Length
      modifies buf
      ensures n == if offset >= |bytes| then 0 else if |bytes| - offset < len then |bytes| - offset else len
      ensures n > 0 ==> buf[..n] == bytes[offset..offset + n]
      ensures buf[n..] == old(buf[n..])
    {
      n := if offset >= |bytes| then 0 else if |bytes| - offset < len then |bytes| - offset else len;
      forall i | 0 <= i < n {
        buf[i] := bytes[offset + i];
      }
    }

    method WriteAt(offset: nat, buf: array<byte>, len: nat)
      requires len <= buf.Length && offset + len <= |bytes|
      modifies this
      ensures bytes == old(bytes)[..offset] + buf[..len] + old(bytes)[offset + len..]
    {
      bytes := bytes[..offset] + buf[..len] + bytes[offset + len..];
    }
  }

  function Zeros(n: nat): (s: seq<byte>)
    ensures |s| == n && forall i :: 0 <= i < n ==> s[i] == 0
  {
    seq(n, _ => 0 as byte)
  }

  // ----- the file as a sequence of pages

  /** `b` with the bytes `w` written at `at`. */
  function Patched(b: seq<byte>, at: nat, w: seq<byte>): (r: seq<byte>)
    requires at + |w| <= |b|
    ensures |r| == |b|
  {
    b[..at] + w + b[at + |w|..]
  }

  lemma PageFits(ps: nat, pn: nat, n: nat)
    requires pn < n
    ensures 0 <= pn * ps && pn * ps + ps <= n * ps
  {
    assert (pn + 1) * ps <= n * ps by {
      Powers.MulMono(pn + 1, n, ps);
    }
  }

  /** The byte string holds at least `n` pages. */
  ghost predicate HasPages(bytes: seq<byte>, ps: nat, n: nat) {
    n * ps <= |bytes|
  }

  /** Page `pn` of a byte string that holds at least `n` pages. */
  ghost function PageAt(bytes: seq<byte>, ps: nat, n: nat, pn: nat): (page: seq<byte>)
    requires pn < n && HasPages(bytes, ps, n)
    ensures |page| == ps
  {
    PageFits(ps, pn, n);
    bytes[pn * ps..pn * ps + ps]
  }

  ghost function PagesOf(bytes: seq<byte>, ps: nat, n: nat): (pages: seq<seq<byte>>)
    requires HasPages(bytes, ps, n)
    ensures |pages| == n && forall pn :: 0 <= pn < n ==> pages[pn] == PageAt(bytes, ps, n, pn)
  {
    seq(n, pn requires 0 <= pn < n => PageAt(bytes, ps, n, pn))
  }

  ghost predicate Uniform(pages: seq<seq<byte>>, ps: nat) {
    forall i :: 0 <= i < |pages| ==> |pages[i]| == ps
  }

  lemma PageWritten(bytes: seq<byte>, ps: nat, n: nat, pn: nat, page: seq<byte>, pm: nat)
    requires pn < n && pm < n && HasPages(bytes, ps, n) && |page| == ps
    ensures 0 <= pn * ps && pn * ps + ps <= |bytes|
    ensures var r := bytes[..pn * ps] + page + bytes[pn * ps + ps..];
            |r| == |bytes| && PageAt(r, ps, n, pm) == if pm == pn then page else PageAt(bytes, ps, n, pm)
  {
    PageFits(ps, pn, n);
    PageFits(ps, pm, n);
    var r, i, j := bytes[..pn * ps] + page + bytes[pn * ps + ps..], pn * ps, pm * ps;
    if pm < pn {
      PageFits(ps, pm, pn);
      assert r[j..j + ps] == bytes[j..j + ps];
    } else if pn < pm {
      PageFits(ps, pn, pm);
      assert r[j..j + ps] == bytes[j..j + ps];
    } else {
      assert r[i..i + ps] == page;
    }
  }
}
