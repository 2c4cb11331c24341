/** Whole runs of the paged memory: what a guest sees is one flat array of bytes. */
module VmmRun {
  import opened Options
  import opened Storage
  import opened FlatMemory
  import PageCache
  import Vmm

  datatype Op =
    | ReadOp(addr: nat, len: nat)
    | WriteOp(addr: nat, data: seq<byte>)
    | FlushOp

  predicate InBounds(op: Op, size: nat) {
    match op
    case ReadOp(addr, len) => addr + len <= size
    case WriteOp(addr, data) => addr + |data| <= size
    case FlushOp => true
  }

  // ----- the flat memory that the paged memory must be equal to

  function FlatAfter(m: seq<byte>, op: Op): (m': seq<byte>)
    requires InBounds(op, |m|)
    ensures |m'| == |m|
  {
    match op
    case WriteOp(addr, data) => m[..addr] + data + m[addr + |data|..]
    case _ => m
  }

  function FlatOutput(m: seq<byte>, op: Op): seq<byte>
    requires InBounds(op, |m|)
  {
    match op
    case ReadOp(addr, len) => m[addr..addr + len]
    case _ => []
  }

  ghost predicate AllInBounds(ops: seq<Op>, size: nat) {
    forall i :: 0 <= i < |ops| ==> InBounds(ops[i], size)
  }

  /** The memory after a run. */
  ghost function FlatMemoryAfter(m: seq<byte>, ops: seq<Op>): (m': seq<byte>)
    requires AllInBounds(ops, |m|)
    ensures |m'| == |m|
    decreases |ops|
  {
    if ops == [] then m else FlatAfter(FlatMemoryAfter(m, ops[..|ops| - 1]), ops[|ops| - 1])
  }

  /** What the last operation of a run delivers. */
  ghost function FlatLast(m: seq<byte>, ops: seq<Op>): seq<byte>
    requires AllInBounds(ops, |m|) && ops != []
  {
    FlatOutput(FlatMemoryAfter(m, ops[..|ops| - 1]), ops[|ops| - 1])
  }

  /** The byte that the last write to `a` stored, or 0. */
  ghost function LastWritten(ops: seq<Op>, a: nat): byte
    decreases |ops|
  {
    if ops == [] then 0
    else
      var op := ops[|ops| - 1];
      if op.WriteOp? && op.addr <= a < op.addr + |op.data| then op.data[a - op.addr]
      else LastWritten(ops[..|ops| - 1], a)
  }

  /** In a run from zeroed memory every byte is the one last written there. */
  lemma {:induction false} LastWriteWins(size: nat, ops: seq<Op>, a: nat)
    requires AllInBounds(ops, size) && a < size
    ensures FlatMemoryAfter(Zeros(size), ops)[a] == LastWritten(ops, a)
    decreases |ops|
  {
    if ops != [] {
      var front := ops[..|ops| - 1];
      LastWriteWins(size, front, a);
      var m, op := FlatMemoryAfter(Zeros(size), front), ops[|ops| - 1];
      if op.WriteOp? {
        Splice(m, op.addr, op.data, a);
      }
    }
  }

  /** A read delivers, byte for byte and in the order of the addresses, what was last
      written there before it. */
  lemma ReadsLastWritten(size: nat, ops: seq<Op>, k: nat, i: nat)
    requires AllInBounds(ops, size) && k < |ops| && ops[k].ReadOp? && i < ops[k].len
    ensures var out := FlatLast(Zeros(size), ops[..k + 1]);
            |out| == ops[k].len && out[i] == LastWritten(ops[..k], ops[k].addr + i)
  {
    assert ops[..k + 1][..k] == ops[..k];
    assert InBounds(ops[k], size);
    LastWriteWins(size, ops[..k], ops[k].addr + i);
  }

  /** A file of zeros is a memory of zeros. */
  lemma ZeroPages(k: nat, ps: nat, n: nat)
    requires 1 <= ps && HasPages(Zeros(k), ps, n)
    ensures Uniform(PagesOf(Zeros(k), ps, n), ps) && Flat(PagesOf(Zeros(k), ps, n), ps) == Zeros(Span(n, ps))
  {
    var pages := PagesOf(Zeros(k), ps, n);
    var m := Flat(pages, ps);
    forall a | 0 <= a < |m| ensures m[a] == 0 {
      InPages(a, n, ps);
      PageFits(ps, a / ps, n);
      assert m[a] == PageAt(Zeros(k), ps, n, a / ps)[a % ps];
    }
  }

  /** The size of a memory of `n` pages. */
  ghost function Span(n: nat, ps: nat): nat {
    n * ps
  }

  // ----- the runs

  /** One guest operation on the paged memory. */
  method Step(vmm: Vmm.Vmm, op: Op) returns (out: seq<byte>)
    requires vmm.Valid() && InBounds(op, |vmm.Memory()|)
    modifies vmm.repr
    ensures vmm.Valid() && old(vmm.repr) <= vmm.repr && fresh(vmm.repr - old(vmm.repr))
    ensures vmm.Memory() == FlatAfter(old(vmm.Memory()), op)
    ensures out == FlatOutput(old(vmm.Memory()), op)
  {
    hide Vmm.Vmm.Valid;
    hide Vmm.Vmm.Memory;
    assert allocated(vmm.repr);
    match op {
      case ReadOp(addr, len) =>
        var buf := new byte[len];
        vmm.Read(addr, buf, len);
        out := buf[..];
      case WriteOp(addr, data) =>
        var buf := new byte[|data|](i requires 0 <= i < |data| => data[i]);
        assert buf[..] == data && buf[..|data|] == data;
        vmm.Write(addr, buf, |data|);
        out := [];
      case FlushOp =>
        vmm.Flush();
        out := [];
    }
  }

  /** Every run on a new paged memory delivers what zeroed flat memory would,
      whatever the page size, the number of resident pages and of himem blocks. */
  method Run(ops: seq<Op>, maximumSize: nat, ghost n: nat, pageSize: nat, numberOfPages: nat, maximumHimemBlocks: nat,
             junk: seq<seq<byte>>, stale: nat -> Option<Vmm.Page>, staleItems: nat -> Option<PageCache.PageItem>)
    returns (outs: seq<seq<byte>>)
    requires 1 <= pageSize < 0x10000 && 1 <= maximumHimemBlocks < 0x10000
    requires HasPages(Zeros(maximumSize + 1), pageSize, n)
    requires |junk| == maximumHimemBlocks && forall b :: 0 <= b < |junk| ==> |junk[b]| == pageSize
    requires AllInBounds(ops, Span(n, pageSize))
    ensures |outs| == |ops|
    ensures forall i :: 0 <= i < |ops| ==> outs[i] == FlatLast(Zeros(Span(n, pageSize)), ops[..i + 1])
  {
    hide Vmm.Vmm.Valid;
    hide HasPages;
    hide Span;
    hide Vmm.Vmm.Memory;
    var vmm := Start(maximumSize, n, pageSize, numberOfPages, maximumHimemBlocks, junk, stale, staleItems);
    ghost var zero := Zeros(Span(n, pageSize));
    outs := [];
    var k := 0;
    assert ops[..0] == [];
    while k < |ops|
      invariant 0 <= k <= |ops| && |outs| == k && vmm.Valid() && fresh(vmm.repr)
      invariant vmm.Memory() == FlatMemoryAfter(zero, ops[..k])
      invariant forall i :: 0 <= i < k ==> outs[i] == FlatLast(zero, ops[..i + 1])
    {
      assert ops[..k + 1][..k] == ops[..k];
      var out := Step(vmm, ops[k]);
      outs := outs + [out];
      k := k + 1;
    }
  }

  method Start(maximumSize: nat, ghost n: nat, pageSize: nat, numberOfPages: nat, maximumHimemBlocks: nat,
               junk: seq<seq<byte>>, stale: nat -> Option<Vmm.Page>, staleItems: nat -> Option<PageCache.PageItem>)
    returns (vmm: Vmm.Vmm)
    requires 1 <= pageSize < 0x10000 && 1 <= maximumHimemBlocks < 0x10000
    requires HasPages(Zeros(maximumSize + 1), pageSize, n)
    requires |junk| == maximumHimemBlocks && forall b :: 0 <= b < |junk| ==> |junk[b]| == pageSize
    ensures vmm.Valid() && fresh(vmm.repr) && vmm.Memory() == Zeros(Span(n, pageSize))
  {
    ZeroPages(maximumSize + 1, pageSize, n);
    hide Vmm.Vmm.Valid;
    hide HasPages;
    hide Span;
    vmm := Vmm.Vmm.Create(maximumSize, n, pageSize, numberOfPages, maximumHimemBlocks, junk, stale, staleItems);
  }
}
