/** lib/page_cache: a write-back cache of pages in high memory, over the page
    file that `lib/VMM/vmm.c` hands it as flush context. */
module PageCache {
  import opened Options
  import opened LruCache
  import DirectCache
  import opened Storage

  class PageItem {
    var pageNumber: nat
    const blockId: nat

    constructor (pageNumber: nat, blockId: nat)
      ensures this.pageNumber == pageNumber && this.blockId == blockId
    {
      this.pageNumber, this.blockId := pageNumber, blockId;
    }
  }

  ghost predicate Numbered(items: map<nat, PageItem>)
    reads items.Values
  {
    forall k :: k in items ==> items[k].pageNumber == k
  }

  /** No two cached pages share a block, and every block is below `limit`. */
  ghost predicate BlocksApart(items: map<nat, PageItem>, limit: nat) {
    && (forall k :: k in items ==> items[k].blockId < limit)
    && (forall j, k :: j in items && k in items && j != k ==> items[j].blockId != items[k].blockId)
  }

  /** Block `block` belongs to no cached page. */
  ghost predicate Spare(items: map<nat, PageItem>, block: nat) {
    forall k :: k in items ==> items[k].blockId != block
  }

  /** Each page is in its block if it is cached, and in the file otherwise. */
  ghost predicate Faithful(pages: seq<seq<byte>>, items: map<nat, PageItem>,
                           blocks: seq<seq<byte>>, bytes: seq<byte>, ps: nat)
    requires HasPages(bytes, ps, |pages|)
  {
    forall pn :: 0 <= pn < |pages| ==>
      pages[pn] == if pn in items && items[pn].blockId < |blocks| then blocks[items[pn].blockId]
                   else PageAt(bytes, ps, |pages|, pn)
  }

  class PageCache {
    const pageSize: nat
    const himemMaximumBlocks: nat
    var himemLastAllocatedBlock: nat
    const lru: Lru<PageItem>
    const direct: DirectCache.Cache<PageItem>
    const himem: Himem
    const flushBuffer: array<byte>
    const store: PageFile
    /** What each page holds, wherever it is. */
    ghost var pages: seq<seq<byte>>
    ghost var repr: set<object>

    /** The objects other than the LRU cache and the items. */
    ghost function Parts(): set<object> {
      {this, direct, direct.lines, himem, flushBuffer, store}
    }

    ghost predicate Shape()
      reads this, repr
    {
      && Parts() <= repr && lru in repr && lru.repr <= repr && lru.repr !! Parts()
      && flushBuffer.Length == pageSize && himem.Valid() && lru.Valid() && direct.Valid()
      && himem.blockSize == pageSize && himem.maximumBlocks == himemMaximumBlocks
      && 1 <= pageSize && 1 <= himemMaximumBlocks && himemLastAllocatedBlock <= himemMaximumBlocks
      && HasPages(store.bytes, pageSize, |pages|)
      && (forall k :: k in lru.contents ==> lru.contents[k] in repr && lru.contents[k] !in lru.repr && k < |pages|)
    }

    ghost predicate Layers()
      reads this, repr
    {
      && Shape() && Numbered(lru.contents) && BlocksApart(lru.contents, himemLastAllocatedBlock)
      && DirectCache.Submap(direct.Contents(), lru.contents)
      && Faithful(pages, lru.contents, himem.blocks, store.bytes, pageSize)
    }

    /** Between calls the blocks handed out are exactly the cached pages. */
    ghost predicate Valid()
      reads this, repr
      ensures Valid() ==> this in repr && store in repr && HasPages(store.bytes, pageSize, |pages|)
      ensures Valid() ==> lru in repr && lru.repr <= repr && Uniform(pages, pageSize)
    {
      Layers() && lru.numberOfItems == himemLastAllocatedBlock
    }

    /** As many pages are cached as blocks were handed out, each in a block of its
        own; a direct-cache hit is the item of a cached page with its own number. */
    lemma BlocksBound()
      requires Valid()
      ensures |lru.contents| == himemLastAllocatedBlock <= himemMaximumBlocks
      ensures forall k :: k in lru.contents ==> lru.contents[k].blockId < himemLastAllocatedBlock
      ensures forall j, k :: j in lru.contents && k in lru.contents && j != k ==>
                lru.contents[j].blockId != lru.contents[k].blockId
      ensures forall k :: k in direct.Contents() ==>
                k in lru.contents && direct.Contents()[k] == lru.contents[k] && lru.contents[k].pageNumber == k
    {
      hide DirectCache.Cache.Valid;
      lru.Bijection();
      hide Lru.Valid;
    }

    constructor (pageSize: nat, maximumHimemBlocks: nat, store: PageFile, ghost n: nat,
                 junk: seq<seq<byte>>, stale: nat -> Option<PageItem>)
      requires 1 <= pageSize < 0x10000 && 1 <= maximumHimemBlocks < 0x10000 && |junk| == maximumHimemBlocks
      requires forall b :: 0 <= b < |junk| ==> |junk[b]| == pageSize
      requires HasPages(store.bytes, pageSize, n)
      ensures Valid() && (forall o :: o in repr ==> o == store || fresh(o))
      ensures this.store == store && this.pageSize == pageSize
      ensures pages == PagesOf(store.bytes, pageSize, n)
    {
      hide Lru.Valid;
      hide DirectCache.Cache.Valid;
      hide DirectCache.Cache.Contents;
      hide Himem.Valid;
      hide HasPages;
      hide PageAt;
      hide PagesOf;
      hide Uniform;
      hide Zeros;
      this.pageSize, himemMaximumBlocks, this.store := pageSize, maximumHimemBlocks, store;
      himemLastAllocatedBlock := 0;
      flushBuffer := new byte[pageSize];
      himem := new Himem(pageSize, maximumHimemBlocks, junk);
      lru := new Lru();
      direct := new DirectCache.Cache(2048, stale);
      pages := PagesOf(store.bytes, pageSize, n);
      new;
      EmptyCache(pages, himem.blocks, store.bytes, pageSize);
      hide Numbered;
      hide BlocksApart;
      hide DirectCache.Submap;
      hide Faithful;
      repr := Parts() + lru.repr;
      assert fresh(lru.repr) && fresh(Parts() - {store});
    }

    method Lookup(pn: nat) returns (r: Option<PageItem>)
      requires Layers()
      modifies lru.repr
      ensures Layers() && lru.contents == old(lru.contents) && lru.repr == old(lru.repr)
      ensures lru.numberOfItems == old(lru.numberOfItems)
      ensures r == if pn in lru.contents then Some(lru.contents[pn]) else None
    {
      hide Lru.Valid;
      hide DirectCache.Cache.Valid;
      hide DirectCache.Cache.Contents;
      r := direct.Get(pn);
      if r.None? {
        r := lru.Get(pn);
      }
    }

    /** `page_cache_get`: fills the buffer if the page is cached. */
    method Get(pn: nat, buf: array<byte>) returns (hit: bool)
      requires Valid() && pn < |pages| && buf.Length == pageSize && buf !in repr
      modifies lru.repr, buf
      ensures Valid() && pages == old(pages) && repr == old(repr)
      ensures HasPages(store.bytes, pageSize, |pages|)
      ensures if hit then buf[..] == pages[pn]
              else buf[..] == old(buf[..]) && pages[pn] == PageAt(store.bytes, pageSize, |pages|, pn)
    {
      hide Lru.Valid;
      hide DirectCache.Cache.Valid;
      hide DirectCache.Cache.Contents;
      hide PageAt;
      hide HasPages;
      hide Faithful;
      hide BlocksApart;
      var item := Lookup(pn);
      if item.None? {
        FileHolds(pages, lru.contents, himem.blocks, store.bytes, pageSize, pn);
        return false;
      }
      BlockHolds(pages, lru.contents, himemLastAllocatedBlock, himem.blocks, store.bytes, pageSize, pn);
      var n := himem.Read(item.value.blockId, buf, pageSize);
      return true;
    }

    /** The flush of a cached page: its block goes to its place in the file. */
    method OnPageFlush(item: PageItem)
      requires Layers() && item.pageNumber in lru.contents && item == lru.contents[item.pageNumber]
      modifies flushBuffer, store
      ensures Layers() && item.pageNumber < |pages|
      ensures PageAt(store.bytes, pageSize, |pages|, item.pageNumber) == pages[item.pageNumber]
    {
      hide Lru.Valid;
      hide DirectCache.Cache.Valid;
      hide DirectCache.Cache.Contents;
      hide PageAt;
      hide HasPages;
      hide Faithful;
      hide BlocksApart;
      var pn := item.pageNumber;
      BlockHolds(pages, lru.contents, himemLastAllocatedBlock, himem.blocks, store.bytes, pageSize, pn);
      var n := himem.Read(item.blockId, flushBuffer, pageSize);
      assert flushBuffer[..pageSize] == pages[pn];
      var offset := pn * pageSize;
      FaithfulFlushed(pages, lru.contents, himem.blocks, store.bytes, pageSize, pn, offset);
      store.WriteAt(offset, flushBuffer, pageSize);
    }

    /** `lru_cache_remove` with the page flush as its callback. */
    method RemoveFromLru(key: nat)
      requires Layers() && key in lru.contents
      modifies flushBuffer, store, lru.repr
      ensures Shape() && Numbered(lru.contents) && Faithful(pages, lru.contents, himem.blocks, store.bytes, pageSize)
      ensures lru.contents == old(lru.contents) - {key} && lru.repr == old(lru.repr)
      ensures lru.numberOfItems == old(lru.numberOfItems) - 1
    {
      hide Lru.Valid;
      hide DirectCache.Cache.Valid;
      hide DirectCache.Cache.Contents;
      hide PageAt;
      hide HasPages;
      hide Faithful;
      hide BlocksApart;
      var found := lru.Find(key);
      if found.Some? {
        OnPageFlush(found.value.value);
        FaithfulWithout(pages, lru.contents, himem.blocks, store.bytes, pageSize, key);
        lru.Unlink(found.value);
      }
    }

    /** Makes room: the page at the tail of the list leaves the cache, and its
        item and block are free for another page. */
    method Evict() returns (item: PageItem)
      requires Layers() && lru.numberOfItems > 0
      modifies flushBuffer, store, lru.repr, direct.lines
      ensures Layers() && lru.numberOfItems == old(lru.numberOfItems) - 1 && lru.repr == old(lru.repr)
      ensures item in repr && item !in lru.repr && item !in lru.contents.Values
      ensures item.blockId < himemLastAllocatedBlock && Spare(lru.contents, item.blockId)
      ensures var order := old(lru.Order()); |order| > 0 && lru.contents == old(lru.contents) - {order[|order| - 1]}
    {
      hide Lru.Valid;
      hide DirectCache.Cache.Valid;
      hide DirectCache.Cache.Contents;
      hide PageAt;
      hide HasPages;
      hide Faithful;
      hide BlocksApart;
      hide DirectCache.Submap;
      hide Spare;
      var last := lru.GetLeastRecentlyUsed();
      item := last.value;
      OneLess(lru.contents, item.pageNumber, himemLastAllocatedBlock);
      RemoveFromLru(item.pageNumber);
      direct.Remove(item.pageNumber);
      DirectCache.CutSubmap(old(direct.Contents()), direct.lines.Length, direct.Contents(), old(lru.contents),
                            item.pageNumber);
    }

    /** The next block that was never used, for a new item. */
    method NewBlock(pn: nat) returns (item: PageItem)
      requires Valid() && himemLastAllocatedBlock < himemMaximumBlocks
      modifies this`himemLastAllocatedBlock, this`repr
      ensures Layers() && repr == old(repr) + {item} && fresh(item) && item.pageNumber == pn
      ensures item.blockId < himemLastAllocatedBlock == lru.numberOfItems + 1 && Spare(lru.contents, item.blockId)
    {
      hide Lru.Valid;
      hide DirectCache.Cache.Valid;
      hide DirectCache.Cache.Contents;
      hide PageAt;
      hide HasPages;
      hide Faithful;
      hide DirectCache.Submap;
      assert allocated(repr) && allocated(lru.contents.Values);
      item := new PageItem(pn, himemLastAllocatedBlock);
      himemLastAllocatedBlock := himemLastAllocatedBlock + 1;
      repr := repr + {item};
    }

    /** The block of an evicted page, and its item renumbered. */
    method ReuseBlock(pn: nat) returns (item: PageItem)
      requires Layers() && lru.numberOfItems > 0
      modifies repr
      ensures Layers() && repr == old(repr) && pages == old(pages) && lru.repr == old(lru.repr)
      ensures lru.numberOfItems == old(lru.numberOfItems) - 1
      ensures himemLastAllocatedBlock == old(himemLastAllocatedBlock)
      ensures item in repr && item !in lru.repr && item !in lru.contents.Values && item.pageNumber == pn
      ensures item.blockId < himemLastAllocatedBlock && Spare(lru.contents, item.blockId)
      ensures var order := old(lru.Order()); |order| > 0 && lru.contents == old(lru.contents) - {order[|order| - 1]}
    {
      hide Lru.Valid;
      hide DirectCache.Cache.Valid;
      hide DirectCache.Cache.Contents;
      hide PageAt;
      hide HasPages;
      hide Faithful;
      hide BlocksApart;
      hide DirectCache.Submap;
      hide Spare;
      item := Evict();
      assert allocated(lru.contents.Values);
      item.pageNumber := pn;
    }

    /** The page enters the cache in a block that no other page uses. */
    method Install(pn: nat, item: PageItem, buf: array<byte>)
      requires Layers() && pn !in lru.contents && pn < |pages| && item.pageNumber == pn
      requires item in repr && item !in lru.repr && item !in lru.contents.Values
      requires item.blockId < himemLastAllocatedBlock && Spare(lru.contents, item.blockId)
      requires buf.Length == pageSize && buf !in repr
      modifies himem, lru.repr, direct.lines, this`pages, this`repr
      ensures Layers() && pages == old(pages)[pn := buf[..]]
      ensures lru.numberOfItems == old(lru.numberOfItems) + 1 && fresh(repr - old(repr)) && old(repr) <= repr
    {
      hide Lru.Valid;
      hide DirectCache.Cache.Valid;
      hide DirectCache.Cache.Contents;
      hide PageAt;
      hide HasPages;
      hide Faithful;
      hide BlocksApart;
      hide DirectCache.Submap;
      hide Spare;
      OneMore(lru.contents, pn, item, himemLastAllocatedBlock);
      FaithfulWith(pages, lru.contents, himem.blocks, store.bytes, pageSize, pn, item, buf[..]);
      FillBlock(himem, item.blockId, buf);
      Enter(pn, item);
      pages := pages[pn := buf[..]];
    }

    /** The item enters the list, the index and the direct cache. */
    method Enter(pn: nat, item: PageItem)
      requires Shape() && Numbered(lru.contents) && DirectCache.Submap(direct.Contents(), lru.contents)
      requires pn !in lru.contents && pn < |pages| && item.pageNumber == pn
      requires item in repr && item !in lru.repr && item !in lru.contents.Values
      modifies lru.repr, direct.lines, this`repr
      ensures Shape() && Numbered(lru.contents) && DirectCache.Submap(direct.Contents(), lru.contents)
      ensures lru.contents == old(lru.contents)[pn := item] && fresh(repr - old(repr)) && old(repr) <= repr
      ensures lru.numberOfItems == old(lru.numberOfItems) + 1
    {
      hide Lru.Valid;
      hide DirectCache.Cache.Valid;
      hide DirectCache.Cache.Contents;
      hide HasPages;
      hide DirectCache.Submap;
      hide Himem.Valid;
      lru.Add(pn, item);
      direct.Set(pn, item);
      DirectCache.PutSubmap(old(direct.Contents()), direct.lines.Length, direct.Contents(), old(lru.contents),
                            pn, item);
      repr := repr + lru.repr;
    }

    /** `page_cache_set`: overwrites the page's block, or gives it a new block, or
        the block of the page that is evicted. */
    method Set(pn: nat, buf: array<byte>)
      requires Valid() && pn < |pages| && buf.Length == pageSize && buf !in repr
      modifies repr
      ensures Valid() && pages == old(pages)[pn := buf[..]]
      ensures fresh(repr - old(repr)) && old(repr) <= repr
    {
      hide Lru.Valid;
      hide DirectCache.Cache.Valid;
      hide DirectCache.Cache.Contents;
      hide PageAt;
      hide HasPages;
      hide Faithful;
      hide BlocksApart;
      hide Numbered;
      hide DirectCache.Submap;
      hide Spare;
      var found := Lookup(pn);
      if found.Some? {
        Overwrite(pn, found.value, buf);
      } else {
        var item;
        if himemLastAllocatedBlock < himemMaximumBlocks {
          item := NewBlock(pn);
        } else {
          item := ReuseBlock(pn);
        }
        Install(pn, item, buf);
      }
    }

    method Overwrite(pn: nat, item: PageItem, buf: array<byte>)
      requires Layers() && pn in lru.contents && item == lru.contents[pn] && pn < |pages|
      requires buf.Length == pageSize && buf !in repr
      modifies himem, this`pages
      ensures Layers() && pages == old(pages)[pn := buf[..]]
    {
      hide Lru.Valid;
      hide DirectCache.Cache.Valid;
      hide DirectCache.Cache.Contents;
      hide PageAt;
      hide HasPages;
      Replaced(pages, lru.contents, himemLastAllocatedBlock, himem.blocks, store.bytes, pageSize, pn, buf[..]);
      hide Faithful;
      FillBlock(himem, item.blockId, buf);
      pages := pages[pn := buf[..]];
    }
  }

  /** With nothing cached, the file holds every page. */
  lemma EmptyCache(pages: seq<seq<byte>>, blocks: seq<seq<byte>>, bytes: seq<byte>, ps: nat)
    requires HasPages(bytes, ps, |pages|) && pages == PagesOf(bytes, ps, |pages|)
    ensures Numbered(map[]) && BlocksApart(map[], 0) && DirectCache.Submap<PageItem>(map[], map[])
    ensures Faithful(pages, map[], blocks, bytes, ps)
  {
  }

  lemma Replaced(pages: seq<seq<byte>>, items: map<nat, PageItem>, limit: nat, blocks: seq<seq<byte>>,
                 bytes: seq<byte>, ps: nat, pn: nat, page: seq<byte>)
    requires HasPages(bytes, ps, |pages|) && Faithful(pages, items, blocks, bytes, ps)
    requires BlocksApart(items, limit) && limit <= |blocks| && pn in items && pn < |pages|
    ensures Faithful(pages[pn := page], items, blocks[items[pn].blockId := page], bytes, ps)
  {
  }

  lemma WrittenBack(bytes: seq<byte>, ps: nat, n: nat, pn: nat, page: seq<byte>)
    requires pn < n && HasPages(bytes, ps, n) && |page| == ps
    ensures 0 <= pn * ps && pn * ps + ps <= |bytes|
    ensures var r := bytes[..pn * ps] + page + bytes[pn * ps + ps..];
            HasPages(r, ps, n) && forall pm :: 0 <= pm < n ==>
              PageAt(r, ps, n, pm) == if pm == pn then page else PageAt(bytes, ps, n, pm)
  {
    PageFits(ps, pn, n);
    forall pm | 0 <= pm < n
      ensures PageAt(bytes[..pn * ps] + page + bytes[pn * ps + ps..], ps, n, pm)
           == if pm == pn then page else PageAt(bytes, ps, n, pm)
    {
      PageWritten(bytes, ps, n, pn, page, pm);
    }
  }

  /** `himem_write` of a whole page. */
  method FillBlock(himem: Himem, blockId: nat, buf: array<byte>)
    requires himem.Valid() && blockId < himem.maximumBlocks && buf.Length == himem.blockSize >= 1
    modifies himem
    ensures himem.Valid() && himem.blocks == old(himem.blocks)[blockId := buf[..]]
  {
    assert buf[..buf.Length] + himem.blocks[blockId][buf.Length..] == buf[..];
    var n := himem.Write(blockId, buf, buf.Length);
  }

  lemma OneLess(items: map<nat, PageItem>, key: nat, limit: nat)
    requires BlocksApart(items, limit) && key in items
    ensures BlocksApart(items - {key}, limit) && Spare(items - {key}, items[key].blockId)
    ensures items[key].blockId < limit
  {
  }

  lemma OneMore(items: map<nat, PageItem>, key: nat, item: PageItem, limit: nat)
    requires BlocksApart(items, limit) && key !in items && item.blockId < limit && Spare(items, item.blockId)
    ensures BlocksApart(items[key := item], limit)
  {
  }

  /** A cached page that is in the file as well may leave the cache. */
  lemma FaithfulWithout(pages: seq<seq<byte>>, items: map<nat, PageItem>, blocks: seq<seq<byte>>,
                        bytes: seq<byte>, ps: nat, key: nat)
    requires HasPages(bytes, ps, |pages|) && Faithful(pages, items, blocks, bytes, ps)
    requires key < |pages| && pages[key] == PageAt(bytes, ps, |pages|, key)
    ensures Faithful(pages, items - {key}, blocks, bytes, ps)
  {
  }

  /** A page written to a spare block is the only page that changes. */
  lemma FaithfulWith(pages: seq<seq<byte>>, items: map<nat, PageItem>, blocks: seq<seq<byte>>,
                     bytes: seq<byte>, ps: nat, pn: nat, item: PageItem, page: seq<byte>)
    requires HasPages(bytes, ps, |pages|) && Faithful(pages, items, blocks, bytes, ps)
    requires pn < |pages| && item.blockId < |blocks| && Spare(items, item.blockId)
    ensures Faithful(pages[pn := page], items[pn := item], blocks[item.blockId := page], bytes, ps)
  {
  }

  lemma BlockHolds(pages: seq<seq<byte>>, items: map<nat, PageItem>, limit: nat, blocks: seq<seq<byte>>,
                   bytes: seq<byte>, ps: nat, pn: nat)
    requires HasPages(bytes, ps, |pages|) && Faithful(pages, items, blocks, bytes, ps)
    requires BlocksApart(items, limit) && limit <= |blocks| && pn in items && pn < |pages|
    ensures items[pn].blockId < limit && blocks[items[pn].blockId] == pages[pn]
  {
  }

  lemma FileHolds(pages: seq<seq<byte>>, items: map<nat, PageItem>, blocks: seq<seq<byte>>,
                  bytes: seq<byte>, ps: nat, pn: nat)
    requires HasPages(bytes, ps, |pages|) && Faithful(pages, items, blocks, bytes, ps)
    requires pn !in items && pn < |pages|
    ensures PageAt(bytes, ps, |pages|, pn) == pages[pn]
  {
  }

  /** Writing a page's own contents to its place in the file. */
  lemma FaithfulFlushed(pages: seq<seq<byte>>, items: map<nat, PageItem>, blocks: seq<seq<byte>>,
                        bytes: seq<byte>, ps: nat, pn: nat, offset: int)
    requires HasPages(bytes, ps, |pages|) && Faithful(pages, items, blocks, bytes, ps)
    requires pn < |pages| && |pages[pn]| == ps && offset == pn * ps
    ensures 0 <= offset && offset + ps <= |bytes|
    ensures var r := bytes[..offset] + pages[pn] + bytes[offset + ps..];
            HasPages(r, ps, |pages|) && Faithful(pages, items, blocks, r, ps) && PageAt(r, ps, |pages|, pn) == pages[pn]
  {
    WrittenBack(bytes, ps, |pages|, pn, pages[pn]);
  }
}
