/** lib/VMM/vmm.c: guest memory in pages, over the himem page cache and the page file. */
module Vmm {
  import opened Options
  import opened LinkedList
  import opened LruCache
  import DirectCache
  import opened Storage
  import opened FlatMemory
  import PageCache

  /** A `vmTable_t` with its page buffer. `dirty` is not initialised. */
  class Page {
    var pageNumber: nat
    var pageAddress: nat
    const data: array<byte>
    var dirty: bool

    constructor (pageSize: nat)
      ensures fresh(data) && data.Length == pageSize
    {
      data := new byte[pageSize];
      pageNumber, pageAddress := 0, 0;
      dirty := *;
    }
  }

  // ----- what the layers say about one another

  ghost function Arrays(items: map<nat, Page>): set<array<byte>> {
    set k | k in items :: items[k].data
  }

  ghost predicate Header(page: Page, pn: nat, ps: nat)
    reads page`pageNumber, page`pageAddress
  {
    page.pageNumber == pn && page.pageAddress == pn * ps
  }

  ghost predicate Headers(items: map<nat, Page>, ps: nat)
    reads items.Values`pageNumber, items.Values`pageAddress
  {
    forall k :: k in items ==> items[k].pageNumber == k && Header(items[k], k, ps)
  }

  ghost predicate BuffersApart(items: map<nat, Page>, ps: nat) {
    && (forall k :: k in items ==> items[k].data.Length == ps)
    && (forall j, k :: j in items && k in items && j != k ==> items[j].data != items[k].data)
  }

  /** A page is in its buffer if it is resident, and in the layer below otherwise. */
  ghost predicate Holds(pages: seq<seq<byte>>, items: map<nat, Page>, below: seq<seq<byte>>)
    reads Arrays(items)
  {
    && |below| == |pages|
    && (forall k :: k in items ==> k < |pages|)
    && (forall pn :: 0 <= pn < |pages| ==> pages[pn] == if pn in items then items[pn].data[..] else below[pn])
  }

  /** A clean page is the same in the layer below. */
  ghost predicate CleanBelow(pages: seq<seq<byte>>, items: map<nat, Page>, below: seq<seq<byte>>)
    reads items.Values`dirty
  {
    forall pn :: 0 <= pn < |pages| && pn < |below| && pn in items && !items[pn].dirty ==> below[pn] == pages[pn]
  }

  lemma EmptyTable(pages: seq<seq<byte>>)
    ensures Holds(pages, map[], pages) && CleanBelow(pages, map[], pages) && DirectCache.Submap<Page>(map[], map[])
    ensures forall ps: nat :: Headers(map[], ps) && BuffersApart(map[], ps)
  {
  }

  /** A clean page may leave the page table. */
  lemma WithoutClean(pages: seq<seq<byte>>, items: map<nat, Page>, below: seq<seq<byte>>, ps: nat, key: nat)
    requires Holds(pages, items, below) && CleanBelow(pages, items, below) && key in items && !items[key].dirty
    requires Headers(items, ps) && BuffersApart(items, ps)
    ensures Holds(pages, items - {key}, below) && CleanBelow(pages, items - {key}, below)
    ensures Headers(items - {key}, ps) && BuffersApart(items - {key}, ps)
  {
  }

  /** A new page with the contents of the layer below, dirty or not. */
  lemma WithLoaded(pages: seq<seq<byte>>, items: map<nat, Page>, below: seq<seq<byte>>, ps: nat, pn: nat, page: Page)
    requires Holds(pages, items, below) && CleanBelow(pages, items, below)
    requires Headers(items, ps) && BuffersApart(items, ps)
    requires pn !in items && pn < |pages| && page.data[..] == below[pn]
    requires page.pageNumber == pn && Header(page, pn, ps) && page.data.Length == ps
    requires page.data !in Arrays(items)
    ensures Holds(pages, items[pn := page], below) && CleanBelow(pages, items[pn := page], below)
    ensures Headers(items[pn := page], ps) && BuffersApart(items[pn := page], ps)
  {
  }

  class Vmm {
    const pageSize: nat
    const numberOfPages: nat
    var pagetableSize: nat
    const lru: Lru<Page>
    const direct: DirectCache.Cache<Page>
    const pageCache: PageCache.PageCache
    const backingStore: PageFile
    /** The guest memory, page by page. */
    ghost var pages: seq<seq<byte>>
    ghost var repr: set<object>

    ghost function Parts(): set<object> {
      {this, direct, direct.lines}
    }

    ghost predicate Shape()
      reads this, repr
    {
      && Parts() <= repr && lru in repr && lru.repr <= repr && pageCache in repr && pageCache.repr <= repr
      && lru.repr !! Parts() && pageCache.repr !! Parts() && lru.repr !! pageCache.repr
      && lru.Valid() && direct.Valid() && pageCache.Valid() && 1 <= pageSize == pageCache.pageSize
      && backingStore == pageCache.store
      && Separate(lru.contents)
    }

    /** The page tables and their buffers belong to no other structure. */
    ghost predicate Separate(items: map<nat, Page>)
      reads this`repr, lru`repr, pageCache`repr
    {
      forall k :: k in items ==>
        items[k] in repr && items[k].data in repr &&
        items[k] !in lru.repr && items[k].data !in lru.repr &&
        items[k] !in pageCache.repr && items[k].data !in pageCache.repr && items[k].data !in Parts()
    }

    ghost predicate Core()
      reads this, repr
    {
      && Shape() && Uniform(pages, pageSize) && Headers(lru.contents, pageSize) && BuffersApart(lru.contents, pageSize)
      && Holds(pages, lru.contents, pageCache.pages) && CleanBelow(pages, lru.contents, pageCache.pages)
    }

    ghost predicate Layers()
      reads this, repr
      ensures Layers() ==> this in repr && direct.lines in repr && this !in pageCache.repr
      ensures Layers() ==> lru.Valid() && lru.repr <= repr && pageCache.repr <= repr
      ensures Layers() ==> forall k :: k in lru.contents ==> lru.contents[k] in repr
      ensures Layers() ==> Headers(lru.contents, pageSize) && 1 <= pageSize && Uniform(pages, pageSize)
      ensures Layers() ==> Holds(pages, lru.contents, pageCache.pages)
      ensures Layers() ==> CleanBelow(pages, lru.contents, pageCache.pages)
    {
      Core() && DirectCache.Submap(direct.Contents(), lru.contents)
    }

    /** Guest memory as the one array that the guest sees. */
    ghost function Memory(): seq<byte>
      requires Valid()
      reads this, repr
    {
      Flat(pages, pageSize)
    }

    ghost predicate Valid()
      reads this, repr
    {
      && Layers() && pagetableSize == lru.numberOfItems
      && pagetableSize <= if numberOfPages > 1 then numberOfPages else 1
    }

    /** At most `numberOfPages` pages are resident, and always room for one; a
        direct-cache hit is a resident page with its own number. */
    lemma ResidentBound()
      requires Valid()
      ensures |lru.contents| <= if numberOfPages > 1 then numberOfPages else 1
      ensures forall k :: k in direct.Contents() ==>
                k in lru.contents && direct.Contents()[k] == lru.contents[k] && lru.contents[k].pageNumber == k
    {
      lru.Bijection();
    }

    /** The fields of a new `VMM_t`, from its parts. */
    constructor (pageSize: nat, numberOfPages: nat, lru: Lru<Page>, direct: DirectCache.Cache<Page>,
                 pageCache: PageCache.PageCache)
      requires 1 <= pageSize == pageCache.pageSize && lru.Valid() && direct.Valid() && pageCache.Valid()
      requires lru.contents == map[] && direct.Contents() == map[] && lru.numberOfItems == 0
      requires {direct, direct.lines} !! lru.repr && {direct, direct.lines} !! pageCache.repr
      requires lru.repr !! pageCache.repr
      ensures Valid() && forall o :: o in repr ==>
                o in lru.repr || o in pageCache.repr || o == this || o == direct || o == direct.lines
      ensures this.pageSize == pageSize && this.numberOfPages == numberOfPages && pages == pageCache.pages
    {
      hide Lru.Valid;
      hide DirectCache.Cache.Valid;
      hide DirectCache.Cache.Contents;
      hide PageCache.PageCache.Valid;
      this.pageSize, this.numberOfPages, pagetableSize := pageSize, numberOfPages, 0;
      this.lru, this.direct, this.pageCache, backingStore := lru, direct, pageCache, pageCache.store;
      pages := pageCache.pages;
      new;
      repr := Parts() + lru.repr + pageCache.repr;
      EmptyTable(pages);
      hide Holds;
      hide CleanBelow;
      hide Headers;
      hide BuffersApart;
      hide DirectCache.Submap;
    }

    /** `vmm_create`, for a page file of zeros. */
    static method Create(maximumSize: nat, ghost n: nat, pageSize: nat, numberOfPages: nat, maximumHimemBlocks: nat,
                         junk: seq<seq<byte>>, stale: nat -> Option<Page>,
                         staleItems: nat -> Option<PageCache.PageItem>)
      returns (vmm: Vmm)
      requires 1 <= pageSize < 0x10000 && 1 <= maximumHimemBlocks < 0x10000
      requires HasPages(Zeros(maximumSize + 1), pageSize, n)
      requires |junk| == maximumHimemBlocks && forall b :: 0 <= b < |junk| ==> |junk[b]| == pageSize
      ensures vmm.Valid() && fresh(vmm.repr)
      ensures vmm.pageSize == pageSize && vmm.numberOfPages == numberOfPages
      ensures vmm.pages == PagesOf(Zeros(maximumSize + 1), pageSize, n)
    {
      hide Lru.Valid;
      hide DirectCache.Cache.Valid;
      hide DirectCache.Cache.Contents;
      hide PageCache.PageCache.Valid;
      hide HasPages;
      hide PagesOf;
      hide Zeros;
      var lru := new Lru<Page>();
      var direct := new DirectCache.Cache<Page>(1024 * 8, stale);
      var pageCache := CreatePageCache(maximumSize, n, pageSize, maximumHimemBlocks, junk, staleItems);
      vmm := new Vmm(pageSize, numberOfPages, lru, direct, pageCache);
      hide Vmm.Valid;
      assert fresh(lru.repr) && fresh(pageCache.repr);
    }

    static method CreatePageCache(maximumSize: nat, ghost n: nat, pageSize: nat, maximumHimemBlocks: nat,
                                  junk: seq<seq<byte>>, staleItems: nat -> Option<PageCache.PageItem>)
      returns (pageCache: PageCache.PageCache)
      requires 1 <= pageSize < 0x10000 && 1 <= maximumHimemBlocks < 0x10000
      requires HasPages(Zeros(maximumSize + 1), pageSize, n)
      requires |junk| == maximumHimemBlocks && forall b :: 0 <= b < |junk| ==> |junk[b]| == pageSize
      ensures pageCache.Valid() && fresh(pageCache.repr) && pageCache.pageSize == pageSize
      ensures pageCache.pages == PagesOf(Zeros(maximumSize + 1), pageSize, n)
    {
      hide PageCache.PageCache.Valid;
      hide HasPages;
      hide PagesOf;
      hide Zeros;
      var file := new PageFile(maximumSize);
      pageCache := new PageCache.PageCache(pageSize, maximumHimemBlocks, file, n, junk, staleItems);
    }

    method GetTLB(pn: nat) returns (r: Option<Page>)
      requires Layers()
      modifies lru.repr
      ensures Layers() && lru.contents == old(lru.contents) && lru.repr == old(lru.repr)
      ensures lru.numberOfItems == old(lru.numberOfItems)
      ensures r == if pn in lru.contents then Some(lru.contents[pn]) else None
    {
      hide Lru.Valid;
      hide DirectCache.Cache.Valid;
      hide DirectCache.Cache.Contents;
      hide PageCache.PageCache.Valid;
      hide Header;
      r := direct.Get(pn);
      if r.None? {
        r := lru.Get(pn);
      }
    }

    /** The flush of a resident page: a dirty page goes to the page cache. */
    method OnPageFlush(page: Page)
      requires Layers() && page.pageNumber in lru.contents && page == lru.contents[page.pageNumber]
      modifies pageCache.repr, page`dirty, this`repr
      ensures Layers() && !page.dirty && old(repr) <= repr && fresh(repr - old(repr))
      ensures forall k :: k in lru.contents && !old(lru.contents[k].dirty) ==> !lru.contents[k].dirty
      ensures lru.contents == old(lru.contents) && lru.list.nodes == old(lru.list.nodes)
      ensures lru.numberOfItems == old(lru.numberOfItems)
    {
      hide Lru.Valid;
      hide DirectCache.Cache.Valid;
      hide DirectCache.Cache.Contents;
      hide PageCache.PageCache.Valid;
      hide Header;
      hide Holds;
      hide BuffersApart;
      hide DirectCache.Submap;
      assert allocated(lru.contents.Values) && allocated(Arrays(lru.contents));
      if page.dirty {
        BackingStoreWrite(page.pageNumber, page.data);
        page.dirty := false;
      }
    }

    method BackingStoreWrite(pn: nat, buf: array<byte>)
      requires Layers() && pn in lru.contents && buf == lru.contents[pn].data
      modifies pageCache.repr, this`repr
      ensures Layers() && old(repr) <= repr && fresh(repr - old(repr))
      ensures pageCache.pages[pn] == pages[pn]
    {
      hide Lru.Valid;
      hide DirectCache.Cache.Valid;
      hide DirectCache.Cache.Contents;
      hide PageCache.PageCache.Valid;
      hide Header;
      pageCache.Set(pn, buf);
      repr := repr + pageCache.repr;
    }

    /** `lru_cache_remove` with the page flush as its callback. */
    method RemoveFromLru(key: nat, ghost entry: Page)
      requires Layers() && key in lru.contents && entry == lru.contents[key]
      modifies pageCache.repr, entry`dirty, lru.repr, this`repr
      ensures Core() && old(repr) <= repr && fresh(repr - old(repr))
      ensures lru.contents == old(lru.contents) - {key} && lru.repr == old(lru.repr)
      ensures lru.numberOfItems == old(lru.numberOfItems) - 1
    {
      hide Lru.Valid;
      hide DirectCache.Cache.Valid;
      hide DirectCache.Cache.Contents;
      hide PageCache.PageCache.Valid;
      hide Header;
      var found := lru.Find(key);
      if found.Some? {
        OnPageFlush(found.value.value);
        UnlinkClean(found.value);
      }
    }

    method UnlinkClean(item: CacheItem<Page>)
      requires Core() && item in Vals(lru.list.nodes)
      requires item.key in lru.contents && !lru.contents[item.key].dirty
      modifies lru.repr
      ensures Core() && lru.contents == old(lru.contents) - {item.key} && lru.repr == old(lru.repr)
      ensures lru.numberOfItems == old(lru.numberOfItems) - 1
    {
      hide Lru.Valid;
      hide DirectCache.Cache.Valid;
      hide DirectCache.Cache.Contents;
      hide PageCache.PageCache.Valid;
      hide Header;
      hide Holds;
      hide CleanBelow;
      hide BuffersApart;
      hide Headers;
      WithoutClean(pages, lru.contents, pageCache.pages, pageSize, item.key);
      ghost var rest := lru.contents - {item.key};
      assert allocated(Arrays(rest)) && allocated(rest.Values);
      lru.Unlink(item);
    }

    method FreeVmtable(entry: Page)
      requires Layers() && entry.pageNumber in lru.contents && entry == lru.contents[entry.pageNumber]
      modifies pageCache.repr, entry`dirty, lru.repr, direct.lines, this`repr
      ensures Layers() && old(repr) <= repr && fresh(repr - old(repr))
      ensures lru.contents == old(lru.contents) - {old(entry.pageNumber)} && lru.repr == old(lru.repr)
      ensures lru.numberOfItems == old(lru.numberOfItems) - 1
      ensures pages == old(pages) && pagetableSize == old(pagetableSize)
    {
      hide Lru.Valid;
      hide DirectCache.Cache.Valid;
      hide DirectCache.Cache.Contents;
      hide PageCache.PageCache.Valid;
      hide Header;
      hide Holds;
      hide CleanBelow;
      hide BuffersApart;
      hide DirectCache.Submap;
      RemoveFromLru(entry.pageNumber, entry);
      assert allocated(Arrays(lru.contents)) && allocated(lru.contents.Values);
      direct.Remove(entry.pageNumber);
      DirectCache.CutSubmap(old(direct.Contents()), direct.lines.Length, direct.Contents(), old(lru.contents),
                            entry.pageNumber);
    }

    /** `find_empty_TLB`: evicts the page at the tail of the list when the table
        is full, and returns a new page. */
    method FindEmptyTLB() returns (page: Page)
      requires Valid()
      modifies repr
      ensures Layers() && lru.repr == old(lru.repr) && fresh(page) && fresh(page.data) && page.data.Length == pageSize
      ensures old(repr) <= repr && fresh(repr - old(repr)) && page !in repr && page.data !in repr
      ensures pages == old(pages) && lru.contents.Keys <= old(lru.contents).Keys
      ensures pagetableSize == lru.numberOfItems + 1 <= if numberOfPages > 1 then numberOfPages else 1
    {
      hide Lru.Valid;
      hide DirectCache.Cache.Valid;
      hide DirectCache.Cache.Contents;
      hide PageCache.PageCache.Valid;
      hide Header;
      hide Holds;
      hide CleanBelow;
      hide BuffersApart;
      hide Headers;
      hide DirectCache.Submap;
      EvictIfFull();
      assert allocated(Arrays(lru.contents)) && allocated(lru.contents.Values) && allocated(repr);
      page := new Page(pageSize);
      pagetableSize := pagetableSize + 1;
    }

    method EvictIfFull()
      requires Valid()
      modifies repr
      ensures Layers() && lru.repr == old(lru.repr)
      ensures old(repr) <= repr && fresh(repr - old(repr))
      ensures pages == old(pages) && lru.contents.Keys <= old(lru.contents).Keys
      ensures pagetableSize == lru.numberOfItems && pagetableSize + 1 <= if numberOfPages > 1 then numberOfPages else 1
    {
      hide Lru.Valid;
      hide DirectCache.Cache.Valid;
      hide DirectCache.Cache.Contents;
      hide PageCache.PageCache.Valid;
      hide Header;
      hide Holds;
      hide CleanBelow;
      hide BuffersApart;
      hide Headers;
      hide DirectCache.Submap;
      if pagetableSize >= numberOfPages {
        var evicted := EvictLast();
        if evicted {
          assert allocated(Arrays(lru.contents)) && allocated(lru.contents.Values);
          pagetableSize := pagetableSize - 1;
        }
      }
    }

    /** The page at the tail of the list leaves the page table. */
    method EvictLast() returns (evicted: bool)
      requires Layers()
      modifies repr
      ensures Layers() && lru.repr == old(lru.repr) && old(repr) <= repr && fresh(repr - old(repr))
      ensures pages == old(pages) && lru.contents.Keys <= old(lru.contents).Keys
      ensures pagetableSize == old(pagetableSize)
      ensures if evicted then lru.numberOfItems == old(lru.numberOfItems) - 1
              else lru.numberOfItems == old(lru.numberOfItems) == 0
      ensures evicted ==>
                var order := old(lru.Order()); |order| > 0 && lru.contents == old(lru.contents) - {order[|order| - 1]}
    {
      hide Lru.Valid;
      hide DirectCache.Cache.Valid;
      hide DirectCache.Cache.Contents;
      hide PageCache.PageCache.Valid;
      hide Header;
      hide Holds;
      hide CleanBelow;
      hide BuffersApart;
      hide Headers;
      hide DirectCache.Submap;
      hide Core;
      var last := lru.GetLeastRecentlyUsed();
      if last.None? {
        return false;
      }
      ghost var order := lru.Order();
      ghost var k := order[|order| - 1];
      LastIsIndexed(lru.contents, pageSize, k);
      FreeVmtable(last.value);
      assert lru.contents == old(lru.contents) - {k};
      return true;
    }

    /** `backing_store_read`: from the page cache, or else from the file. */
    method BackingStoreRead(pn: nat, buf: array<byte>, len: nat)
      requires Layers() && pn < |pages| && buf.Length == len == pageSize && buf !in repr
      requires buf !in Arrays(lru.contents)
      modifies pageCache.lru.repr, buf
      ensures Layers() && buf[..] == pageCache.pages[pn]
    {
      hide Lru.Valid;
      hide DirectCache.Cache.Valid;
      hide DirectCache.Cache.Contents;
      hide PageCache.PageCache.Valid;
      hide Header;
      hide PageAt;
      hide HasPages;
      assert allocated(Arrays(lru.contents)) && allocated(lru.contents.Values);
      var hit := pageCache.Get(pn, buf);
      if !hit {
        assert allocated(Arrays(lru.contents)) && allocated(lru.contents.Values);
        ReadPage(pn, buf);
        PageIsSlice(backingStore.bytes, pageSize, |pages|, pn);
      }
    }

    /** The `fread` branch; a read that delivers nothing clears the buffer. */
    method ReadPage(pn: nat, buf: array<byte>)
      requires buf.Length == pageSize >= 1
      modifies buf
      ensures var offset := pn * pageSize;
              && (offset + pageSize <= |backingStore.bytes| ==>
                    buf[..] == backingStore.bytes[offset..offset + pageSize])
              && (offset >= |backingStore.bytes| ==> buf[..] == Zeros(pageSize))
    {
      var offset := pn * pageSize;
      var n := backingStore.ReadAt(offset, buf, pageSize);
      if n == 0 {
        forall i | 0 <= i < buf.Length {
          buf[i] := 0;
        }
      }
    }

    /** The new page enters both caches. */
    method InstallPage(pn: nat, page: Page)
      requires Layers() && pn !in lru.contents && pn < |pages| && page.data[..] == pageCache.pages[pn]
      requires page.pageNumber == pn && Header(page, pn, pageSize) && page.data.Length == pageSize
      requires page !in repr && page.data !in repr
      modifies lru.repr, direct.lines, this`repr
      ensures Layers() && lru.contents == old(lru.contents)[pn := page]
      ensures old(repr) <= repr && fresh(repr - old(repr) - {page, page.data})
      ensures lru.numberOfItems == old(lru.numberOfItems) + 1
    {
      hide Lru.Valid;
      hide DirectCache.Cache.Valid;
      hide DirectCache.Cache.Contents;
      hide PageCache.PageCache.Valid;
      hide Header;
      hide Holds;
      hide CleanBelow;
      hide BuffersApart;
      hide Headers;
      hide DirectCache.Submap;
      ghost var items := lru.contents[pn := page];
      AddToLru(pn, page);
      assert allocated(Arrays(items)) && allocated(items.Values);
      direct.Set(pn, page);
      DirectCache.PutSubmap(old(direct.Contents()), direct.lines.Length, direct.Contents(), old(lru.contents),
                            pn, page);
    }

    method AddToLru(pn: nat, page: Page)
      requires Core() && pn !in lru.contents && pn < |pages| && page.data[..] == pageCache.pages[pn]
      requires page.pageNumber == pn && Header(page, pn, pageSize) && page.data.Length == pageSize
      requires page !in repr && page.data !in repr
      modifies lru.repr, this`repr
      ensures Core() && lru.contents == old(lru.contents)[pn := page]
      ensures old(repr) <= repr && fresh(repr - old(repr) - {page, page.data})
      ensures lru.numberOfItems == old(lru.numberOfItems) + 1
    {
      hide Lru.Valid;
      hide DirectCache.Cache.Valid;
      hide DirectCache.Cache.Contents;
      hide PageCache.PageCache.Valid;
      hide Header;
      ghost var items := lru.contents[pn := page];
      WithLoaded(pages, lru.contents, pageCache.pages, pageSize, pn, page);
      hide Holds;
      hide CleanBelow;
      hide BuffersApart;
      hide Headers;
      assert allocated(Arrays(items)) && allocated(items.Values);
      AddEntry(pn, page);
    }

    method AddEntry(pn: nat, page: Page)
      requires Shape() && pn !in lru.contents && page !in repr && page.data !in repr
      modifies lru.repr, this`repr
      ensures Shape() && lru.contents == old(lru.contents)[pn := page]
      ensures old(repr) <= repr && fresh(repr - old(repr) - {page, page.data})
      ensures lru.numberOfItems == old(lru.numberOfItems) + 1
    {
      hide Lru.Valid;
      hide DirectCache.Cache.Valid;
      hide DirectCache.Cache.Contents;
      hide PageCache.PageCache.Valid;
      hide Header;
      lru.Add(pn, page);
      repr := repr + lru.repr + {page, page.data};
    }

    /** `get_page`: the resident page of an address, after a page fault if needed. */
    method GetPage(addr: nat) returns (page: Page)
      requires Valid() && addr / pageSize < |pages|
      modifies repr
      ensures Valid() && pages == old(pages) && old(repr) <= repr && fresh(repr - old(repr))
      ensures addr / pageSize in lru.contents && page == lru.contents[addr / pageSize]
    {
      hide Lru.Valid;
      hide DirectCache.Cache.Valid;
      hide DirectCache.Cache.Contents;
      hide PageCache.PageCache.Valid;
      hide Header;
      hide Holds;
      hide CleanBelow;
      hide BuffersApart;
      hide Headers;
      hide DirectCache.Submap;
      var pn := addr / pageSize;
      var found := GetTLB(pn);
      if found.Some? {
        return found.value;
      }
      page := FindEmptyTLB();
      LoadNew(pn, page, pn * pageSize);
    }

    method LoadNew(pn: nat, page: Page, address: nat)
      requires Layers() && pn !in lru.contents && pn < |pages| && address == pn * pageSize
      requires page !in repr && page.data !in repr && page.data.Length == pageSize
      modifies pageCache.lru.repr, page, page.data, lru.repr, direct.lines, this`repr
      ensures Layers() && lru.contents == old(lru.contents)[pn := page]
      ensures old(repr) <= repr && fresh(repr - old(repr) - {page, page.data})
      ensures lru.numberOfItems == old(lru.numberOfItems) + 1
    {
      hide Lru.Valid;
      hide DirectCache.Cache.Valid;
      hide DirectCache.Cache.Contents;
      hide PageCache.PageCache.Valid;
      hide Holds;
      hide CleanBelow;
      hide BuffersApart;
      hide Headers;
      hide DirectCache.Submap;
      assert allocated(Arrays(lru.contents)) && allocated(lru.contents.Values);
      page.pageNumber := pn;
      page.pageAddress := address;
      BackingStoreRead(pn, page.data, pageSize);
      hide Header;
      InstallPage(pn, page);
    }

    /** The resident page of an address, seen as a chunk of memory. */
    method PageOfAddress(addr: nat) returns (page: Page)
      requires Valid() && addr < |Memory()|
      modifies repr
      ensures Valid() && pages == old(pages) && old(repr) <= repr && fresh(repr - old(repr))
      ensures addr / pageSize < |pages| && addr / pageSize in lru.contents && page == lru.contents[addr / pageSize]
      ensures page.data in repr && page.data.Length == pageSize && page.data[..] == pages[addr / pageSize]
      ensures page.pageAddress <= addr && addr - page.pageAddress == addr % pageSize
      ensures 1 <= pageSize && Uniform(pages, pageSize) && |Memory()| == |pages| * pageSize
      ensures page in repr && this in repr
    {
      hide Lru.Valid;
      hide DirectCache.Cache.Valid;
      hide DirectCache.Cache.Contents;
      hide PageCache.PageCache.Valid;
      hide Header;
      hide Holds;
      hide CleanBelow;
      hide BuffersApart;
      hide Headers;
      hide DirectCache.Submap;
      InPages(addr, |pages|, pageSize);
      page := GetPage(addr);
      Resident(pages, lru.contents, pageCache.pages, pageSize, addr);
    }

    /** `vmm_read_internal`: as much as lies in one page. */
    method ReadInternal(addr: nat, target: array<byte>, at: nat, len: nat) returns (n: nat)
      requires Valid() && 0 < len && addr + len <= |Memory()| && at + len <= target.Length && target !in repr
      modifies repr, target
      ensures Valid() && Memory() == old(Memory()) && old(repr) <= repr && fresh(repr - old(repr))
      ensures 0 < n <= len && Spliced(old(target[..]), at, Memory(), addr, n, target[..])
    {
      hide Lru.Valid;
      hide DirectCache.Cache.Valid;
      hide DirectCache.Cache.Contents;
      hide PageCache.PageCache.Valid;
      hide Header;
      hide Holds;
      hide CleanBelow;
      hide BuffersApart;
      hide Headers;
      hide DirectCache.Submap;
      hide Core;
      hide Flat;
      var page := PageOfAddress(addr);
      var offset := addr - page.pageAddress;
      var maxLength := pageSize - offset;
      n := if len < maxLength then len else maxLength;
      FlatChunk(pages, pageSize, addr, n);
      CopyOut(page.data, offset, target, at, n);
    }

    method CopyOut(data: array<byte>, offset: nat, target: array<byte>, at: nat, n: nat)
      requires Valid() && data in repr && target !in repr && offset + n <= data.Length && at + n <= target.Length
      modifies target
      ensures Valid()
      ensures target[..] == old(target[..])[..at] + old(data[..])[offset..offset + n] + old(target[..])[at + n..]
    {
      hide Lru.Valid;
      hide DirectCache.Cache.Valid;
      hide DirectCache.Cache.Contents;
      hide PageCache.PageCache.Valid;
      hide Header;
      hide Holds;
      hide CleanBelow;
      hide BuffersApart;
      hide Headers;
      hide DirectCache.Submap;
      assert allocated(Arrays(lru.contents)) && allocated(lru.contents.Values);
      forall i | 0 <= i < n {
        target[at + i] := data[offset + i];
      }
    }

    /** `vmm_write_internal`: as much as lies in one page. */
    method WriteInternal(addr: nat, source: array<byte>, at: nat, len: nat) returns (n: nat)
      requires Valid() && 0 < len && addr + len <= |Memory()| && at + len <= source.Length && source !in repr
      modifies repr
      ensures Valid() && old(repr) <= repr && fresh(repr - old(repr)) && 0 < n <= len
      ensures Memory() == old(Memory())[..addr] + source[at..at + n] + old(Memory())[addr + n..]
    {
      hide Lru.Valid;
      hide DirectCache.Cache.Valid;
      hide DirectCache.Cache.Contents;
      hide PageCache.PageCache.Valid;
      hide Header;
      hide Holds;
      hide CleanBelow;
      hide BuffersApart;
      hide Headers;
      hide DirectCache.Submap;
      hide Core;
      hide Flat;
      var page := PageOfAddress(addr);
      var offset := addr - page.pageAddress;
      var maxLength := pageSize - offset;
      n := if len < maxLength then len else maxLength;
      FlatUpdate(pages, pageSize, addr, source[at..at + n]);
      CopyIn(addr / pageSize, page, offset, source, at, n);
    }

    method CopyIn(ghost pn: nat, page: Page, offset: nat, source: array<byte>, at: nat, n: nat)
      requires Valid() && pn in lru.contents && page == lru.contents[pn] && pn < |pages| && source !in repr
      requires page.data[..] == pages[pn] && offset + n <= page.data.Length && at + n <= source.Length
      modifies page.data, page`dirty, this`pages
      ensures Valid()
      ensures pages == old(pages)[pn := old(pages[pn])[..offset] + source[at..at + n] + old(pages[pn])[offset + n..]]
    {
      hide Lru.Valid;
      hide DirectCache.Cache.Valid;
      hide DirectCache.Cache.Contents;
      hide PageCache.PageCache.Valid;
      hide Header;
      hide DirectCache.Submap;
      hide Headers;
      CopyBytes(pn, page, offset, source, at, n);
      pages := pages[pn := page.data[..]];
    }

    method CopyBytes(ghost pn: nat, page: Page, offset: nat, source: array<byte>, at: nat, n: nat)
      requires Shape() && pn in lru.contents && page == lru.contents[pn] && source !in repr
      requires offset + n <= page.data.Length && at + n <= source.Length
      modifies page.data, page`dirty
      ensures Shape() && page.dirty
      ensures page.data[..] == old(page.data[..offset]) + source[at..at + n] + old(page.data[offset + n..])
    {
      hide Lru.Valid;
      hide DirectCache.Cache.Valid;
      hide DirectCache.Cache.Contents;
      hide PageCache.PageCache.Valid;
      hide Header;
      assert page.data !in lru.repr && page.data !in pageCache.repr && page !in lru.repr && page !in pageCache.repr;
      hide Separate;
      forall i | 0 <= i < n {
        page.data[offset + i] := source[at + i];
      }
      page.dirty := true;
      assert page.data[..] == old(page.data[..offset]) + source[at..at + n] + old(page.data[offset + n..]);
    }

    /** One turn of the loop in `vmm_read`. */
    method ReadNext(addr: nat, target: array<byte>, offset: nat, remain: nat, ghost m: seq<byte>, ghost was: seq<byte>)
      returns (n: nat)
      requires Valid() && 0 < remain && addr + offset + remain <= |Memory()| && offset + remain <= target.Length
      requires target !in repr && m == Memory() && |was| == target.Length && Copied(m, addr, offset, was, target[..])
      modifies repr, target
      ensures Valid() && Memory() == m && old(repr) <= repr && forall o :: o in repr ==> o in old(repr) || fresh(o)
      ensures 0 < n <= remain && Copied(m, addr, offset + n, was, target[..])
    {
      hide Lru.Valid;
      hide DirectCache.Cache.Valid;
      hide DirectCache.Cache.Contents;
      hide PageCache.PageCache.Valid;
      hide Header;
      hide Holds;
      hide CleanBelow;
      hide BuffersApart;
      hide Headers;
      hide DirectCache.Submap;
      hide Layers;
      hide Memory;
      hide Flat;
      hide Copied;
      hide Spliced;
      ghost var before := target[..];
      n := ReadInternal(addr + offset, target, offset, remain);
      Advance(m, addr, offset, n, was, before, target[..]);
    }

    /** `vmm_read`: any address, any length. */
    method Read(addr: nat, target: array<byte>, len: nat)
      requires Valid() && addr + len <= |Memory()| && len <= target.Length && target !in repr
      modifies repr, target
      ensures Valid() && Memory() == old(Memory()) && old(repr) <= repr && fresh(repr - old(repr))
      ensures Copied(old(Memory()), addr, len, old(target[..]), target[..])
    {
      hide *;
      ghost var m, was := Memory(), target[..];
      CopiedNone(m, addr, was);
      var remain: nat, offset: nat := len, 0;
      while remain != 0
        invariant offset + remain == len && Valid() && Memory() == m && target !in repr
        invariant old(repr) <= repr && forall o :: o in repr ==> o in old(repr) || fresh(o)
        invariant |was| == target.Length && Copied(m, addr, offset, was, target[..])
        decreases remain
      {
        var toCpy := ReadNext(addr, target, offset, remain, m, was);
        offset := offset + toCpy;
        remain := remain - toCpy;
      }
    }

    /** `vmm_write`: any address, any length. */
    method Write(addr: nat, source: array<byte>, len: nat)
      requires Valid() && addr + len <= |Memory()| && len <= source.Length && source !in repr
      modifies repr
      ensures Valid() && old(repr) <= repr && fresh(repr - old(repr))
      ensures Memory() == old(Memory())[..addr] + source[..len] + old(Memory())[addr + len..]
    {
      hide Lru.Valid;
      hide DirectCache.Cache.Valid;
      hide DirectCache.Cache.Contents;
      hide PageCache.PageCache.Valid;
      hide Header;
      hide Holds;
      hide CleanBelow;
      hide BuffersApart;
      hide Headers;
      hide DirectCache.Submap;
      hide Layers;
      hide Memory;
      hide Valid;
      hide Flat;
      ghost var m, src := Memory(), source[..];
      var remain: nat, offset: nat := len, 0;
      while remain != 0
        invariant offset + remain == len && Valid() && source !in repr
        invariant old(repr) <= repr && forall o :: o in repr ==> o in old(repr) || fresh(o)
        invariant Memory() == m[..addr] + src[..offset] + m[addr + offset..]
        decreases remain
      {
        ghost var before := Memory();
        var toCpy := WriteInternal(addr + offset, source, offset, remain);
        AdvanceWrite(m, addr, src, offset, toCpy, before, Memory());
        offset := offset + toCpy;
        remain := remain - toCpy;
      }
    }

    /** One turn of the loop in `lru_cache_sync`: the callback, and the next node. */
    method FlushNode(node: ListNode<CacheItem<Page>>, ghost i: nat) returns (next: ListNode?<CacheItem<Page>>)
      requires Valid() && i < |lru.list.nodes| && node == lru.list.nodes[i]
      modifies pageCache.repr, node.val.value`dirty, this`repr
      ensures Valid() && old(repr) <= repr && forall o :: o in repr ==> o in old(repr) || fresh(o)
      ensures lru.contents == old(lru.contents) && lru.list.nodes == old(lru.list.nodes)
      ensures node.val.key in lru.contents && !lru.contents[node.val.key].dirty
      ensures forall k :: k in lru.contents && !old(lru.contents[k].dirty) ==> !lru.contents[k].dirty
      ensures next == if i + 1 < |lru.list.nodes| then lru.list.nodes[i + 1] else null
    {
      hide Lru.Valid;
      hide DirectCache.Cache.Valid;
      hide DirectCache.Cache.Contents;
      hide PageCache.PageCache.Valid;
      hide Header;
      hide Holds;
      hide CleanBelow;
      hide BuffersApart;
      hide Headers;
      hide DirectCache.Submap;
      hide Core;
      lru.ListWalk();
      LastIsIndexed(lru.contents, pageSize, node.val.key);
      next := node.next;
      OnPageFlush(node.val.value);
    }

    /** `vmm_flush`: every dirty page goes to the page cache, which may write back
        other pages on the way. Afterwards the page cache over the file holds all of memory. */
    method Flush()
      requires Valid()
      modifies repr
      ensures Valid() && Memory() == old(Memory()) && old(repr) <= repr && fresh(repr - old(repr))
      ensures lru.contents == old(lru.contents)
      ensures forall k :: k in lru.contents ==> !lru.contents[k].dirty
      ensures pageCache.pages == pages
    {
      hide Lru.Valid;
      hide DirectCache.Cache.Valid;
      hide DirectCache.Cache.Contents;
      hide PageCache.PageCache.Valid;
      hide Header;
      hide Holds;
      hide CleanBelow;
      hide BuffersApart;
      hide Headers;
      hide DirectCache.Submap;
      hide Layers;
      ghost var items, nodes, i := lru.contents, lru.list.nodes, 0;
      lru.ListWalk();
      var node := lru.list.head;
      while node != null
        invariant Valid() && pages == old(pages)
        invariant old(repr) <= repr && forall o :: o in repr ==> o in old(repr) || fresh(o)
        invariant lru.contents == items && lru.list.nodes == nodes
        invariant 0 <= i <= |nodes| && node == if i < |nodes| then nodes[i] else null
        invariant forall j :: 0 <= j < i ==> nodes[j].val.key in items && !items[nodes[j].val.key].dirty
        decreases |nodes| - i
      {
        node := FlushNode(node, i);
        i := i + 1;
      }
      lru.ListWalk();
      AllClean(pages, lru.contents, pageCache.pages);
    }
  }

  lemma AllClean(pages: seq<seq<byte>>, items: map<nat, Page>, below: seq<seq<byte>>)
    requires Holds(pages, items, below) && CleanBelow(pages, items, below)
    requires forall k :: k in items ==> !items[k].dirty
    ensures below == pages
  {
  }

  /** `now` is `before` with the `n` bytes of memory from `addr` at `at`. */
  ghost predicate Spliced(before: seq<byte>, at: nat, m: seq<byte>, addr: nat, n: nat, now: seq<byte>)
    requires addr + n <= |m| && at + n <= |before|
  {
    now == before[..at] + m[addr..addr + n] + before[at + n..]
  }

  /** The first `n` bytes of the buffer are those of memory from `addr`. */
  ghost predicate Copied(m: seq<byte>, addr: nat, n: nat, was: seq<byte>, now: seq<byte>)
    requires addr + n <= |m| && n <= |was|
    ensures Copied(m, addr, n, was, now) ==> |now| == |was|
  {
    now == m[addr..addr + n] + was[n..]
  }

  lemma CopiedNone(m: seq<byte>, addr: nat, was: seq<byte>)
    requires addr <= |m|
    ensures Copied(m, addr, 0, was, was)
  {
  }

  lemma Advance(m: seq<byte>, addr: nat, offset: nat, n: nat, was: seq<byte>, before: seq<byte>, now: seq<byte>)
    requires addr + offset + n <= |m| && offset + n <= |was|
    requires Copied(m, addr, offset, was, before)
    requires Spliced(before, offset, m, addr + offset, n, now)
    ensures Copied(m, addr, offset + n, was, now)
  {
  }

  lemma AdvanceWrite(m: seq<byte>, addr: nat, src: seq<byte>, offset: nat, n: nat, before: seq<byte>, now: seq<byte>)
    requires addr + offset + n <= |m| == |before| && offset + n <= |src|
    requires before == m[..addr] + src[..offset] + m[addr + offset..]
    requires now == before[..addr + offset] + src[offset..offset + n] + before[addr + offset + n..]
    ensures now == m[..addr] + src[..offset + n] + m[addr + (offset + n)..]
  {
    var r := m[..addr] + src[..offset + n] + m[addr + (offset + n)..];
    assert before[..addr + offset] == m[..addr] + src[..offset];
    assert before[addr + offset + n..] == m[addr + (offset + n)..];
  }

  lemma Resident(pages: seq<seq<byte>>, items: map<nat, Page>, below: seq<seq<byte>>, ps: nat, addr: nat)
    requires 1 <= ps && addr / ps in items && addr / ps < |pages|
    requires Holds(pages, items, below) && BuffersApart(items, ps) && Headers(items, ps)
    ensures items[addr / ps].data.Length == ps && items[addr / ps].data[..] == pages[addr / ps]
    ensures items[addr / ps].pageAddress <= addr && addr - items[addr / ps].pageAddress == addr % ps
  {
    assert Header(items[addr / ps], addr / ps, ps);
  }

  lemma PageIsSlice(bytes: seq<byte>, ps: nat, n: nat, pn: nat)
    requires pn < n && HasPages(bytes, ps, n)
    ensures 0 <= pn * ps && pn * ps + ps <= |bytes| && PageAt(bytes, ps, n, pn) == bytes[pn * ps..pn * ps + ps]
  {
    PageFits(ps, pn, n);
  }

  lemma LastIsIndexed(items: map<nat, Page>, ps: nat, k: nat)
    requires Headers(items, ps) && k in items
    ensures items[k].pageNumber == k
  {
  }
}
