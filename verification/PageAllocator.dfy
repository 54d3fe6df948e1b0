/** The page allocator: blocks cut from pages, pages kept in a list, strings that find their way back to their page. */
module PageAllocator {
  import opened Wrappers

  const PAGE_SIZE: nat := 32728
  const ALIGNMENT: nat := 8
  const LARGE: nat := PAGE_SIZE / 4
  const MAX_ENCODED: nat := 0x1_0000 * ALIGNMENT
  const HEADER_SIZE: nat := 4
  const NULL: int := -1

  /** A page's data begins at the address that names the page; data is how many bytes there are. */
  datatype Page = Page(data: nat, busy: nat, freed: nat, prev: int, next: int)

  /** What was handed out: an address, a size, and the page it was cut from. */
  datatype Block = Block(addr: nat, size: nat, page: nat)

  /** What is stored in front of a string: both in units of the alignment, in 16 bits. */
  datatype Header = Header(pageOffset: nat, fullSize: nat)

  type Pages = map<nat, Page>

  /** The pages, the last of them, and the bytes handed out on the last one. */
  datatype Heap = Heap(pages: Pages, root: nat, busySize: nat)

  // ----- live bytes -----

  ghost function Bytes(live: seq<Block>, page: nat): nat {
    if live == [] then 0 else
      Bytes(live[..|live| - 1], page) + (if live[|live| - 1].page == page then live[|live| - 1].size else 0)
  }

  lemma BytesAdd(live: seq<Block>, b: Block, page: nat)
    ensures Bytes(live + [b], page) == Bytes(live, page) + (if b.page == page then b.size else 0)
  {
    assert (live + [b])[..|live|] == live;
  }

  lemma {:induction false} BytesRemove(live: seq<Block>, i: nat, page: nat)
    requires i < |live|
    ensures Bytes(Without(live, i), page) == Bytes(live, page) - (if live[i].page == page then live[i].size else 0)
  {
    var init, last := live[..|live| - 1], live[|live| - 1];
    if i == |live| - 1 {
      assert Without(live, i) == init;
    } else {
      BytesRemove(init, i, page);
      assert Without(live, i) == Without(init, i) + [last];
      BytesAdd(Without(init, i), last, page);
    }
  }

  /** A page has no live byte exactly when no live block is on it. */
  lemma {:induction false} NoBytes(live: seq<Block>, page: nat)
    requires forall i :: 0 <= i < |live| ==> live[i].size > 0
    ensures Bytes(live, page) == 0 <==> forall i :: 0 <= i < |live| ==> live[i].page != page
  {
    if live != [] {
      var init := live[..|live| - 1];
      NoBytes(init, page);
      assert forall i :: 0 <= i < |init| ==> init[i] == live[i];
    }
  }

  // ----- the invariant -----

  ghost predicate LinkAt(pages: Pages, order: seq<nat>, i: nat)
    requires i < |order|
  {
    && order[i] in pages
    && pages[order[i]].prev == (if i == 0 then NULL else order[i - 1])
    && pages[order[i]].next == (if i + 1 < |order| then order[i + 1] else NULL)
  }

  /** The pages form one list, in this order. */
  ghost predicate Chain(pages: Pages, order: seq<nat>) {
    && (forall p :: p in pages ==> p in order) && Distinct(order)
    && (forall i: nat :: i < |order| ==> LinkAt(pages, order, i))
  }

  /** The bytes handed out on a page; the last page keeps its count in the allocator. */
  function Busy(h: Heap, p: nat): nat
    requires p in h.pages
  {
    if p == h.root then h.busySize else h.pages[p].busy
  }

  /** The first page holds the document itself and counts as full; every other page keeps exact books. */
  ghost predicate PageOk(h: Heap, live: seq<Block>, first: nat, p: nat)
    requires p in h.pages
  {
    var busy, page := Busy(h, p), h.pages[p];
    if p == first then page.freed == 0 && busy == PAGE_SIZE && Bytes(live, p) == 0
    else
      && page.freed <= busy <= page.data && busy % ALIGNMENT == 0
      && Bytes(live, p) == busy - page.freed
      && (Bytes(live, p) > 0 || (p == h.root && busy == 0))
      && (page.data > PAGE_SIZE ==> busy == page.data)
      && (p == h.root ==> page.data == PAGE_SIZE)
  }

  /** A block lies in the part of its page that is handed out; on an oversized page it is all of it. */
  ghost predicate BlockOk(h: Heap, first: nat, b: Block) {
    && b.size > 0 && b.size % ALIGNMENT == 0 && b.page in h.pages && b.page != first
    && b.page <= b.addr && (b.addr - b.page) % ALIGNMENT == 0 && b.addr + b.size <= b.page + Busy(h, b.page)
    && (h.pages[b.page].data > PAGE_SIZE ==> b.addr == b.page && b.size == h.pages[b.page].data)
  }

  ghost predicate Apart(a: nat, n: nat, b: nat, m: nat) {
    a + n <= b || b + m <= a
  }

  /** No two live blocks overlap. */
  ghost predicate Disjoint(live: seq<Block>) {
    forall i, j :: 0 <= i < j < |live| ==> Apart(live[i].addr, live[i].size, live[j].addr, live[j].size)
  }

  ghost predicate PagesApart(pages: Pages) {
    forall p, q :: p in pages && q in pages && p != q ==> Apart(p, pages[p].data, q, pages[q].data)
  }

  ghost predicate PagesOk(h: Heap, live: seq<Block>, first: nat) {
    forall p :: p in h.pages ==> PageOk(h, live, first, p)
  }

  ghost predicate BlocksOk(h: Heap, live: seq<Block>, first: nat) {
    forall i :: 0 <= i < |live| ==> BlockOk(h, first, live[i])
  }

  ghost predicate Good(h: Heap, live: seq<Block>, order: seq<nat>) {
    && |order| > 0 && h.root == order[|order| - 1] && Chain(h.pages, order) && PagesApart(h.pages)
    && Disjoint(live) && PagesOk(h, live, order[0]) && BlocksOk(h, live, order[0])
  }

  /** Memory at base that no page occupies: what the system allocator gives. */
  ghost predicate FreeRegion(pages: Pages, base: nat, size: nat) {
    base !in pages && forall p :: p in pages ==> Apart(p, pages[p].data, base, size)
  }

  lemma OrderIn(pages: Pages, order: seq<nat>, i: nat)
    requires Chain(pages, order) && i < |order|
    ensures order[i] in pages
    ensures pages[order[i]].prev == (if i == 0 then NULL else order[i - 1])
    ensures pages[order[i]].next == (if i + 1 < |order| then order[i + 1] else NULL)
  {
    assert LinkAt(pages, order, i);
  }

  lemma Differ(order: seq<nat>, i: nat, j: nat)
    requires Distinct(order) && i < |order| && j < |order| && i != j
    ensures order[i] != order[j]
  {}

  lemma PageFact(h: Heap, live: seq<Block>, first: nat, p: nat)
    requires PagesOk(h, live, first) && p in h.pages
    ensures PageOk(h, live, first, p)
  {}

  lemma BlockFact(h: Heap, live: seq<Block>, first: nat, i: nat)
    requires BlocksOk(h, live, first) && i < |live|
    ensures BlockOk(h, first, live[i])
  {}

  lemma ApartFact(pages: Pages, p: nat, q: nat)
    requires PagesApart(pages) && p in pages && q in pages && p != q
    ensures Apart(p, pages[p].data, q, pages[q].data)
  {}

  /** Every page but the first and the last holds a live block. */
  lemma PagesAreHeld(h: Heap, live: seq<Block>, order: seq<nat>, p: nat)
    requires Good(h, live, order) && p in h.pages && p != order[0] && p != h.root
    ensures exists i :: 0 <= i < |live| && live[i].page == p
  {
    PageFact(h, live, order[0], p);
    forall i | 0 <= i < |live| ensures live[i].size > 0 { BlockFact(h, live, order[0], i); }
    NoBytes(live, p);
  }

  /** A page's books are exact: what was handed out less what was freed is what is live on it. */
  lemma BooksAreExact(h: Heap, live: seq<Block>, order: seq<nat>, p: nat)
    requires Good(h, live, order) && p in h.pages && p != order[0]
    ensures Bytes(live, p) == Busy(h, p) - h.pages[p].freed && Busy(h, p) <= h.pages[p].data
  {
    PageFact(h, live, order[0], p);
  }

  /** Nothing leaks: once every block is freed, at most the first page and one empty page are left. */
  lemma NothingLeaks(h: Heap, order: seq<nat>)
    requires Good(h, [], order)
    ensures |order| <= 2 && h.pages.Keys == {order[0], h.root}
    ensures |order| == 2 ==> h.busySize == 0 && h.pages[h.root].freed == 0
  {
    Parts(h, [], order);
    forall p | p in h.pages ensures p == order[0] || p == h.root {
      if p != order[0] && p != h.root { PagesAreHeld(h, [], order, p); }
    }
    if |order| > 1 {
      OrderIn(h.pages, order, 1);
      Differ(order, 0, 1);
      Differ(order, 0, |order| - 1);
      BooksAreExact(h, [], order, h.root);
      PageFact(h, [], order[0], h.root);
    }
  }

  lemma Parts(h: Heap, live: seq<Block>, order: seq<nat>)
    requires Good(h, live, order)
    ensures |order| > 0 && h.root == order[|order| - 1] && h.root in h.pages && order[0] in h.pages
    ensures Chain(h.pages, order) && PagesApart(h.pages) && Disjoint(live)
    ensures PagesOk(h, live, order[0]) && BlocksOk(h, live, order[0])
  {
    hide PagesApart, Disjoint, PagesOk, BlocksOk;
    OrderIn(h.pages, order, 0);
    OrderIn(h.pages, order, |order| - 1);
  }

  /** A block put right behind what is handed out on its page overlaps nothing. */
  lemma BehindAll(h: Heap, live: seq<Block>, first: nat, b: Block, pages': Pages)
    requires Disjoint(live) && PagesOk(h, live, first) && BlocksOk(h, live, first)
    requires b.page in pages' && b.page <= b.addr && b.addr + b.size <= b.page + pages'[b.page].data
    requires PagesApart(pages') && forall p :: p in h.pages ==> p in pages' && pages'[p].data == h.pages[p].data
    requires b.page in h.pages ==> b.addr >= b.page + Busy(h, b.page)
    ensures Disjoint(live + [b])
  {
    forall i | 0 <= i < |live| ensures Apart(live[i].addr, live[i].size, b.addr, b.size) {
      BehindOne(h, live, first, b, pages', i);
    }
  }

  lemma BehindOne(h: Heap, live: seq<Block>, first: nat, b: Block, pages': Pages, i: nat)
    requires PagesOk(h, live, first) && BlocksOk(h, live, first) && i < |live|
    requires b.page in pages' && b.page <= b.addr && b.addr + b.size <= b.page + pages'[b.page].data
    requires PagesApart(pages') && forall p :: p in h.pages ==> p in pages' && pages'[p].data == h.pages[p].data
    requires b.page in h.pages ==> b.addr >= b.page + Busy(h, b.page)
    ensures Apart(live[i].addr, live[i].size, b.addr, b.size)
  {
    hide PagesOk, BlocksOk, PagesApart, Bytes;
    BlockFact(h, live, first, i);
    var p := live[i].page;
    PageFact(h, live, first, p);
    if p != b.page { ApartFact(pages', p, b.page); }
  }

  /** Another live block on a page where the books are kept in step. */
  lemma BlocksAdd(h: Heap, h': Heap, live: seq<Block>, first: nat, b: Block)
    requires BlocksOk(h, live, first) && BlockOk(h', first, b)
    requires forall p :: p in h.pages ==> p in h'.pages && h'.pages[p].data == h.pages[p].data && Busy(h, p) <= Busy(h', p)
    ensures BlocksOk(h', live + [b], first)
  {
    forall i | 0 <= i < |live + [b]| ensures BlockOk(h', first, (live + [b])[i]) {
      if i < |live| { BlockFact(h, live, first, i); }
    }
  }

  // ----- allocation -----

  /** From the last page. */
  lemma TakeFromRoot(h: Heap, live: seq<Block>, order: seq<nat>, size: nat)
    requires Good(h, live, order) && 0 < size && size % ALIGNMENT == 0 && h.busySize + size <= PAGE_SIZE
    ensures Good(h.(busySize := h.busySize + size), live + [Block(h.root + h.busySize, size, h.root)], order)
  {
    hide Chain, PagesApart, Disjoint, Bytes, PagesOk, BlocksOk;
    Parts(h, live, order);
    var b, h', first := Block(h.root + h.busySize, size, h.root), h.(busySize := h.busySize + size), order[0];
    PageFact(h, live, first, h.root);
    BehindAll(h, live, first, b, h.pages);
    BlocksAdd(h, h', live, first, b);
    PagesAdd(h, h', live, first, b);
  }

  /** The books after one more block: only its own page's busy count moves. */
  lemma PagesAdd(h: Heap, h': Heap, live: seq<Block>, first: nat, b: Block)
    requires PagesOk(h, live, first) && h'.pages.Keys == h.pages.Keys && h'.root == h.root && b.page == h.root && h.root in h.pages
    requires h' == h.(busySize := h.busySize + b.size) && b.size % ALIGNMENT == 0 && b.size > 0 && h'.busySize <= PAGE_SIZE
    ensures PagesOk(h', live + [b], first)
  {
    hide PagesOk, Bytes;
    forall p | p in h'.pages ensures PageOk(h', live + [b], first, p) {
      PageFact(h, live, first, p);
      BytesAdd(live, b, p);
    }
    PagesAre(h', live + [b], first);
  }

  lemma PagesAre(h: Heap, live: seq<Block>, first: nat)
    requires forall p :: p in h.pages ==> PageOk(h, live, first, p)
    ensures PagesOk(h, live, first)
  {}

  /** A new last page; the block goes to its beginning. */
  function WithLast(h: Heap, base: nat, size: nat): Heap
    requires h.root in h.pages
  {
    Heap(h.pages[h.root := h.pages[h.root].(busy := h.busySize, next := base)][base := Page(PAGE_SIZE, 0, 0, h.root, NULL)],
         base, size)
  }

  lemma AddLastPage(h: Heap, live: seq<Block>, order: seq<nat>, base: nat, size: nat)
    requires Good(h, live, order) && 0 < size <= LARGE && size % ALIGNMENT == 0 && h.busySize + size > PAGE_SIZE
    requires FreeRegion(h.pages, base, PAGE_SIZE)
    ensures h.root in h.pages && Good(WithLast(h, base, size), live + [Block(base, size, base)], order + [base])
  {
    hide Chain, PagesApart, Disjoint, Bytes, PagesOk, BlocksOk, BlockOk, PageOk;
    Parts(h, live, order);
    LastPageOk(h, live, order[0], base, size);
    ChainAppend(h, order, base, size);
  }

  lemma LastPageOk(h: Heap, live: seq<Block>, first: nat, base: nat, size: nat)
    requires h.root in h.pages && PagesApart(h.pages) && Disjoint(live) && PagesOk(h, live, first) && BlocksOk(h, live, first)
    requires first in h.pages && 0 < size <= LARGE && size % ALIGNMENT == 0 && h.busySize + size > PAGE_SIZE
    requires FreeRegion(h.pages, base, PAGE_SIZE)
    ensures PagesApart(WithLast(h, base, size).pages) && Disjoint(live + [Block(base, size, base)])
    ensures PagesOk(WithLast(h, base, size), live + [Block(base, size, base)], first)
    ensures BlocksOk(WithLast(h, base, size), live + [Block(base, size, base)], first)
  {
    hide PagesApart, Disjoint, Bytes, PagesOk, BlocksOk;
    var h', b := WithLast(h, base, size), Block(base, size, base);
    NewApart(h.pages, h'.pages, base, PAGE_SIZE);
    BehindAll(h, live, first, b, h'.pages);
    BlocksAdd(h, h', live, first, b);
    NoneOnNew(h, live, first, base);
    forall p | p in h'.pages ensures PageOk(h', live + [b], first, p) {
      BytesAdd(live, b, p);
      if p != base { PageFact(h, live, first, p); }
    }
    PagesAre(h', live + [b], first);
  }

  lemma NewApart(pages: Pages, pages': Pages, base: nat, size: nat)
    requires PagesApart(pages) && FreeRegion(pages, base, size)
    requires pages'.Keys == pages.Keys + {base} && pages'[base].data == size
    requires forall p :: p in pages ==> pages'[p].data == pages[p].data
    ensures PagesApart(pages')
  {
    forall p, q | p in pages' && q in pages' && p != q ensures Apart(p, pages'[p].data, q, pages'[q].data) {
      if p != base && q != base { ApartFact(pages, p, q); }
    }
  }

  lemma NoneOnNew(h: Heap, live: seq<Block>, first: nat, base: nat)
    requires BlocksOk(h, live, first) && base !in h.pages
    ensures Bytes(live, base) == 0
  {
    forall i | 0 <= i < |live| ensures live[i].page != base && live[i].size > 0 {
      BlockFact(h, live, first, i);
    }
    NoBytes(live, base);
  }

  lemma ChainAppend(h: Heap, order: seq<nat>, base: nat, size: nat)
    requires Chain(h.pages, order) && |order| > 0 && h.root == order[|order| - 1] && base !in h.pages && h.root in h.pages
    ensures Chain(WithLast(h, base, size).pages, order + [base])
  {
    hide Chain, Distinct, LinkAt;
    var pages', order', n := WithLast(h, base, size).pages, order + [base], |order|;
    assert Distinct(order) by { ChainDistinct(h.pages, order); }
    forall i: nat | i < |order'| ensures LinkAt(pages', order', i) { LinkAppend(h, order, base, size, i); }
    forall i: nat | i < n ensures order[i] != base { OrderIn(h.pages, order, i); }
    DistinctSnoc(order, base);
    forall p | p in pages' ensures p in order' {
      if p == base { assert order'[n] == p; } else {
        var i := IndexIn(h.pages, order, p);
        assert order'[i] == p;
      }
    }
    ChainIs(pages', order');
  }

  lemma ChainDistinct(pages: Pages, order: seq<nat>)
    requires Chain(pages, order)
    ensures Distinct(order)
  {}

  lemma IndexIn(pages: Pages, order: seq<nat>, p: nat) returns (i: nat)
    requires Chain(pages, order) && p in pages
    ensures i < |order| && order[i] == p
  {
    assert p in order;
    i :| i < |order| && order[i] == p;
  }

  lemma ChainIs(pages: Pages, order: seq<nat>)
    requires (forall p :: p in pages ==> p in order) && Distinct(order)
    requires forall i: nat :: i < |order| ==> LinkAt(pages, order, i)
    ensures Chain(pages, order)
  {}

  lemma DistinctSnoc(order: seq<nat>, x: nat)
    requires Distinct(order) && forall i: nat :: i < |order| ==> order[i] != x
    ensures Distinct(order + [x])
  {}

  lemma LinkAppend(h: Heap, order: seq<nat>, base: nat, size: nat, i: nat)
    requires Chain(h.pages, order) && |order| > 0 && h.root == order[|order| - 1] && base !in h.pages && h.root in h.pages
    requires i <= |order|
    ensures LinkAt(WithLast(h, base, size).pages, order + [base], i)
  {
    hide Chain, Distinct;
    var n := |order|;
    if i < n {
      ChainDistinct(h.pages, order);
      OrderIn(h.pages, order, i);
      if i < n - 1 { Differ(order, i, n - 1); }
    }
  }

  /** A large block gets a page of its own, put before the last one. */
  function WithLarge(h: Heap, base: nat, size: nat): Heap
    requires h.root in h.pages && h.pages[h.root].prev >= 0 && h.pages[h.root].prev as nat in h.pages
  {
    var prev: nat := h.pages[h.root].prev;
    h.(pages := h.pages[base := Page(size, size, 0, prev, h.root)][prev := h.pages[prev].(next := base)][h.root := h.pages[h.root].(prev := base)])
  }

  lemma PrevOfRoot(h: Heap, order: seq<nat>)
    requires Chain(h.pages, order) && |order| > 1 && h.root == order[|order| - 1]
    ensures h.root in h.pages && h.pages[h.root].prev == order[|order| - 2] && order[|order| - 2] in h.pages && order[|order| - 2] != h.root
  {
    OrderIn(h.pages, order, |order| - 1);
    OrderIn(h.pages, order, |order| - 2);
  }

  ghost function LargeOrder(order: seq<nat>, base: nat): seq<nat>
    requires |order| > 0
  {
    order[..|order| - 1] + [base, order[|order| - 1]]
  }

  lemma AddLargePage(h: Heap, live: seq<Block>, order: seq<nat>, base: nat, size: nat)
    requires Good(h, live, order) && LARGE < size && size % ALIGNMENT == 0 && |order| > 1
    requires FreeRegion(h.pages, base, size)
    ensures h.root in h.pages && h.pages[h.root].prev >= 0 && h.pages[h.root].prev as nat in h.pages && h.pages[h.root].prev != h.root
    ensures Good(WithLarge(h, base, size), live + [Block(base, size, base)], LargeOrder(order, base))
  {
    hide Chain, PagesApart, Disjoint, Bytes, PagesOk, BlocksOk, BlockOk, PageOk;
    Parts(h, live, order);
    PrevOfRoot(h, order);
    LargePageOk(h, live, order[0], base, size);
    ChainLarge(h, order, base, size);
  }

  lemma LargePageOk(h: Heap, live: seq<Block>, first: nat, base: nat, size: nat)
    requires h.root in h.pages && h.pages[h.root].prev >= 0 && h.pages[h.root].prev as nat in h.pages && h.pages[h.root].prev != h.root
    requires PagesApart(h.pages) && Disjoint(live) && PagesOk(h, live, first) && BlocksOk(h, live, first)
    requires first in h.pages && LARGE < size && size % ALIGNMENT == 0 && FreeRegion(h.pages, base, size)
    ensures PagesApart(WithLarge(h, base, size).pages) && Disjoint(live + [Block(base, size, base)])
    ensures PagesOk(WithLarge(h, base, size), live + [Block(base, size, base)], first)
    ensures BlocksOk(WithLarge(h, base, size), live + [Block(base, size, base)], first)
  {
    hide PagesApart, Disjoint, Bytes, PagesOk, BlocksOk;
    var h', b := WithLarge(h, base, size), Block(base, size, base);
    NewApart(h.pages, h'.pages, base, size);
    BehindAll(h, live, first, b, h'.pages);
    BlocksAdd(h, h', live, first, b);
    NoneOnNew(h, live, first, base);
    forall p | p in h'.pages ensures PageOk(h', live + [b], first, p) {
      BytesAdd(live, b, p);
      if p != base { PageFact(h, live, first, p); }
    }
    PagesAre(h', live + [b], first);
  }

  lemma ChainLarge(h: Heap, order: seq<nat>, base: nat, size: nat)
    requires Chain(h.pages, order) && |order| > 1 && h.root == order[|order| - 1] && base !in h.pages
    requires h.root in h.pages && h.pages[h.root].prev >= 0 && h.pages[h.root].prev as nat in h.pages
    ensures Chain(WithLarge(h, base, size).pages, LargeOrder(order, base))
  {
    hide Chain, Distinct, LinkAt;
    var pages', order', n := WithLarge(h, base, size).pages, LargeOrder(order, base), |order|;
    ChainDistinct(h.pages, order);
    forall i: nat | i < |order'| ensures LinkAt(pages', order', i) { LinkLarge(h, order, base, size, i); }
    forall i: nat | i < n ensures order[i] != base { OrderIn(h.pages, order, i); }
    LargeDistinct(order, base);
    forall p | p in pages' ensures p in order' {
      if p == base { assert order'[n - 1] == p; } else if p == h.root { assert order'[n] == p; } else {
        PrevOfRoot(h, order);
        var i := IndexIn(h.pages, order, p);
        assert order'[i] == p;
      }
    }
    ChainIs(pages', order');
  }

  lemma LargeDistinct(order: seq<nat>, x: nat)
    requires |order| > 0 && Distinct(order) && forall i: nat :: i < |order| ==> order[i] != x
    ensures Distinct(LargeOrder(order, x))
  {}

  lemma LinkLarge(h: Heap, order: seq<nat>, base: nat, size: nat, i: nat)
    requires Chain(h.pages, order) && |order| > 1 && h.root == order[|order| - 1] && base !in h.pages
    requires h.root in h.pages && h.pages[h.root].prev >= 0 && h.pages[h.root].prev as nat in h.pages
    requires i <= |order|
    ensures LinkAt(WithLarge(h, base, size).pages, LargeOrder(order, base), i)
  {
    hide Chain, Distinct;
    var n := |order|;
    ChainDistinct(h.pages, order);
    PrevOfRoot(h, order);
    if i < n - 1 {
      OrderIn(h.pages, order, i);
      Differ(order, i, n - 1);
      if i < n - 2 { Differ(order, i, n - 2); }
    } else {
      var order' := LargeOrder(order, base);
      assert order'[n - 2] == order[n - 2] && order'[n - 1] == base && order'[n] == h.root;
      OrderIn(h.pages, order, n - 1);
    }
  }

  // ----- freeing -----

  ghost predicate Unlinkable(h: Heap, page: nat) {
    && page in h.pages && h.pages[page].prev >= 0 && h.pages[page].next >= 0 && h.pages[page].prev != h.pages[page].next
    && h.pages[page].prev as nat in h.pages && h.pages[page].next as nat in h.pages
    && h.pages[page].prev != page && h.pages[page].next != page
  }

  /** A page taken out of the list and given back to the system. */
  ghost function Unlinked(h: Heap, page: nat): Heap
    requires Unlinkable(h, page)
  {
    var prev: nat, next: nat := h.pages[page].prev, h.pages[page].next;
    h.(pages := h.pages[prev := h.pages[prev].(next := next)][next := h.pages[next].(prev := prev)] - {page})
  }

  /** The books of a page after size bytes of it are freed. */
  ghost function Freed(h: Heap, page: nat, size: nat): Heap
    requires page in h.pages
  {
    h.(pages := h.pages[page := h.pages[page].(busy := Busy(h, page), freed := h.pages[page].freed + size)])
  }

  /** The last page with nothing left on it starts over. */
  ghost function Reset(h: Heap): Heap
    requires h.root in h.pages
  {
    h.(pages := h.pages[h.root := h.pages[h.root].(busy := 0, freed := 0)], busySize := 0)
  }

  lemma DisjointRemove(live: seq<Block>, i: nat)
    requires Disjoint(live) && i < |live|
    ensures Disjoint(Without(live, i))
  {}

  lemma RestPlaced(live: seq<Block>, i: nat, k: nat)
    requires i < |live| && k < |live| - 1
    ensures Without(live, i)[k] == live[if k < i then k else k + 1]
  {}

  lemma ChainSame(pages: Pages, pages': Pages, order: seq<nat>)
    requires Chain(pages, order) && pages.Keys == pages'.Keys
    requires forall p :: p in pages ==> pages'[p].prev == pages[p].prev && pages'[p].next == pages[p].next
    ensures Chain(pages', order)
  {
    hide Chain, Distinct;
    ChainDistinct(pages, order);
    forall i: nat | i < |order| ensures LinkAt(pages', order, i) { OrderIn(pages, order, i); }
    forall p | p in pages' ensures p in order { var i := IndexIn(pages, order, p); }
    ChainIs(pages', order);
  }

  lemma ApartSame(pages: Pages, pages': Pages)
    requires PagesApart(pages) && pages'.Keys <= pages.Keys && forall p :: p in pages' ==> pages'[p].data == pages[p].data
    ensures PagesApart(pages')
  {
    hide PagesApart;
    forall p, q | p in pages' && q in pages' && p != q ensures Apart(p, pages'[p].data, q, pages'[q].data) {
      ApartFact(pages, p, q);
    }
    ApartIs(pages');
  }

  lemma ApartIs(pages: Pages)
    requires forall p, q :: p in pages && q in pages && p != q ==> Apart(p, pages[p].data, q, pages[q].data)
    ensures PagesApart(pages)
  {}

  /** What is known about the page a live block is freed from. */
  lemma FreedFrom(h: Heap, live: seq<Block>, order: seq<nat>, i: nat)
    requires Good(h, live, order) && i < |live|
    ensures live[i].page in h.pages && live[i].page != order[0]
    ensures h.pages[live[i].page].freed + live[i].size <= Busy(h, live[i].page)
    ensures Bytes(Without(live, i), live[i].page) == Busy(h, live[i].page) - h.pages[live[i].page].freed - live[i].size
    ensures live[i].page <= live[i].addr < live[i].page + Busy(h, live[i].page)
  {
    hide Chain, PagesApart, Disjoint, Bytes, PagesOk, BlocksOk;
    Parts(h, live, order);
    BlockFact(h, live, order[0], i);
    PageFact(h, live, order[0], live[i].page);
    BytesRemove(live, i, live[i].page);
  }

  /** The page keeps other live blocks. */
  lemma FreeSome(h: Heap, live: seq<Block>, order: seq<nat>, i: nat)
    requires Good(h, live, order) && i < |live| && live[i].page in h.pages
    requires h.pages[live[i].page].freed + live[i].size != Busy(h, live[i].page)
    ensures Good(Freed(h, live[i].page, live[i].size), Without(live, i), order)
  {
    hide Chain, PagesApart, Disjoint, Bytes, PagesOk, BlocksOk;
    Parts(h, live, order);
    FreedFrom(h, live, order, i);
    var h', live' := Freed(h, live[i].page, live[i].size), Without(live, i);
    ChainSame(h.pages, h'.pages, order);
    ApartSame(h.pages, h'.pages);
    DisjointRemove(live, i);
    forall p | p in h'.pages ensures PageOk(h', live', order[0], p) {
      PageFact(h, live, order[0], p);
      BytesRemove(live, i, p);
      BlockFact(h, live, order[0], i);
    }
    PagesAre(h', live', order[0]);
    forall k | 0 <= k < |live| ensures live[k].page in h.pages { BlockFact(h, live, order[0], k); }
    BlocksKept(h, h', live, order[0], i);
  }

  lemma BlocksKept(h: Heap, h': Heap, live: seq<Block>, first: nat, i: nat)
    requires BlocksOk(h, live, first) && i < |live|
    requires forall p :: p in h.pages && p in h'.pages && p != live[i].page ==> h'.pages[p].data == h.pages[p].data && Busy(h, p) <= Busy(h', p)
    requires forall k :: 0 <= k < |live| && k != i ==> live[k].page in h'.pages
    requires forall k :: 0 <= k < |live| && k != i && live[k].page == live[i].page ==>
               h'.pages[live[k].page].data == h.pages[live[k].page].data && Busy(h, live[k].page) <= Busy(h', live[k].page)
    ensures BlocksOk(h', Without(live, i), first)
  {
    hide BlocksOk;
    var live' := Without(live, i);
    forall k | 0 <= k < |live'| ensures BlockOk(h', first, live'[k]) {
      var m := if k < i then k else k + 1;
      RestPlaced(live, i, k);
      BlockFact(h, live, first, m);
    }
    BlocksAre(h', live', first);
  }

  lemma BlocksAre(h: Heap, live: seq<Block>, first: nat)
    requires forall i :: 0 <= i < |live| ==> BlockOk(h, first, live[i])
    ensures BlocksOk(h, live, first)
  {}

  lemma RestHasSize(h: Heap, live: seq<Block>, first: nat, i: nat)
    requires BlocksOk(h, live, first) && i < |live|
    ensures forall k :: 0 <= k < |live| - 1 ==> Without(live, i)[k].size > 0
  {
    hide BlocksOk;
    forall k | 0 <= k < |live| - 1 ensures Without(live, i)[k].size > 0 {
      RestPlaced(live, i, k);
      BlockFact(h, live, first, if k < i then k else k + 1);
    }
  }

  /** The books balance exactly when no other live block is on the page. */
  lemma LastOne(h: Heap, live: seq<Block>, order: seq<nat>, i: nat)
    requires Good(h, live, order) && i < |live|
    ensures live[i].page in h.pages
    ensures h.pages[live[i].page].freed + live[i].size == Busy(h, live[i].page)
        <==> forall k :: 0 <= k < |live| - 1 ==> Without(live, i)[k].page != live[i].page
  {
    hide Chain, PagesApart, Disjoint, Bytes, PagesOk, BlocksOk;
    Parts(h, live, order);
    FreedFrom(h, live, order, i);
    RestHasSize(h, live, order[0], i);
    hide Good, PageOk, BlockOk;
    NoBytes(Without(live, i), live[i].page);
  }

  /** What freeing a block finds: the last page is the one with no successor, and the books tell whether it is empty. */
  lemma Released(h: Heap, live: seq<Block>, order: seq<nat>, i: nat) returns (k: nat)
    requires Good(h, live, order) && i < |live|
    ensures var page := live[i].page;
      && page in h.pages && h.pages[page].freed + live[i].size <= Busy(h, page)
      && k < |order| && order[k] == page && k > 0
      && (h.pages[page].next == NULL <==> page == h.root)
      && (h.pages[page].freed + live[i].size == Busy(h, page) <==>
            forall k :: 0 <= k < |live| - 1 ==> Without(live, i)[k].page != page)
  {
    hide PagesApart, Disjoint, Bytes, PagesOk, BlocksOk;
    Parts(h, live, order);
    FreedFrom(h, live, order, i);
    LastOne(h, live, order, i);
    k := IndexIn(h.pages, order, live[i].page);
    OrderIn(h.pages, order, k);
    if k < |order| - 1 { Differ(order, k, |order| - 1); }
  }

  lemma RestMatches(live: seq<Block>, i: nat, page: nat)
    requires i < |live|
    ensures (forall k :: 0 <= k < |live| && k != i ==> live[k].page != page)
        <==> forall k :: 0 <= k < |live| - 1 ==> Without(live, i)[k].page != page
  {
    assert forall k :: 0 <= k < |live| && k != i ==> live[k] == Without(live, i)[if k < i then k else k - 1];
    assert forall k :: 0 <= k < |live| - 1 ==> Without(live, i)[k] == live[if k < i then k else k + 1];
  }

  /** The last page empties. */
  lemma FreeRoot(h: Heap, live: seq<Block>, order: seq<nat>, i: nat)
    requires Good(h, live, order) && i < |live| && live[i].page == h.root && h.root in h.pages
    requires h.pages[h.root].freed + live[i].size == h.busySize
    ensures Good(Reset(h), Without(live, i), order)
  {
    hide Chain, PagesApart, Disjoint, Bytes, PagesOk, BlocksOk;
    Parts(h, live, order);
    LastOne(h, live, order, i);
    RestMatches(live, i, h.root);
    FreedFrom(h, live, order, i);
    var h', live' := Reset(h), Without(live, i);
    ChainSame(h.pages, h'.pages, order);
    ApartSame(h.pages, h'.pages);
    DisjointRemove(live, i);
    forall p | p in h'.pages ensures PageOk(h', live', order[0], p) {
      PageFact(h, live, order[0], p);
      BytesRemove(live, i, p);
    }
    PagesAre(h', live', order[0]);
    forall k | 0 <= k < |live| ensures live[k].page in h.pages { BlockFact(h, live, order[0], k); }
    BlocksKept(h, h', live, order[0], i);
  }

  /** A page that is not the last empties and leaves the list. */
  lemma FreePage(h: Heap, live: seq<Block>, order: seq<nat>, i: nat, k: nat)
    requires Good(h, live, order) && i < |live| && live[i].page != h.root && live[i].page in h.pages
    requires 0 < k < |order| && order[k] == live[i].page
    requires h.pages[live[i].page].freed + live[i].size == Busy(h, live[i].page)
    ensures Unlinkable(h, live[i].page) && Good(Unlinked(h, live[i].page), Without(live, i), Without(order, k)) && |order| > 2
  {
    hide Chain, PagesApart, Disjoint, Bytes, PagesOk, BlocksOk, LinkAt, Distinct;
    Parts(h, live, order);
    LastOne(h, live, order, i);
    RestMatches(live, i, live[i].page);
    FreedFrom(h, live, order, i);
    ChainRemove(h, order, k);
    var page := live[i].page;
    var h', live', order' := Unlinked(h, page), Without(live, i), Without(order, k);
    ApartSame(h.pages, h'.pages);
    DisjointRemove(live, i);
    forall p | p in h'.pages ensures PageOk(h', live', order[0], p) {
      PageFact(h, live, order[0], p);
      BytesRemove(live, i, p);
    }
    PagesAre(h', live', order[0]);
    forall m | 0 <= m < |live| ensures live[m].page in h.pages { BlockFact(h, live, order[0], m); }
    BlocksKept(h, h', live, order[0], i);
    assert order'[0] == order[0] && order'[|order'| - 1] == order[|order| - 1];
  }

  lemma ChainRemove(h: Heap, order: seq<nat>, k: nat)
    requires Chain(h.pages, order) && 0 < k < |order| - 1
    ensures Unlinkable(h, order[k]) && Chain(Unlinked(h, order[k]).pages, Without(order, k))
  {
    hide Chain, Distinct, LinkAt;
    ChainDistinct(h.pages, order);
    Neighbours(h, order, k);
    var pages', order' := Unlinked(h, order[k]).pages, Without(order, k);
    forall j: nat | j < |order'| ensures LinkAt(pages', order', j) { LinkRemove(h, order, k, j); }
    DistinctRemove(order, k);
    forall p | p in pages' ensures p in order' {
      var i := IndexIn(h.pages, order, p);
      assert order'[if i < k then i else i - 1] == p;
    }
    ChainIs(pages', order');
  }

  lemma DistinctRemove(order: seq<nat>, k: nat)
    requires Distinct(order) && k < |order|
    ensures Distinct(Without(order, k))
  {}

  lemma Neighbours(h: Heap, order: seq<nat>, k: nat)
    requires Chain(h.pages, order) && 0 < k < |order| - 1
    ensures Unlinkable(h, order[k]) && h.pages[order[k]].prev == order[k - 1] && h.pages[order[k]].next == order[k + 1]
  {
    hide Chain, Distinct;
    ChainDistinct(h.pages, order);
    OrderIn(h.pages, order, k - 1);
    OrderIn(h.pages, order, k);
    OrderIn(h.pages, order, k + 1);
    Differ(order, k - 1, k);
    Differ(order, k, k + 1);
    Differ(order, k - 1, k + 1);
  }

  lemma LinkRemove(h: Heap, order: seq<nat>, k: nat, j: nat)
    requires Chain(h.pages, order) && 0 < k < |order| - 1 && j < |order| - 1 && Unlinkable(h, order[k])
    ensures LinkAt(Unlinked(h, order[k]).pages, Without(order, k), j)
  {
    hide Chain, Distinct;
    ChainDistinct(h.pages, order);
    Neighbours(h, order, k);
    var m := if j < k then j else j + 1;
    OrderIn(h.pages, order, m);
    Differ(order, m, k);
    if m != k - 1 { Differ(order, m, k - 1); }
    if m != k + 1 { Differ(order, m, k + 1); }
  }

  /** After a live block is freed: the rest stays as it was, and its page is gone exactly when it was not the last page and nothing is left on it. */
  ghost predicate FreedWell(h: Heap, h': Heap, live: seq<Block>, order: seq<nat>, order': seq<nat>, i: nat)
    requires i < |live|
  {
    var page := live[i].page;
    && Good(h', Without(live, i), order') && h'.root == h.root && page in h.pages
    && h'.pages.Keys + {page} == h.pages.Keys
    && (page !in h'.pages <==> page != h.root && forall k :: 0 <= k < |live| - 1 ==> Without(live, i)[k].page != page)
    && (|order| > 1 ==> |order'| > 1)
    && (if page in h'.pages then order' == order else Unlisted(order, order', page))
  }

  /** The list without page. */
  ghost predicate Unlisted(order: seq<nat>, order': seq<nat>, page: nat) {
    exists k: nat :: k < |order| && order[k] == page && order' == Without(order, k)
  }

  lemma FreedParts(h: Heap, h': Heap, live: seq<Block>, order: seq<nat>, order': seq<nat>, i: nat)
    requires i < |live| && FreedWell(h, h', live, order, order', i)
    ensures h'.root == h.root && live[i].page in h.pages && h'.pages.Keys + {live[i].page} == h.pages.Keys
    ensures live[i].page !in h'.pages
        <==> live[i].page != h.root && forall k :: 0 <= k < |Without(live, i)| ==> Without(live, i)[k].page != live[i].page
    ensures |order| > 1 ==> |order'| > 1
    ensures if live[i].page in h'.pages then order' == order else Unlisted(order, order', live[i].page)
  {
    hide Good, Unlisted;
  }

  /** The page can be freed from: it is known where it is, and how to take it out if it has to go. */
  ghost predicate Releasable(h: Heap, page: nat, size: nat) {
    && page in h.pages && (h.pages[page].next == NULL <==> page == h.root)
    && (h.pages[page].freed + size == Busy(h, page) && page != h.root ==> Unlinkable(h, page))
  }

  /** The three ways freeing can go: something is left on the page, the last page starts over, or the page goes. */
  ghost function AfterFree(h: Heap, page: nat, size: nat): Heap
    requires Releasable(h, page, size)
  {
    if h.pages[page].freed + size != Busy(h, page) then Freed(h, page, size)
    else if page == h.root then Reset(h)
    else Unlinked(h, page)
  }

  lemma FreeBlock(h: Heap, live: seq<Block>, order: seq<nat>, i: nat) returns (order': seq<nat>)
    requires Good(h, live, order) && i < |live|
    ensures Releasable(h, live[i].page, live[i].size)
    ensures FreedWell(h, AfterFree(h, live[i].page, live[i].size), live, order, order', i)
  {
    var k := Released(h, live, order, i);
    hide Good, Unlinkable, Without, FreedWell;
    if h.pages[live[i].page].freed + live[i].size != Busy(h, live[i].page) {
      FreeSomeWell(h, live, order, i);
      order' := order;
    } else if live[i].page == h.root {
      FreeRootWell(h, live, order, i);
      order' := order;
    } else {
      FreePageWell(h, live, order, i, k);
      order' := Without(order, k);
    }
  }

  lemma FreeSomeWell(h: Heap, live: seq<Block>, order: seq<nat>, i: nat)
    requires Good(h, live, order) && i < |live| && live[i].page in h.pages
    requires h.pages[live[i].page].freed + live[i].size != Busy(h, live[i].page)
    ensures FreedWell(h, Freed(h, live[i].page, live[i].size), live, order, order, i)
  {
    FreeSome(h, live, order, i);
    LastOne(h, live, order, i);
    hide Good, Without;
  }

  lemma FreeRootWell(h: Heap, live: seq<Block>, order: seq<nat>, i: nat)
    requires Good(h, live, order) && i < |live| && live[i].page == h.root && h.root in h.pages
    requires h.pages[h.root].freed + live[i].size == h.busySize
    ensures FreedWell(h, Reset(h), live, order, order, i)
  {
    FreeRoot(h, live, order, i);
    hide Good, Without;
  }

  lemma FreePageWell(h: Heap, live: seq<Block>, order: seq<nat>, i: nat, k: nat)
    requires Good(h, live, order) && i < |live| && live[i].page != h.root && live[i].page in h.pages
    requires 0 < k < |order| && order[k] == live[i].page
    requires h.pages[live[i].page].freed + live[i].size == Busy(h, live[i].page)
    ensures Unlinkable(h, live[i].page) && FreedWell(h, Unlinked(h, live[i].page), live, order, Without(order, k), i)
  {
    FreePage(h, live, order, i, k);
    LastOne(h, live, order, i);
    OneFewer(order, k);
    hide Good, Without;
  }

  lemma OneFewer(order: seq<nat>, k: nat)
    requires k < |order|
    ensures |Without(order, k)| == |order| - 1
  {}

  // ----- strings -----

  function RoundUp(n: nat): (r: nat)
    ensures r % ALIGNMENT == 0 && n <= r < n + ALIGNMENT
  {
    (n + (ALIGNMENT - 1)) / ALIGNMENT * ALIGNMENT
  }

  /** A header that tells where its block begins and how large it is. */
  ghost predicate Encodes(header: Header, b: Block) {
    && b.page <= b.addr && header.pageOffset * ALIGNMENT == b.addr - b.page
    && header.pageOffset < 0x1_0000 && header.fullSize < 0x1_0000
    && (if b.size < MAX_ENCODED then header.fullSize * ALIGNMENT == b.size else header.fullSize == 0)
  }

  /** Every live string has a header that encodes its block. */
  ghost predicate StringsOk(live: seq<Block>, strings: set<nat>, headers: map<nat, Header>) {
    forall i :: 0 <= i < |live| && live[i].addr in strings ==> live[i].addr in headers && Encodes(headers[live[i].addr], live[i])
  }

  lemma StringsAdd(live: seq<Block>, strings: set<nat>, headers: map<nat, Header>, b: Block)
    requires StringsOk(live, strings, headers)
    ensures StringsOk(live + [b], strings - {b.addr}, headers)
  {}

  lemma StringsRemove(live: seq<Block>, strings: set<nat>, headers: map<nat, Header>, i: nat)
    requires StringsOk(live, strings, headers) && i < |live|
    ensures StringsOk(Without(live, i), strings, headers)
  {}

  /** The size a header gives back, through the page when the string is too large to be encoded. */
  lemma HeaderTells(h: Heap, live: seq<Block>, order: seq<nat>, i: nat, header: Header)
    requires Good(h, live, order) && i < |live| && Encodes(header, live[i])
    ensures live[i].addr - header.pageOffset * ALIGNMENT == live[i].page && live[i].page in h.pages
    ensures (if header.fullSize == 0 then h.pages[live[i].page].busy else header.fullSize * ALIGNMENT) == live[i].size
  {
    hide Chain, PagesApart, Disjoint, Bytes, PagesOk, BlocksOk;
    Parts(h, live, order);
    BlockFact(h, live, order[0], i);
    PageFact(h, live, order[0], live[i].page);
  }

  /** A fresh block's offset fits the header. */
  lemma OffsetFits(h: Heap, live: seq<Block>, order: seq<nat>, i: nat)
    requires Good(h, live, order) && i < |live|
    ensures live[i].page <= live[i].addr && (live[i].addr - live[i].page) % ALIGNMENT == 0
    ensures (live[i].addr - live[i].page) / ALIGNMENT < 0x1_0000 && live[i].size % ALIGNMENT == 0
  {
    hide Chain, PagesApart, Disjoint, Bytes, PagesOk, BlocksOk;
    Parts(h, live, order);
    BlockFact(h, live, order[0], i);
    PageFact(h, live, order[0], live[i].page);
  }

  /** All that freeing a block keeps. */
  lemma FreeAll(h: Heap, live: seq<Block>, order: seq<nat>, strings: set<nat>, headers: map<nat, Header>, i: nat)
    returns (order': seq<nat>)
    requires Good(h, live, order) && StringsOk(live, strings, headers) && i < |live|
    ensures Releasable(h, live[i].page, live[i].size)
    ensures FreedWell(h, AfterFree(h, live[i].page, live[i].size), live, order, order', i)
    ensures Good(AfterFree(h, live[i].page, live[i].size), Without(live, i), order') && StringsOk(Without(live, i), strings, headers)
  {
    order' := FreeBlock(h, live, order, i);
    StringsRemove(live, strings, headers, i);
    hide Good, StringsOk, Without, Releasable, AfterFree;
  }

  /** Writing the header of the newest block makes it a string and leaves the other strings alone. */
  lemma StringsWrite(h: Heap, live: seq<Block>, order: seq<nat>, strings: set<nat>, headers: map<nat, Header>, i: nat, header: Header)
    requires Good(h, live, order) && StringsOk(live, strings, headers) && i < |live| && Encodes(header, live[i])
    ensures StringsOk(live, strings + {live[i].addr}, headers[live[i].addr := header])
  {
    hide Chain, PagesApart, Bytes, PagesOk, BlocksOk, PageOk;
    Parts(h, live, order);
    forall k | 0 <= k < |live| && k != i ensures live[k].addr != live[i].addr {
      BlockFact(h, live, order[0], k);
      BlockFact(h, live, order[0], i);
      assert if k < i then Apart(live[k].addr, live[k].size, live[i].addr, live[i].size)
             else Apart(live[i].addr, live[i].size, live[k].addr, live[k].size);
    }
  }

  class Allocator {
    var pages: Pages
    var root: nat
    var busySize: nat
    var headers: map<nat, Header>
    ghost var live: seq<Block>
    ghost var order: seq<nat>
    ghost var strings: set<nat>

    ghost predicate Valid() reads this {
      Good(Heap(pages, root, busySize), live, order) && StringsOk(live, strings, headers)
    }

    /** A document begins with one page, full, in the document object itself; room is what the object leaves for it. */
    constructor (sentinel: nat, room: nat)
      ensures Valid() && live == [] && order == [sentinel] && strings == {}
    {
      pages := map[sentinel := Page(room, PAGE_SIZE, 0, NULL, NULL)];
      root, busySize := sentinel, PAGE_SIZE;
      headers, live, order, strings := map[], [], [sentinel], {};
      new;
      assert LinkAt(pages, order, 0);
    }

    /** Serves a block from the last page if it fits; base is where the system would put a new page. */
    method AllocateMemory(size: nat, base: nat) returns (buf: nat, page: nat)
      requires Valid() && 0 < size && size % ALIGNMENT == 0 && (size > LARGE ==> |order| > 1)
      requires FreeRegion(pages, base, if size <= LARGE then PAGE_SIZE else size)
      modifies this
      ensures Valid() && live == old(live) + [Block(buf, size, page)]
      ensures headers == old(headers) && strings == old(strings) - {buf}
      ensures old(busySize) + size <= PAGE_SIZE ==> pages == old(pages) && page == root == old(root) && order == old(order)
      ensures old(busySize) + size > PAGE_SIZE ==> buf == page == base
      ensures old(busySize) + size > PAGE_SIZE && size <= LARGE ==> order == old(order) + [base]
      ensures old(busySize) + size > PAGE_SIZE && size > LARGE ==> order == LargeOrder(old(order), base)
    {
      if busySize + size > PAGE_SIZE {
        buf, page := AllocateMemoryOob(size, base);
        return;
      }
      TakeFromRoot(Heap(pages, root, busySize), live, order, size);
      hide Good, StringsOk;
      buf := root + busySize;
      busySize := busySize + size;
      page := root;
      live := live + [Block(buf, size, page)];
      StringsAdd(old(live), strings, headers, Block(buf, size, page));
      strings := strings - {buf};
    }

    method AllocateMemoryOob(size: nat, base: nat) returns (buf: nat, page: nat)
      requires Valid() && 0 < size && size % ALIGNMENT == 0 && (size > LARGE ==> |order| > 1) && busySize + size > PAGE_SIZE
      requires FreeRegion(pages, base, if size <= LARGE then PAGE_SIZE else size)
      modifies this
      ensures Valid() && buf == page == base && live == old(live) + [Block(base, size, base)]
      ensures headers == old(headers) && strings == old(strings) - {buf}
      ensures order == (if size <= LARGE then old(order) + [base] else LargeOrder(old(order), base))
    {
      ghost var h := Heap(pages, root, busySize);
      hide Good, StringsOk;
      StringsAdd(live, strings, headers, Block(base, size, base));
      page := base;
      if size <= LARGE {
        AddLastPage(h, live, order, base, size);
        var added := Page(PAGE_SIZE, 0, 0, root, NULL);
        pages := pages[root := pages[root].(busy := busySize, next := page)][page := added];
        root := page;
        busySize := size;
        order := order + [base];
        assert Heap(pages, root, busySize) == WithLast(h, base, size);
      } else {
        AddLargePage(h, live, order, base, size);
        var prev: nat := pages[root].prev;
        pages := pages[page := Page(size, size, 0, prev, root)];
        pages := pages[prev := pages[prev].(next := page)];
        pages := pages[root := pages[root].(prev := page)];
        order := LargeOrder(order, base);
        assert Heap(pages, root, busySize) == WithLarge(h, base, size);
      }
      buf := page;
      live := live + [Block(base, size, base)];
      strings := strings - {base};
    }

    /** Frees the live block that ptr, size and page describe; its page goes exactly when nothing else is on it and it is not the last. */
    method DeallocateMemory(ptr: nat, size: nat, page: nat, ghost i: nat)
      requires Valid() && i < |live| && live[i] == Block(ptr, size, page)
      modifies this
      ensures Valid() && live == Without(old(live), i) && headers == old(headers) && strings == old(strings)
      ensures root == old(root) && old(pages).Keys == pages.Keys + {old(live)[i].page}
      ensures old(live)[i].page !in pages
          <==> old(live)[i].page != root && forall k :: 0 <= k < |live| ==> live[k].page != old(live)[i].page
      ensures if old(live)[i].page in pages then order == old(order) else Unlisted(old(order), order, old(live)[i].page)
      ensures |old(order)| > 1 ==> |order| > 1
    {
      hide Good, StringsOk, Without, FreedWell, AfterFree, Releasable, Unlisted;
      ghost var h := Heap(pages, root, busySize);
      ghost var order' := FreeAll(h, live, order, strings, headers, i);
      FreeBytes(page, size, h);
      FreedParts(h, Heap(pages, root, busySize), live, order, order', i);
      live, order := Without(live, i), order';
    }

    /** The bookkeeping of a free. */
    method FreeBytes(page: nat, size: nat, ghost h: Heap)
      requires h == Heap(pages, root, busySize) && Releasable(h, page, size)
      modifies this`pages, this`busySize
      ensures Heap(pages, root, busySize) == AfterFree(h, page, size)
    {
      if page == root {
        pages := pages[page := pages[page].(busy := busySize)];
      }
      pages := pages[page := pages[page].(freed := pages[page].freed + size)];
      if pages[page].freed == pages[page].busy {
        if pages[page].next == NULL {
          pages := pages[page := pages[page].(busy := 0, freed := 0)];
          busySize := 0;
        } else {
          var prev: nat := pages[page].prev;
          var next: nat := pages[page].next;
          pages := pages[prev := pages[prev].(next := next)];
          pages := pages[next := pages[next].(prev := prev)];
          pages := pages - {page};
        }
      }
    }

    /** Reserves room for length characters behind a header, and writes the header. */
    method AllocateString(length: nat, base: nat) returns (text: nat)
      requires Valid() && (RoundUp(HEADER_SIZE + length) > LARGE ==> |order| > 1)
      requires FreeRegion(pages, base, if RoundUp(HEADER_SIZE + length) <= LARGE then PAGE_SIZE else RoundUp(HEADER_SIZE + length))
      modifies this
      ensures Valid() && |live| == |old(live)| + 1 && live[..|old(live)|] == old(live) && text >= HEADER_SIZE
      ensures live[|old(live)|].addr == text - HEADER_SIZE && live[|old(live)|].size == RoundUp(HEADER_SIZE + length)
      ensures strings == old(strings) + {text - HEADER_SIZE}
    {
      hide Good, StringsOk;
      var fullSize := RoundUp(HEADER_SIZE + length);
      var header, page := AllocateMemory(fullSize, base);
      ghost var i := |live| - 1;
      OffsetFits(Heap(pages, root, busySize), live, order, i);
      var pageOffset := header - page;
      var written := Header(pageOffset / ALIGNMENT % 0x1_0000,
                            if fullSize < MAX_ENCODED then fullSize / ALIGNMENT % 0x1_0000 else 0);
      StringsWrite(Heap(pages, root, busySize), live, order, strings, headers, i, written);
      headers := headers[header := written];
      strings := strings + {header};
      text := header + HEADER_SIZE;
    }

    /** Frees a string, from its header alone: exactly the block that was reserved for it. */
    method DeallocateString(text: nat, ghost i: nat)
      requires Valid() && text >= HEADER_SIZE && i < |live| && live[i].addr == text - HEADER_SIZE && text - HEADER_SIZE in strings
      modifies this
      ensures Valid() && live == Without(old(live), i) && headers == old(headers) && strings == old(strings)
      ensures root == old(root) && old(pages).Keys == pages.Keys + {old(live)[i].page}
      ensures old(live)[i].page !in pages
          <==> old(live)[i].page != root && forall k :: 0 <= k < |live| ==> live[k].page != old(live)[i].page
      ensures if old(live)[i].page in pages then order == old(order) else Unlisted(old(order), order, old(live)[i].page)
      ensures |old(order)| > 1 ==> |order| > 1
    {
      hide Good, Unlisted, Without;
      var header := headers[text - HEADER_SIZE];
      HeaderTells(Heap(pages, root, busySize), live, order, i, header);
      hide StringsOk, Encodes;
      var page: nat := text - HEADER_SIZE - header.pageOffset * ALIGNMENT;
      var fullSize := if header.fullSize == 0 then pages[page].busy else header.fullSize * ALIGNMENT;
      DeallocateMemory(text - HEADER_SIZE, fullSize, page, i);
    }
  }
}
