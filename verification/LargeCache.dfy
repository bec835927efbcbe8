/** Large blocks: mappings of whole pages with a prefix that records the page count, and the cache of up to
    sixteen freed mappings that later requests reuse.

    Every access to the cache is under its lock, so one operation is one step here.  The kernel's answer to
    a request for pages is a parameter.  `mapped` is what the kernel knows: the mappings that exist and
    their true sizes; `place` says what became of each of them. */
module LargeCache {
  import opened Common

  const PAGE_SIZE := 4096
  const LARGE_HEADER_SIZE := 32
  const CACHE_SIZE := 16

  type Ptr = nat

  datatype Entry = Entry(ptr: Ptr, pages: nat)

  datatype Place = Live | Cached

  // The words that the allocator keeps at the start of a block: the page count and the requested size.
  datatype Prefix = Prefix(pages: nat, size: nat)

  // ----- the cache on values -----

  ghost predicate Distinct(es: seq<Entry>) {
    forall i, j :: 0 <= i < j < |es| ==> es[i].ptr != es[j].ptr
  }

  predicate Stores(es: seq<Entry>, i: nat, p: Ptr) {
    i < |es| && es[i].ptr == p
  }

  // The cached mappings are exactly the entries, each once and with its true page count.
  ghost predicate CacheOk(es: seq<Entry>, mapped: map<Ptr, nat>, place: map<Ptr, Place>) {
    && Distinct(es)
    && (forall i :: 0 <= i < |es| ==> es[i].ptr in place && place[es[i].ptr] == Cached)
    && (forall i :: 0 <= i < |es| ==> es[i].ptr in mapped && mapped[es[i].ptr] == es[i].pages)
    && (forall p :: p in place && place[p] == Cached ==> exists i: nat :: Stores(es, i, p))
  }

  // Dropping entry b by moving the last one into its place.
  function Drop(es: seq<Entry>, b: nat): seq<Entry>
    requires b < |es|
  {
    es[b := es[|es| - 1]][..|es| - 1]
  }

  lemma TakeOut(es: seq<Entry>, mapped: map<Ptr, nat>, place: map<Ptr, Place>, b: nat)
    requires CacheOk(es, mapped, place) && b < |es|
    ensures CacheOk(Drop(es, b), mapped, place[es[b].ptr := Live])
  {
    var es', place' := Drop(es, b), place[es[b].ptr := Live];
    forall p | p in place' && place'[p] == Cached ensures exists i: nat :: Stores(es', i, p) {
      var i: nat :| Stores(es, i, p);
      assert Stores(es', if i == |es| - 1 then b else i, p);
    }
  }

  lemma PutIn(es: seq<Entry>, mapped: map<Ptr, nat>, place: map<Ptr, Place>, p: Ptr)
    requires CacheOk(es, mapped, place) && p in place && place[p] == Live && p in mapped
    ensures CacheOk(es + [Entry(p, mapped[p])], mapped, place[p := Cached])
  {
    var es', place' := es + [Entry(p, mapped[p])], place[p := Cached];
    forall q | q in place' && place'[q] == Cached ensures exists i: nat :: Stores(es', i, q) {
      if q == p {
        assert Stores(es', |es|, q);
      } else {
        var i: nat :| Stores(es, i, q);
        assert Stores(es', i, q);
      }
    }
  }

  // Entry b gives way to block p, and its mapping goes.
  lemma Evict(es: seq<Entry>, mapped: map<Ptr, nat>, place: map<Ptr, Place>, b: nat, p: Ptr)
    requires CacheOk(es, mapped, place) && b < |es| && p in place && place[p] == Live && p in mapped
    ensures CacheOk(es[b := Entry(p, mapped[p])], mapped - {es[b].ptr}, place[p := Cached] - {es[b].ptr})
  {
    var es', place' := es[b := Entry(p, mapped[p])], place[p := Cached] - {es[b].ptr};
    forall q | q in place' && place'[q] == Cached ensures exists i: nat :: Stores(es', i, q) {
      if q == p {
        assert Stores(es', b, q);
      } else {
        var i: nat :| Stores(es, i, q);
        assert Stores(es', i, q);
      }
    }
  }

  // A mapping that is not cached comes or goes.
  lemma Elsewhere(es: seq<Entry>, mapped: map<Ptr, nat>, place: map<Ptr, Place>, p: Ptr, n: nat)
    requires CacheOk(es, mapped, place) && (p in place ==> place[p] == Live)
    ensures CacheOk(es, mapped[p := n], place[p := Live]) && CacheOk(es, mapped - {p}, place - {p})
  {
  }

  // ----- requests -----

  const MAX_REQUEST := SIZE_MAX - LARGE_HEADER_SIZE - (PAGE_SIZE - 1)

  function PagesFor(size: nat): nat {
    (size + LARGE_HEADER_SIZE + PAGE_SIZE - 1) / PAGE_SIZE
  }

  // The fewest pages that hold the request and its header.
  lemma PagesForIsLeast(size: nat, n: nat)
    ensures size + LARGE_HEADER_SIZE <= n * PAGE_SIZE <==> PagesFor(size) <= n
  {
  }

  ghost predicate Fits(p: Ptr, pages: nat, mapped: map<Ptr, nat>, place: map<Ptr, Place>) {
    p in place && place[p] == Cached && p in mapped && mapped[p] >= pages
  }

  ghost predicate SmallestFit(p: Ptr, pages: nat, mapped: map<Ptr, nat>, place: map<Ptr, Place>) {
    && Fits(p, pages, mapped, place)
    && forall q :: Fits(q, pages, mapped, place) ==> mapped[p] <= mapped[q]
  }

  // The smallest cached mapping that fits, or what the kernel gives if none does.
  ghost predicate Chosen(r: Option<Ptr>, pages: nat, answer: Option<Ptr>,
                         mapped: map<Ptr, nat>, place: map<Ptr, Place>)
  {
    if exists p :: Fits(p, pages, mapped, place)
    then r.Some? && SmallestFit(r.value, pages, mapped, place)
    else r == answer
  }

  lemma SmallestIsSmallest(es: seq<Entry>, mapped: map<Ptr, nat>, place: map<Ptr, Place>, b: nat, pages: nat)
    requires CacheOk(es, mapped, place) && b < |es| && es[b].pages >= pages
    requires forall i :: 0 <= i < |es| && es[i].pages >= pages ==> es[b].pages <= es[i].pages
    ensures SmallestFit(es[b].ptr, pages, mapped, place)
  {
    forall q | Fits(q, pages, mapped, place) ensures es[b].pages <= mapped[q] {
      var i: nat :| Stores(es, i, q);
      assert es[i].pages == mapped[q];
    }
  }

  lemma NothingFits(es: seq<Entry>, mapped: map<Ptr, nat>, place: map<Ptr, Place>, pages: nat)
    requires CacheOk(es, mapped, place) && forall i :: 0 <= i < |es| ==> es[i].pages < pages
    ensures forall p :: !Fits(p, pages, mapped, place)
  {
    forall p | p in place && place[p] == Cached ensures p in mapped && mapped[p] < pages {
      var i: nat :| Stores(es, i, p);
      assert es[i].pages == mapped[p];
    }
  }

  // What may stay in the cache when `block` is freed.
  ghost predicate Candidate(p: Ptr, block: Ptr, place: map<Ptr, Place>) {
    p == block || (p in place && place[p] == Cached)
  }

  lemma AllCandidates(es: seq<Entry>, mapped: map<Ptr, nat>, place: map<Ptr, Place>, block: Ptr, b: nat)
    requires CacheOk(es, mapped, place) && b < |es| && block in mapped
    requires forall i :: 0 <= i < |es| ==> es[b].pages <= es[i].pages
    ensures forall p :: Candidate(p, block, place) ==> p in mapped && (p != block ==> es[b].pages <= mapped[p])
  {
    forall p | Candidate(p, block, place) && p != block ensures p in mapped && es[b].pages <= mapped[p] {
      var i: nat :| Stores(es, i, p);
      assert es[i].pages == mapped[p];
    }
  }

  // A live block's prefix has the true size of its mapping, which holds the request.
  ghost predicate PrefixOk(p: Ptr, mapped: map<Ptr, nat>, prefix: map<Ptr, Prefix>) {
    && p in prefix && p in mapped && prefix[p].pages == mapped[p]
    && prefix[p].size + LARGE_HEADER_SIZE <= mapped[p] * PAGE_SIZE
  }

  ghost predicate BooksOk(mapped: map<Ptr, nat>, place: map<Ptr, Place>, prefix: map<Ptr, Prefix>) {
    && mapped.Keys == place.Keys
    && (forall p :: p in mapped ==> mapped[p] < SIZE_MAX)
    && (forall p :: p in place && place[p] == Live ==> PrefixOk(p, mapped, prefix))
  }

  // A block becomes live, with its page count in its prefix.
  lemma BooksAlloc(mapped: map<Ptr, nat>, place: map<Ptr, Place>, prefix: map<Ptr, Prefix>,
                   p: Ptr, pages: nat, size: nat)
    requires BooksOk(mapped, place, prefix) && pages < SIZE_MAX && (p in place ==> place[p] == Cached)
    requires PagesFor(size) <= pages
    ensures BooksOk(mapped[p := pages], place[p := Live], prefix[p := Prefix(pages, size)])
  {
    PagesForIsLeast(size, pages);
    var mapped', place', prefix' := mapped[p := pages], place[p := Live], prefix[p := Prefix(pages, size)];
    forall q | q in place' && place'[q] == Live ensures PrefixOk(q, mapped', prefix') {
      assert q != p ==> PrefixOk(q, mapped, prefix);
    }
  }

  // A block is cached, and one mapping may go.
  lemma BooksFree(mapped: map<Ptr, nat>, place: map<Ptr, Place>, prefix: map<Ptr, Prefix>, p: Ptr, gone: set<Ptr>)
    requires BooksOk(mapped, place, prefix) && p in place
    ensures BooksOk(mapped - gone, place[p := Cached] - gone, prefix)
  {
    forall q | q in place && place[q] == Live ensures PrefixOk(q, mapped, prefix) { }
  }

  class LargeHeap {
    const cache: array<Entry>
    var count: nat
    var prefix: map<Ptr, Prefix>

    ghost var mapped: map<Ptr, nat>
    ghost var place: map<Ptr, Place>

    ghost predicate Valid()
      reads this, cache
    {
      && cache.Length == CACHE_SIZE && count <= CACHE_SIZE
      && CacheOk(cache[..count], mapped, place)
      && BooksOk(mapped, place, prefix)
    }

    constructor ()
      ensures Valid() && fresh(cache) && count == 0 && mapped == map[]
    {
      cache := new Entry[CACHE_SIZE](_ => Entry(0, 0));
      count, prefix, mapped, place := 0, map[], map[], map[];
    }

    // The smallest cached mapping of at least `pages` pages, or -1.
    method FindBest(pages: nat) returns (best: int)
      requires Valid()
      ensures -1 <= best < count
      ensures best < 0 ==> forall i :: 0 <= i < count ==> cache[i].pages < pages
      ensures best >= 0 ==> cache[best].pages >= pages
      ensures best >= 0 ==>
        forall i :: 0 <= i < count && cache[i].pages >= pages ==>
          if i < best then cache[best].pages < cache[i].pages else cache[best].pages <= cache[i].pages
    {
      best := -1;
      var bestPages := SIZE_MAX;
      for i := 0 to count
        invariant -1 <= best < i
        invariant if best < 0 then bestPages == SIZE_MAX else bestPages == cache[best].pages >= pages
        invariant forall j :: 0 <= j < i && cache[j].pages >= pages ==>
          best >= 0 && if j < best then bestPages < cache[j].pages else bestPages <= cache[j].pages
      {
        assert cache[..count][i] == cache[i];
        if cache[i].pages >= pages && cache[i].pages < bestPages {
          best, bestPages := i, cache[i].pages;
          if bestPages == pages { break; }
        }
      }
    }

    // The first entry of the fewest pages, when the cache is full.
    method FindSmallest() returns (smallest: nat)
      requires Valid() && count == CACHE_SIZE
      ensures smallest < count && forall i :: 0 <= i < count ==> cache[smallest].pages <= cache[i].pages
      ensures forall i :: 0 <= i < smallest ==> cache[smallest].pages < cache[i].pages
    {
      smallest := 0;
      for i := 1 to CACHE_SIZE
        invariant smallest < i && forall j :: 0 <= j < i ==> cache[smallest].pages <= cache[j].pages
        invariant forall j :: 0 <= j < smallest ==> cache[smallest].pages < cache[j].pages
      {
        if cache[i].pages < cache[smallest].pages {
          smallest := i;
        }
      }
    }

    // The kernel takes a mapping back; it must be told the mapping's whole size.
    ghost method Unmap(p: Ptr, pages: nat)
      requires p in mapped && mapped[p] == pages && mapped.Keys == place.Keys
      modifies this`mapped, this`place
      ensures mapped == old(mapped) - {p} && place == old(place) - {p}
    {
      mapped, place := mapped - {p}, place - {p};
    }

    // Takes entry `best` out of the cache.
    method TakeCached(best: nat) returns (block: Ptr, pages: nat)
      requires Valid() && best < count
      modifies this`count, cache
      ensures block == old(cache[best]).ptr && pages == old(cache[best]).pages && count == old(count) - 1
      ensures cache[..count] == Drop(old(cache[..count]), best)
    {
      block, pages := cache[best].ptr, cache[best].pages;
      count := count - 1;
      cache[best] := cache[count];
    }

    // The block that Allocate uses: a cached one, or a new mapping.
    method Obtain(pages: nat, answer: Option<Ptr>) returns (r: Option<Ptr>, blockPages: nat)
      requires Valid() && pages < SIZE_MAX && (answer.Some? ==> answer.value !in mapped)
      modifies this`count, this`mapped, this`place, cache
      ensures cache.Length == CACHE_SIZE && count <= CACHE_SIZE && CacheOk(cache[..count], mapped, place)
      ensures r.None? ==> mapped == old(mapped) && place == old(place)
      ensures r.Some? ==>
        && place == old(place)[r.value := Live] && (r.value in old(place) ==> old(place)[r.value] == Cached)
        && mapped == old(mapped)[r.value := blockPages] && pages <= blockPages < SIZE_MAX
      ensures Chosen(r, pages, answer, old(mapped), old(place))
    {
      ghost var es := cache[..count];
      var best := FindBest(pages);
      if best >= 0 {
        assert es[best] == cache[best];
        SmallestIsSmallest(es, mapped, place, best, pages);
        TakeOut(es, mapped, place, best);
        var block;
        block, blockPages := TakeCached(best);
        place := place[block := Live];
        return Some(block), blockPages;
      }
      NothingFits(es, mapped, place, pages);
      if answer.None? { return None, 0; }
      Elsewhere(es, mapped, place, answer.value, pages);
      mapped, place := mapped[answer.value := pages], place[answer.value := Live];
      return answer, pages;
    }

    // Finds a block for the request and writes its prefix.
    method Prepare(size: nat, pages: nat, answer: Option<Ptr>) returns (r: Option<Ptr>)
      requires Valid() && pages == PagesFor(size) && pages < SIZE_MAX && (answer.Some? ==> answer.value !in mapped)
      modifies this, cache
      ensures Valid()
      ensures r.None? ==> place == old(place) && mapped == old(mapped) && prefix == old(prefix)
      ensures r.Some? ==>
        && place == old(place)[r.value := Live] && (r.value in old(place) ==> old(place)[r.value] == Cached)
        && r.value in prefix && prefix == old(prefix)[r.value := prefix[r.value]] && prefix[r.value].size == size
      ensures Chosen(r, pages, answer, old(mapped), old(place))
    {
      var blockPages;
      r, blockPages := Obtain(pages, answer);
      if r.Some? {
        BooksAlloc(old(mapped), old(place), prefix, r.value, blockPages, size);
        prefix := prefix[r.value := Prefix(blockPages, size)];
      }
    }

    // The large path of lc_heap_allocate.  `answer` is the mapping that the kernel gives if it is asked.
    method Allocate(size: nat, answer: Option<Ptr>) returns (r: Option<Ptr>)
      requires Valid() && size <= SIZE_MAX && (answer.Some? ==> answer.value !in mapped)
      modifies this, cache
      ensures Valid()
      ensures r.None? ==> place == old(place) && mapped == old(mapped) && prefix == old(prefix)
      // the block was not live before, and no other block changes hands
      ensures r.Some? ==>
        && place == old(place)[r.value := Live] && (r.value in old(place) ==> old(place)[r.value] == Cached)
        && r.value in prefix && prefix == old(prefix)[r.value := prefix[r.value]] && prefix[r.value].size == size
      // a request whose page count would wrap fails; others use the smallest cached mapping that fits, or a new one
      ensures size > MAX_REQUEST ==> r.None?
      ensures size <= MAX_REQUEST ==> Chosen(r, PagesFor(size), answer, old(mapped), old(place))
    {
      if size > SIZE_MAX - LARGE_HEADER_SIZE - (PAGE_SIZE - 1) { return None; }
      var total := AddSizes(size, LARGE_HEADER_SIZE);
      r := Prepare(size, AddSizes(total, PAGE_SIZE - 1) / PAGE_SIZE, answer);
    }

    // The smallest entry gives way to the block, and its whole mapping goes.
    method Replace(smallest: nat, block: Ptr, pages: nat)
      requires Valid() && smallest < count && block in place && place[block] == Live && mapped[block] == pages
      modifies this`mapped, this`place, cache
      ensures CacheOk(cache[..count], mapped, place)
      ensures var gone := old(cache[smallest]).ptr;
        mapped == old(mapped) - {gone} && place == old(place)[block := Cached] - {gone}
    {
      ghost var es := cache[..count];
      var evict := cache[smallest];
      assert es[smallest] == evict;
      Evict(es, mapped, place, smallest, block);
      cache[smallest] := Entry(block, pages);
      assert cache[..count] == es[smallest := Entry(block, pages)];
      place := place[block := Cached];
      Unmap(evict.ptr, evict.pages);
    }

    // A free into a full cache: all but one of the seventeen candidates stay, and that one is no larger than the rest.
    method FreeIntoFull(block: Ptr, pages: nat) returns (ghost gone: Ptr)
      requires Valid() && count == CACHE_SIZE && block in place && place[block] == Live && mapped[block] == pages
      modifies this`mapped, this`place, cache
      ensures CacheOk(cache[..count], mapped, place)
      ensures Candidate(gone, block, old(place)) && gone in old(mapped)
      ensures mapped == old(mapped) - {gone} && place == old(place)[block := Cached] - {gone}
      ensures forall p :: Candidate(p, block, old(place)) ==> p in old(mapped) && old(mapped)[gone] <= old(mapped)[p]
      // of equals it is the block that goes
      ensures gone != block ==> old(mapped)[gone] < pages
    {
      var smallest := FindSmallest();
      ghost var es := cache[..count];
      assert es[smallest] == cache[smallest];
      AllCandidates(es, mapped, place, block, smallest);
      if pages > cache[smallest].pages {
        gone := cache[smallest].ptr;
        Replace(smallest, block, pages);
      } else {
        gone := block;
        Elsewhere(es, mapped, place, block, 0);
        Unmap(block, pages);
        assert place == old(place)[block := Cached] - {block};
      }
    }

    // The large path of lc_heap_free.
    method Free(block: Ptr)
      requires Valid() && block in place && place[block] == Live
      modifies this, cache
      ensures Valid()
      ensures old(count) < CACHE_SIZE ==> mapped == old(mapped) && place == old(place)[block := Cached]
      ensures old(count) == CACHE_SIZE ==>
        exists gone :: Candidate(gone, block, old(place)) && gone in old(mapped)
          && mapped == old(mapped) - {gone} && place == old(place)[block := Cached] - {gone}
          && (forall p :: Candidate(p, block, old(place)) ==> p in old(mapped) && old(mapped)[gone] <= old(mapped)[p])
          && (gone != block ==> old(mapped)[gone] < old(mapped)[block])
    {
      assert PrefixOk(block, mapped, prefix);
      var pages := prefix[block].pages;
      if count < CACHE_SIZE {
        BooksFree(mapped, place, prefix, block, {});
        ghost var es := cache[..count];
        PutIn(es, mapped, place, block);
        cache[count] := Entry(block, pages);
        count := count + 1;
        place := place[block := Cached];
        assert cache[..count] == es + [Entry(block, pages)];
      } else {
        ghost var gone := FreeIntoFull(block, pages);
        BooksFree(old(mapped), old(place), prefix, block, {gone});
      }
    }
  }
}
