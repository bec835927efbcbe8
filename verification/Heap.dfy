/** The small-block heap as a whole: any number of pages, each cut for one bucket and owned by one thread, each
    running the protocol of `RemoteFree` with its owner and any number of foreign freers, interleaved freely.
    Pages come into use one by one, as get_fresh_page hands them out; none is taken back.  `SmallHeap` shows that
    what get_fresh_page and page_init_for_bucket do is a step of this machine. */
module Heap {
  import opened Common
  import opened HeapLayout
  import RemoteFree

  datatype PageKey = PageKey(seg: nat, page: nat)

  datatype Page = Page(bucket: nat, owner: Tid, state: RemoteFree.State)

  type State = map<PageKey, Page>

  datatype Action =
    | Fresh(key: PageKey, page: Page)
    | At(tid: Tid, key: PageKey, act: RemoteFree.Action, after: RemoteFree.State)

  // A page that has just been initialised for a bucket.
  predicate FreshPage(key: PageKey, page: Page) {
    && IsSegment(key.seg) && key.page < PAGES_PER_SEGMENT && page.bucket < BUCKET_COUNT
    && RemoteFree.Init(page.state) && RemoteFree.BlockCount(page.state) == BlockCount(page.bucket)
  }

  // What only the owner of a page does: it touches the bitmap without a lock.
  predicate OwnersOnly(act: RemoteFree.Action) {
    act.Alloc? || act.LocalFree? || act.BeginDrain? || act.DrainOne? || act.EndDrain?
  }

  // lc_heap_allocate takes from pages of the calling thread, and lc_heap_free compares the owner with it.
  predicate May(tid: Tid, page: Page, act: RemoteFree.Action) {
    if OwnersOnly(act) then tid == page.owner else act.UserWrite? || act.t == tid
  }

  predicate Step(h: State, a: Action, h': State) {
    match a
    case Fresh(key, page) => key !in h && FreshPage(key, page) && h' == h[key := page]
    case At(tid, key, act, after) =>
      && key in h && May(tid, h[key], act) && RemoteFree.Step(h[key].state, act, after)
      && h' == h[key := h[key].(state := after)]
  }

  ghost predicate IsRun(states: seq<State>, actions: seq<Action>) {
    && |states| == |actions| + 1
    && states[0] == map[]
    && forall i :: 0 <= i < |actions| ==> Step(states[i], actions[i], states[i + 1])
  }

  // ----- the invariant -----

  ghost predicate PageOk(key: PageKey, page: Page) {
    && IsSegment(key.seg) && key.page < PAGES_PER_SEGMENT && page.bucket < BUCKET_COUNT
    && RemoteFree.Inv(page.state) && RemoteFree.BlockCount(page.state) == BlockCount(page.bucket)
  }

  ghost predicate Inv(h: State) {
    forall key <- h :: PageOk(key, h[key])
  }

  lemma InvStep(h: State, a: Action, h': State)
    requires Inv(h) && Step(h, a, h')
    ensures Inv(h')
  {
    match a
    case Fresh(key, page) => RemoteFree.InvInit(page.state);
    case At(_, key, act, after) =>
      assert PageOk(key, h[key]);
      RemoteFree.InvStep(h[key].state, act, after);
      RemoteFree.SameBlocks(h[key].state, act, after);
  }

  lemma {:induction false} InvOnRun(states: seq<State>, actions: seq<Action>, i: nat)
    requires IsRun(states, actions) && i < |states|
    ensures Inv(states[i])
  {
    if i > 0 {
      InvOnRun(states, actions, i - 1);
      InvStep(states[i - 1], actions[i - 1], states[i]);
    }
  }

  // ----- what the heap promises -----

  function Key(b: BlockId): PageKey { PageKey(b.seg, b.page) }

  // b is a block of a page in use, cut as that page is, and is handed out.
  predicate Live(h: State, b: BlockId) {
    && Key(b) in h && h[Key(b)].bucket == b.bucket
    && b.block < |h[Key(b)].state.status| && h[Key(b)].state.status[b.block] == RemoteFree.Live
  }

  lemma LiveIsBlock(h: State, b: BlockId)
    requires Inv(h) && Live(h, b)
    ensures IsBlock(b)
  {
    assert PageOk(Key(b), h[Key(b)]);
  }

  // In every run over all pages, different blocks that are handed out at the same time have no byte in common.
  lemma LiveBlocksDisjoint(states: seq<State>, actions: seq<Action>, i: nat, b: BlockId, c: BlockId)
    requires IsRun(states, actions) && i < |states| && Live(states[i], b) && Live(states[i], c) && b != c
    ensures IsBlock(b) && IsBlock(c) && forall a: nat :: !(Covers(b, a) && Covers(c, a))
  {
    InvOnRun(states, actions, i);
    LiveIsBlock(states[i], b);
    LiveIsBlock(states[i], c);
    forall a: nat ensures !(Covers(b, a) && Covers(c, a)) {
      if Covers(b, a) && Covers(c, a) { BlocksDisjoint(b, c, a); }
    }
  }

  // The step hands out block b.
  predicate HandsOut(h: State, a: Action, b: BlockId) {
    && a.At? && a.act.Alloc? && a.key == Key(b) && a.key in h
    && h[a.key].bucket == b.bucket && a.act.block == b.block
  }

  predicate Frees(a: Action, b: BlockId) {
    a.At? && a.key == Key(b) && RemoteFree.Frees(a.act, b.block)
  }

  lemma LiveStep(h: State, a: Action, h': State, b: BlockId)
    requires Inv(h) && Step(h, a, h') && Live(h, b) && !Frees(a, b)
    ensures Live(h', b)
  {
    if a.At? && a.key == Key(b) {
      assert PageOk(a.key, h[a.key]);
      RemoteFree.LiveStep(h[a.key].state, a.act, a.after, b.block);
    }
  }

  lemma {:induction false} LiveUntilFreed(states: seq<State>, actions: seq<Action>, i: nat, j: nat, b: BlockId)
    requires IsRun(states, actions) && i <= j < |states| && Live(states[i], b)
    requires forall k :: i <= k < j ==> !Frees(actions[k], b)
    ensures Live(states[j], b)
  {
    if i < j {
      LiveUntilFreed(states, actions, i, j - 1, b);
      InvOnRun(states, actions, j - 1);
      LiveStep(states[j - 1], actions[j - 1], states[j], b);
    }
  }

  lemma HandedOut(h: State, a: Action, h': State, b: BlockId)
    requires Inv(h) && Step(h, a, h') && HandsOut(h, a, b)
    ensures IsBlock(b) && !Live(h, b) && Live(h', b)
  {
    assert PageOk(a.key, h[a.key]);
    RemoteFree.AllocFindsFree(h[a.key].state, a.act, a.after);
  }

  predicate Contains(b: BlockId, a: nat) { IsBlock(b) && Covers(b, a) }

  // In every run over all pages: if two allocations return blocks with a byte in common, the first of the two
  // blocks was freed in between.
  lemma NoSharedByte(states: seq<State>, actions: seq<Action>, i: nat, j: nat, b: BlockId, c: BlockId, a: nat)
    requires IsRun(states, actions) && i < j < |actions|
    requires HandsOut(states[i], actions[i], b) && HandsOut(states[j], actions[j], c)
    requires Contains(b, a) && Contains(c, a)
    ensures exists k :: i < k < j && Frees(actions[k], b)
  {
    if forall k :: i < k < j ==> !Frees(actions[k], b) {
      InvOnRun(states, actions, i);
      InvOnRun(states, actions, j);
      HandedOut(states[i], actions[i], states[i + 1], b);
      HandedOut(states[j], actions[j], states[j + 1], c);
      LiveUntilFreed(states, actions, i + 1, j, b);
      BlocksDisjoint(b, c, a);
      assert false;
    }
  }

  // ----- who touches a page -----

  lemma {:induction false} OwnerStays(states: seq<State>, actions: seq<Action>, i: nat, j: nat, key: PageKey)
    requires IsRun(states, actions) && i <= j < |states| && key in states[i]
    ensures key in states[j] && states[j][key].owner == states[i][key].owner
    ensures states[j][key].bucket == states[i][key].bucket
  {
    if i < j {
      OwnerStays(states, actions, i, j - 1, key);
      assert Step(states[j - 1], actions[j - 1], states[j]);
    }
  }

  // In every run the bitmap of a page is read and written by one thread only, so it needs no lock.
  lemma OneThreadPerBitmap(states: seq<State>, actions: seq<Action>, i: nat, j: nat)
    requires IsRun(states, actions) && i <= j < |actions| && actions[i].At? && actions[j].At?
    requires actions[i].key == actions[j].key && OwnersOnly(actions[i].act) && OwnersOnly(actions[j].act)
    ensures actions[i].tid == actions[j].tid
  {
    assert Step(states[i], actions[i], states[i + 1]);
    assert Step(states[j], actions[j], states[j + 1]);
    OwnerStays(states, actions, i, j, actions[i].key);
  }

  // ----- where the pages come from -----

  // The page is in use according to the segment records, with that bucket.
  ghost predicate InUse(segments: seq<Segment>, key: PageKey, bucket: nat) {
    exists k :: 0 <= k < |segments| && TakenIn(segments[k], key, bucket)
  }

  predicate TakenIn(s: Segment, key: PageKey, bucket: nat) {
    s.base == key.seg && key.page < |s.buckets| && s.buckets[key.page] == bucket != BUCKET_NONE
  }

  // A page of n blocks whose bitmap has just been initialised; the blocks hold whatever they held before.
  ghost function NewPage(flags: seq<bool>, next: seq<RemoteFree.Link>, threads: set<Tid>): RemoteFree.State {
    RemoteFree.State(flags, 0, RemoteFree.Nil, next, RemoteFree.Ready, map t | t in threads :: RemoteFree.Idle,
                     seq(|next|, _ => RemoteFree.Free), [], [])
  }

  // The segment records and the pages of the machine are the same.
  ghost predicate Agree(segments: seq<Segment>, h: State) {
    && (forall key <- h :: InUse(segments, key, h[key].bucket))
    && (forall key: PageKey, bucket: nat :: InUse(segments, key, bucket) ==> key in h && h[key].bucket == bucket)
  }

  // A page of an old segment that had no bucket was in use by nobody.
  lemma TakeOld(segments: seq<Segment>, h: State, k: nat, page: nat, p: Page)
    requires Agree(segments, h) && k < |segments| && page < |segments[k].buckets|
    requires segments[k].buckets[page] == BUCKET_NONE && p.bucket != BUCKET_NONE
    requires forall j :: 0 <= j < |segments| && j != k ==> segments[j].base != segments[k].base
    ensures PageKey(segments[k].base, page) !in h
    ensures Agree(segments[k := Take(segments[k], page, p.bucket)], h[PageKey(segments[k].base, page) := p])
  {
    var key, segments' := PageKey(segments[k].base, page), segments[k := Take(segments[k], page, p.bucket)];
    forall x: PageKey, bucket: nat
      ensures InUse(segments', x, bucket) <==> if x == key then bucket == p.bucket else InUse(segments, x, bucket)
    {
      assert TakenIn(segments'[k], key, p.bucket);
      forall j | 0 <= j < |segments|
        ensures TakenIn(segments'[j], x, bucket) <==>
          if x == key then j == k && bucket == p.bucket else TakenIn(segments[j], x, bucket) { }
      if j :| 0 <= j < |segments| && TakenIn(segments[j], x, bucket) {
        assert x != key ==> TakenIn(segments'[j], x, bucket);
      }
    }
  }

  // So is page 0 of a segment that is new.
  lemma TakeNew(segments: seq<Segment>, h: State, base: nat, p: Page)
    requires Agree(segments, h) && p.bucket != BUCKET_NONE
    requires forall j :: 0 <= j < |segments| ==> segments[j].base != base
    ensures PageKey(base, 0) !in h
    ensures Agree([Take(NewSegment(base), 0, p.bucket)] + segments, h[PageKey(base, 0) := p])
  {
    var key, s := PageKey(base, 0), Take(NewSegment(base), 0, p.bucket);
    var segments' := [s] + segments;
    forall x: PageKey, bucket: nat
      ensures InUse(segments', x, bucket) <==> if x == key then bucket == p.bucket else InUse(segments, x, bucket)
    {
      assert segments'[0] == s && TakenIn(s, key, p.bucket);
      if j :| 0 <= j < |segments| && TakenIn(segments[j], x, bucket) {
        assert segments'[j + 1] == segments[j];
      }
    }
  }

  ghost predicate TookOld(segments: seq<Segment>, segments': seq<Segment>, k: nat, key: PageKey, bucket: nat) {
    && k < |segments| && segments[k].base == key.seg && key.page < |segments[k].buckets|
    && segments[k].buckets[key.page] == BUCKET_NONE && segments' == segments[k := Take(segments[k], key.page, bucket)]
    && forall j :: 0 <= j < |segments| && j != k ==> segments[j].base != segments[k].base
  }

  // What get_fresh_page has done: the page is of an old segment, or the first of a new one.
  ghost predicate Took(segments: seq<Segment>, segments': seq<Segment>, key: PageKey, bucket: nat) {
    && IsSegment(key.seg) && key.page < PAGES_PER_SEGMENT
    && ((exists k: nat :: TookOld(segments, segments', k, key, bucket))
        || (&& key.page == 0 && segments' == [Take(NewSegment(key.seg), 0, bucket)] + segments
            && forall j :: 0 <= j < |segments| ==> segments[j].base != key.seg))
  }

  lemma Taking(segments: seq<Segment>, segments': seq<Segment>, h: State, key: PageKey, p: Page)
    requires Agree(segments, h) && p.bucket != BUCKET_NONE && Took(segments, segments', key, p.bucket)
    ensures key !in h && Agree(segments', h[key := p])
  {
    if k: nat :| TookOld(segments, segments', k, key, p.bucket) {
      TakeOld(segments, h, k, key.page, p);
    } else {
      TakeNew(segments, h, key.seg, p);
    }
  }

  lemma NewPageOk(flags: seq<bool>, bucket: nat, next: seq<RemoteFree.Link>, threads: set<Tid>)
    requires bucket < BUCKET_COUNT && |next| == BlockCount(bucket) <= |flags|
    requires forall i :: 0 <= i < |flags| ==> (flags[i] <==> i >= BlockCount(bucket))
    ensures RemoteFree.Init(NewPage(flags, next, threads))
    ensures RemoteFree.BlockCount(NewPage(flags, next, threads)) == BlockCount(bucket)
  {
    BlockCountBound(bucket);
  }

  class SmallHeap {
    const store: PageStore
    ghost var pages: State

    ghost predicate Valid()
      reads this, store
    {
      store.Valid() && Agree(store.segments, pages)
    }

    constructor ()
      ensures Valid() && fresh(store) && pages == map[]
    {
      store := new PageStore();
      pages := map[];
    }

    // A fresh page for a thread: the page record is initialised, and the machine takes the step Fresh.
    method NewPageFor(bucket: nat, owner: Tid, answer: Option<nat>, ghost next: seq<RemoteFree.Link>,
                      ghost threads: set<Tid>)
      returns (page: Option<HeapPage>, ghost key: PageKey)
      requires Valid() && bucket < BUCKET_COUNT && |next| == BlockCount(bucket)
      requires answer.Some? ==> store.Untouched(AlignUp(answer.value))
      modifies this, store
      ensures Valid() && (page.None? ==> pages == old(pages))
      ensures page.Some? ==> page.value.Valid() && page.value.bucket == bucket
      ensures page.Some? ==>
        Step(old(pages), Fresh(key, Page(bucket, owner, NewPage(page.value.Flags(), next, threads))), pages)
    {
      page := None;
      var found;
      found, key := TakePage(bucket, answer);
      if found {
        var hp := Initialised(bucket);
        ghost var p := Page(bucket, owner, NewPage(hp.Flags(), next, threads));
        NewPageOk(hp.Flags(), bucket, next, threads);
        Taking(old(store.segments), store.segments, pages, key, p);
        pages := pages[key := p];
        page := Some(hp);
      }
    }

    method TakePage(bucket: nat, answer: Option<nat>) returns (found: bool, ghost key: PageKey)
      requires Valid() && bucket < BUCKET_COUNT && (answer.Some? ==> store.Untouched(AlignUp(answer.value)))
      modifies store
      ensures store.Valid() && (!found ==> store.segments == old(store.segments))
      ensures found ==> Took(old(store.segments), store.segments, key, bucket)
    {
      var r := store.GetFreshPage(bucket, answer);
      found, key := r.Some?, PageKey(0, 0);
      if found {
        key := PageKey(store.segments[r.value.0].base, r.value.1);
        if |store.segments| == |old(store.segments)| {
          assert TookOld(old(store.segments), store.segments, r.value.0, key, bucket);
        }
      }
    }
  }

  // A page record that has just been made and initialised.
  method Initialised(bucket: nat) returns (hp: HeapPage)
    requires bucket < BUCKET_COUNT
    ensures fresh(hp) && hp.Valid() && hp.bucket == bucket
    ensures |hp.Flags()| == 64 * BITMAP_WORDS >= BlockCount(bucket)
    ensures forall i :: 0 <= i < 64 * BITMAP_WORDS ==> (hp.Flags()[i] <==> i >= BlockCount(bucket))
  {
    hp := new HeapPage();
    hp.InitForBucket(bucket);
  }
}
