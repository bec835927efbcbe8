/** The single-producer single-consumer ring buffer: creation, push and pop, with indices that wrap modulo 2^64.

    One producer and one consumer interleave freely; every load and store of an index and every single
    byte of an element copy is its own step.  `data` is the memory that creation asked for and got; the
    product that says how much is computed modulo 2^64, as in the source.  A byte copied to an address
    outside `data` is not stored there, and one copied from outside is arbitrary.  `pushed` and `popped`
    record what went in and came out. */
module RingBuffer {
  import opened Common
  import opened Bits
  import opened PowerOfTwo

  type Byte = bv8
  type Element = seq<Byte>

  datatype Producer =
    | Free
    | Started(x: Element)                        // about to load tail
    | GotTail(x: Element, tail: nat)             // about to load head and test for full
    | Writing(x: Element, tail: nat, n: nat)     // n bytes of the slot written

  datatype Consumer =
    | Rest
    | GotHead(head: nat)                         // about to load tail and test for empty
    | Reading(head: nat, out: Element)           // bytes read so far

  // Every element is `width` bytes.
  datatype State = State(hasData: bool, capacity: nat, width: nat, head: nat, tail: nat, data: seq<Byte>,
                         producer: Producer, consumer: Consumer, pushed: seq<Element>, popped: seq<Element>)
  {
    // index & mask, where mask is capacity - 1 in size_t arithmetic
    function Slot(index: nat): nat { And(index, if capacity == 0 then WORD64 - 1 else capacity - 1) }

    // (index & mask) * element_size in size_t arithmetic
    function Offset(index: nat): nat { Wrap(Slot(index) * width, WORD64) }
  }

  // How many bytes creation asks the heap for.
  function Asked(width: nat, request: nat): nat
    requires width < WORD64 && request < WORD64
  {
    Wrap(NextPowerOf2(request) * width, WORD64)
  }

  // The heap gives what was asked for, with any bytes in it, or nothing.
  predicate Given(width: nat, request: nat, memory: Option<seq<Byte>>) {
    && width < WORD64 && request < WORD64
    && (memory.Some? ==> |memory.value| == Asked(width, request))
  }

  // lc_ringbuf_create
  function Create(width: nat, request: nat, memory: Option<seq<Byte>>): State
    requires Given(width, request, memory)
  {
    match memory
    case Some(data) => State(true, NextPowerOf2(request), width, 0, 0, data, Free, Rest, [], [])
    case None => State(false, 0, width, 0, 0, [], Free, Rest, [], [])
  }

  datatype Action =
    | StartPush(x: Element) | LoadTail | TestFull | WriteByte | PublishTail
    | LoadHead | TestEmpty | ReadByte(stray: Byte) | PublishHead

  predicate ProducerStep(s: State, a: Action, s': State) {
    match a
    case StartPush(x) =>
      s.producer == Free && |x| == s.width && s' == if s.hasData then s.(producer := Started(x)) else s
    case LoadTail => s.producer.Started? && s' == s.(producer := GotTail(s.producer.x, s.tail))
    case TestFull =>
      && s.producer.GotTail? && s.producer.tail < WORD64 && s.head < WORD64
      && s' == if WrapSub(s.producer.tail, s.head, WORD64) == s.capacity
               then s.(producer := Free)  // LC_ERR_FULL
               else s.(producer := Writing(s.producer.x, s.producer.tail, 0))
    case WriteByte =>
      && s.producer.Writing? && s.producer.n < s.width && s.producer.n < |s.producer.x|
      && var p := s.producer;
         var at := s.Offset(p.tail) + p.n;
         s' == s.(data := if at < |s.data| then s.data[at := p.x[p.n]] else s.data, producer := p.(n := p.n + 1))
    case PublishTail =>
      && s.producer.Writing? && s.producer.n == s.width && s.producer.tail < WORD64
      && s' == s.(tail := WrapAdd(s.producer.tail, 1, WORD64), producer := Free, pushed := s.pushed + [s.producer.x])
    case _ => false
  }

  predicate ConsumerStep(s: State, a: Action, s': State) {
    match a
    case LoadHead => s.consumer == Rest && s' == s.(consumer := GotHead(s.head))
    case TestEmpty =>
      && s.consumer.GotHead?
      && s' == s.(consumer := if s.consumer.head == s.tail then Rest else Reading(s.consumer.head, []))
    case ReadByte(stray) =>
      && s.consumer.Reading? && |s.consumer.out| < s.width
      && var c := s.consumer;
         var at := s.Offset(c.head) + |c.out|;
         s' == s.(consumer := c.(out := c.out + [if at < |s.data| then s.data[at] else stray]))
    case PublishHead =>
      && s.consumer.Reading? && |s.consumer.out| == s.width && s.consumer.head < WORD64
      && s' == s.(head := WrapAdd(s.consumer.head, 1, WORD64), consumer := Rest, popped := s.popped + [s.consumer.out])
    case _ => false
  }

  predicate Step(s: State, a: Action, s': State) {
    ProducerStep(s, a, s') || ConsumerStep(s, a, s')
  }

  // A ring that nobody has used yet; its memory may have any size.
  ghost predicate Init(s: State) {
    && CapacityOk(s.capacity) && s.head == s.tail == 0 && s.producer == Free && s.consumer == Rest
    && s.pushed == s.popped == []
  }

  ghost predicate IsRun(states: seq<State>, actions: seq<Action>) {
    && |states| == |actions| + 1
    && Init(states[0])
    && forall i :: 0 <= i < |actions| ==> Step(states[i], actions[i], states[i + 1])
  }

  // ----- the indices, for every ring that can be created -----

  ghost predicate CapacityOk(capacity: nat) {
    capacity == 0 || exists k: nat :: k <= 63 && capacity == Pow2(k)
  }

  ghost predicate ProducerOk(s: State) {
    match s.producer
    case Free => true
    case Started(x) => |x| == s.width
    case GotTail(x, tail) => |x| == s.width && tail == s.tail
    case Writing(x, tail, n) => |x| == s.width && tail == s.tail && n <= s.width && |s.pushed| < |s.popped| + s.capacity
  }

  ghost predicate ConsumerOk(s: State) {
    match s.consumer
    case Rest => true
    case GotHead(head) => head == s.head
    case Reading(head, out) => head == s.head && |s.popped| < |s.pushed| && |out| <= s.width
  }

  ghost predicate IndexInv(s: State) {
    && CapacityOk(s.capacity) && ProducerOk(s) && ConsumerOk(s)
    && |s.popped| <= |s.pushed| <= |s.popped| + s.capacity
    && s.head == Wrap(|s.popped|, WORD64) && s.tail == Wrap(|s.pushed|, WORD64)
  }

  // Creation gives a ring that nobody has used, and what next_power_of_2 gives is a capacity that the masks work for.
  lemma CreatedCapacity(width: nat, request: nat, memory: Option<seq<Byte>>)
    requires Given(width, request, memory)
    ensures Init(Create(width, request, memory)) && CapacityOk(Create(width, request, memory).capacity)
    ensures Create(width, request, memory).hasData <==> memory.Some?
  {
    NextPowerOf2Exact(request);
  }

  lemma CapacityFits(capacity: nat)
    requires CapacityOk(capacity)
    ensures capacity < WORD64
  {
    if capacity > 0 {
      var k: nat :| k <= 63 && capacity == Pow2(k);
      WordSizes();
      Pow2Grows(k, 63);
    }
  }

  // A wrapped index selects the slot of the counter it stands for.
  lemma SlotOf(s: State, i: nat)
    requires CapacityOk(s.capacity) && s.capacity > 0
    ensures s.Slot(Wrap(i, WORD64)) == Wrap(i, s.capacity)
  {
    WordSizes();
    var k: nat :| k <= 63 && s.capacity == Pow2(k);
    MaskedWord(i, k, 64);
  }

  // The producer's test sees exactly whether the ring is full at that moment, wrapped or not.
  lemma FullTestExact(s: State)
    requires IndexInv(s)
    ensures s.head < WORD64 && s.tail < WORD64
    ensures WrapSub(s.tail, s.head, WORD64) == |s.pushed| - |s.popped|
  {
    CapacityFits(s.capacity);
    WrapDiffExact(|s.pushed|, |s.popped|, WORD64);
  }

  lemma IndexInit(s: State)
    requires Init(s)
    ensures IndexInv(s)
  {
  }

  lemma IndexStep(s: State, a: Action, s': State)
    requires IndexInv(s) && Step(s, a, s')
    ensures IndexInv(s')
  {
    FullTestExact(s);
    if a.PublishTail? { WrapAddExact(|s.pushed|, 1, WORD64); }
    if a.PublishHead? { WrapAddExact(|s.popped|, 1, WORD64); }
  }

  lemma {:induction false} IndexOnRun(states: seq<State>, actions: seq<Action>, i: nat)
    requires IsRun(states, actions) && i < |states|
    ensures IndexInv(states[i])
  {
    if i == 0 {
      IndexInit(states[0]);
    } else {
      IndexOnRun(states, actions, i - 1);
      IndexStep(states[i - 1], actions[i - 1], states[i]);
    }
  }

  // A push reports full, and a pop empty, exactly when the ring is so at the moment of the test.
  lemma TestsExact(states: seq<State>, actions: seq<Action>, i: nat)
    requires IsRun(states, actions) && i < |actions|
    ensures var s, s' := states[i], states[i + 1];
      && (actions[i].TestFull? ==> (s'.producer == Free <==> |s.pushed| - |s.popped| == s.capacity))
      && (actions[i].TestEmpty? ==> (s'.consumer == Rest <==> |s.pushed| == |s.popped|))
  {
    IndexOnRun(states, actions, i);
    var s := states[i];
    FullTestExact(s);
    if actions[i].TestEmpty? && s.head == s.tail {
      assert WrapSub(s.tail, s.head, WORD64) == 0;
    }
  }

  // ----- the contents, for rings whose size in bytes does not wrap -----

  // The condition is about the arguments of creation only.
  predicate SizeFits(width: nat, request: nat)
    requires width < WORD64 && request < WORD64
  {
    NextPowerOf2(request) * width < WORD64
  }

  ghost predicate Roomy(s: State) {
    |s.data| == s.capacity * s.width < WORD64
  }

  // The bytes of slot j.
  function SlotBytes(data: seq<Byte>, width: nat, j: nat): Element {
    if j * width + width <= |data| then data[j * width..j * width + width] else []
  }

  lemma SlotInside(capacity: nat, width: nat, j: nat)
    requires j < capacity
    ensures j * width + width <= capacity * width
  {
    MulStep(width, j, capacity);
  }

  lemma SlotBytesAt(data: seq<Byte>, width: nat, j: nat, k: nat)
    requires j * width + width <= |data| && k < width
    ensures |SlotBytes(data, width, j)| == width && SlotBytes(data, width, j)[k] == data[j * width + k]
  {
  }

  // Writing a byte of one slot changes that byte there and no other slot.
  lemma SlotWrite(data: seq<Byte>, width: nat, i: nat, n: nat, x: Byte, j: nat)
    requires i * width + width <= |data| && j * width + width <= |data| && n < width
    ensures var data' := data[i * width + n := x];
      SlotBytes(data', width, j) == if j == i then SlotBytes(data, width, i)[n := x] else SlotBytes(data, width, j)
  {
    var a, b := SlotStarts(width, i, j);
    SliceWrite(data, a, b, width, n, x);
  }

  // Where slots i and j begin.
  lemma SlotStarts(width: nat, i: nat, j: nat) returns (a: nat, b: nat)
    ensures a == i * width && b == j * width && (i == j ==> a == b)
    ensures i != j ==> a + width <= b || b + width <= a
  {
    a, b := i * width, j * width;
    if j < i { MulStep(width, j, i); } else if i < j { MulStep(width, i, j); }
  }

  // Writing at place n of the piece at a changes that piece there, and no piece apart from it.
  lemma SliceWrite(data: seq<Byte>, a: nat, b: nat, width: nat, n: nat, x: Byte)
    requires a + width <= |data| && b + width <= |data| && n < width && (a == b || a + width <= b || b + width <= a)
    ensures data[a + n := x][b..b + width] == if a == b then data[a..a + width][n := x] else data[b..b + width]
  {
  }

  ghost predicate Unread(s: State, i: nat) {
    s.capacity > 0 && i < |s.pushed| && SlotBytes(s.data, s.width, Wrap(i, s.capacity)) == s.pushed[i]
  }

  ghost predicate WrittenSoFar(s: State) {
    s.producer.Writing? ==>
      && s.capacity > 0 && s.producer.n <= s.width == |s.producer.x|
      && var bytes := SlotBytes(s.data, s.width, Wrap(|s.pushed|, s.capacity));
         s.producer.n <= |bytes| && bytes[..s.producer.n] == s.producer.x[..s.producer.n]
  }

  ghost predicate DataInv(s: State) {
    && Roomy(s) && s.popped <= s.pushed
    && (forall i :: 0 <= i < |s.pushed| ==> |s.pushed[i]| == s.width)
    && (forall i: nat :: |s.popped| <= i < |s.pushed| ==> Unread(s, i))
    && WrittenSoFar(s)
    && (s.consumer.Reading? ==> |s.popped| < |s.pushed| && s.consumer.out <= s.pushed[|s.popped|])
  }

  // Where the copies go: the slot of the counter, inside the buffer.
  lemma CopyAddress(s: State, i: nat)
    requires IndexInv(s) && Roomy(s) && s.capacity > 0
    ensures Wrap(i, s.capacity) * s.width + s.width <= |s.data|
    ensures s.Offset(Wrap(i, WORD64)) == Wrap(i, s.capacity) * s.width || s.width == 0
  {
    SlotOf(s, i);
    SlotInside(s.capacity, s.width, Wrap(i, s.capacity));
  }

  // The slot being written is none of the unread ones.
  lemma WriteSlotUnused(s: State, i: nat)
    requires 0 < s.capacity && |s.popped| <= i < |s.pushed| < |s.popped| + s.capacity
    ensures Wrap(|s.pushed|, s.capacity) != Wrap(i, s.capacity)
  {
    if Wrap(|s.pushed|, s.capacity) == Wrap(i, s.capacity) { WrapDistinct(i, |s.pushed|, s.capacity); }
  }

  lemma WriteKeepsUnread(s: State, s': State, i: nat)
    requires IndexInv(s) && DataInv(s) && s.producer.Writing? && s.producer.n < s.width && Step(s, WriteByte, s')
    requires |s.popped| <= i < |s.pushed|
    ensures Unread(s', i)
  {
    var p, cap := s.producer, s.capacity;
    assert Unread(s, i);
    CopyAddress(s, |s.pushed|);
    CopyAddress(s, i);
    WriteSlotUnused(s, i);
    SlotWrite(s.data, s.width, Wrap(|s.pushed|, cap), p.n, p.x[p.n], Wrap(i, cap));
  }

  lemma WriteGoesOn(s: State, s': State)
    requires IndexInv(s) && DataInv(s) && s.producer.Writing? && s.producer.n < s.width && Step(s, WriteByte, s')
    ensures WrittenSoFar(s') && |s'.data| == |s.data|
  {
    var p, at := s.producer, Wrap(|s.pushed|, s.capacity);
    CopyAddress(s, |s.pushed|);
    SlotWrite(s.data, s.width, at, p.n, p.x[p.n], at);
    MoreWritten(SlotBytes(s.data, s.width, at), p.x, p.n);
  }

  lemma MoreWritten(bytes: Element, x: Element, n: nat)
    requires n < |x| == |bytes| && bytes[..n] == x[..n]
    ensures bytes[n := x[n]][..n + 1] == x[..n + 1]
  {
  }

  lemma WriteByteStep(s: State, a: Action, s': State)
    requires IndexInv(s) && DataInv(s) && a.WriteByte? && Step(s, a, s')
    ensures DataInv(s')
  {
    WriteGoesOn(s, s');
    forall i: nat | |s'.popped| <= i < |s'.pushed| ensures Unread(s', i) {
      WriteKeepsUnread(s, s', i);
    }
  }

  lemma PublishTailStep(s: State, a: Action, s': State)
    requires IndexInv(s) && DataInv(s) && a.PublishTail? && Step(s, a, s')
    ensures DataInv(s')
  {
    var x, bytes := s.producer.x, SlotBytes(s.data, s.width, Wrap(|s.pushed|, s.capacity));
    CopyAddress(s, |s.pushed|);
    assert bytes == bytes[..s.width] && x == x[..s.width];
    forall i: nat | |s'.popped| <= i < |s'.pushed| ensures Unread(s', i) {
      assert i < |s.pushed| ==> Unread(s, i);
    }
  }

  lemma ReadByteStep(s: State, a: Action, s': State)
    requires IndexInv(s) && DataInv(s) && a.ReadByte? && Step(s, a, s')
    ensures DataInv(s')
  {
    var i := |s.popped|;
    assert Unread(s, i);
    CopyAddress(s, i);
    SlotBytesAt(s.data, s.width, Wrap(i, s.capacity), |s.consumer.out|);
    KeepUnread(s, s');
  }

  // A step that leaves the buffer and what was pushed as they are.
  lemma KeepUnread(s: State, s': State)
    requires DataInv(s) && s'.data == s.data && s'.capacity == s.capacity && s'.width == s.width
    requires s'.pushed == s.pushed && |s.popped| <= |s'.popped|
    ensures forall i: nat :: |s'.popped| <= i < |s'.pushed| ==> Unread(s', i)
  {
    forall i: nat | |s'.popped| <= i < |s'.pushed| ensures Unread(s', i) { assert Unread(s, i); }
  }

  lemma PublishHeadStep(s: State, a: Action, s': State)
    requires IndexInv(s) && DataInv(s) && a.PublishHead? && Step(s, a, s')
    ensures DataInv(s')
  {
    assert s.consumer.out == s.pushed[|s.popped|];
    KeepUnread(s, s');
  }

  lemma DataStep(s: State, a: Action, s': State)
    requires IndexInv(s) && DataInv(s) && Step(s, a, s')
    ensures DataInv(s')
  {
    match a
    case WriteByte => WriteByteStep(s, a, s');
    case PublishTail => PublishTailStep(s, a, s');
    case ReadByte(_) => ReadByteStep(s, a, s');
    case PublishHead => PublishHeadStep(s, a, s');
    case TestFull => StartWriting(s, a, s');
    case _ => KeepUnread(s, s');
  }

  lemma StartWriting(s: State, a: Action, s': State)
    requires IndexInv(s) && DataInv(s) && a.TestFull? && Step(s, a, s')
    ensures DataInv(s')
  {
    FullTestExact(s);
    KeepUnread(s, s');
  }

  lemma {:induction false} DataOnRun(states: seq<State>, actions: seq<Action>, i: nat)
    requires IsRun(states, actions) && Roomy(states[0]) && i < |states|
    ensures DataInv(states[i])
  {
    if i > 0 {
      DataOnRun(states, actions, i - 1);
      IndexOnRun(states, actions, i - 1);
      DataStep(states[i - 1], actions[i - 1], states[i]);
    }
  }

  // ----- the calls -----

  // The argument of the last push that was called in the first n steps.
  function LastArgument(actions: seq<Action>, n: nat): Element
    requires n <= |actions|
  {
    if n == 0 then [] else if actions[n - 1].StartPush? then actions[n - 1].x else LastArgument(actions, n - 1)
  }

  // The arguments of the pushes whose tail was published in the first n steps, in order.
  function Accepted(actions: seq<Action>, n: nat): seq<Element>
    requires n <= |actions|
  {
    if n == 0 then []
    else if actions[n - 1].PublishTail? then Accepted(actions, n - 1) + [LastArgument(actions, n - 1)]
    else Accepted(actions, n - 1)
  }

  // A push under way is of the argument it was called with.
  predicate Carries(s: State, x: Element) { s.producer != Free ==> s.producer.x == x }

  lemma CarriesStep(s: State, a: Action, s': State, x: Element)
    requires Step(s, a, s') && Carries(s, x)
    ensures Carries(s', if a.StartPush? then a.x else x)
    ensures s'.pushed == if a.PublishTail? then s.pushed + [x] else s.pushed
  {
  }

  lemma NothingCarried(s: State)
    requires Init(s)
    ensures s.pushed == [] && Carries(s, [])
  {
  }

  // What the ring records as pushed are the arguments of the calls.
  lemma {:induction false} PushedIsAccepted(states: seq<State>, actions: seq<Action>, i: nat)
    requires IsRun(states, actions) && i < |states|
    ensures states[i].pushed == Accepted(actions, i) && Carries(states[i], LastArgument(actions, i))
  {
    hide Step, Init, Carries;
    if i == 0 {
      NothingCarried(states[0]);
    } else {
      PushedIsAccepted(states, actions, i - 1);
      CarriesStep(states[i - 1], actions[i - 1], states[i], LastArgument(actions, i - 1));
    }
  }

  // How a push that is under way goes on: it is refused by the test, or published by its last step.
  lemma PushStep(s: State, a: Action, s': State)
    requires Step(s, a, s') && s.producer != Free
    ensures s'.producer == Free ==> a.PublishTail? || a.TestFull?
  {
  }

  // Some step from i to j publishes the tail, or the test for full succeeds there.
  ghost predicate Published(actions: seq<Action>, i: nat, j: nat) {
    exists k :: i <= k < j && k < |actions| && actions[k].PublishTail?
  }

  ghost predicate Refused(states: seq<State>, actions: seq<Action>, i: nat, j: nat) {
    exists k :: i <= k < j && k < |actions| && k < |states| && actions[k].TestFull?
      && |states[k].pushed| - |states[k].popped| == states[k].capacity
  }

  lemma {:induction false} PushGoesOn(states: seq<State>, actions: seq<Action>, i: nat, j: nat)
    requires IsRun(states, actions) && i <= j < |states| && states[i].producer != Free
    requires forall k :: i <= k < j ==> !actions[k].StartPush?
    ensures states[j].producer != Free || Published(actions, i, j) || Refused(states, actions, i, j)
  {
    if i < j {
      PushGoesOn(states, actions, i, j - 1);
      if states[j - 1].producer != Free {
        PushStep(states[j - 1], actions[j - 1], states[j]);
        TestsExact(states, actions, j - 1);
      }
    }
  }

  // A push that was called on a ring with memory and has returned was published, or the ring was full when it looked.
  lemma PushEnds(states: seq<State>, actions: seq<Action>, i: nat, j: nat)
    requires IsRun(states, actions) && i < j < |states| && actions[i].StartPush? && states[i].hasData
    requires states[j].producer == Free && forall k :: i < k < j ==> !actions[k].StartPush?
    ensures Published(actions, i, j) || Refused(states, actions, i, j)
  {
    assert Step(states[i], actions[i], states[i + 1]);
    PushGoesOn(states, actions, i + 1, j);
  }

  // What has been popped is a prefix of the arguments that were pushed, byte for byte, and never more than the
  // capacity is under way.
  lemma FirstInFirstOut(states: seq<State>, actions: seq<Action>, i: nat)
    requires IsRun(states, actions) && Roomy(states[0]) && i < |states|
    ensures states[i].popped <= Accepted(actions, i)
    ensures |Accepted(actions, i)| - |states[i].popped| <= states[i].capacity
  {
    DataOnRun(states, actions, i);
    IndexOnRun(states, actions, i);
    PushedIsAccepted(states, actions, i);
  }

  lemma PopTakesOne(s: State, a: Action, s': State)
    requires Step(s, a, s') && a.PublishHead?
    ensures s.popped <= s'.popped && |s'.popped| == |s.popped| + 1
  {
  }

  // A pop that gives something gives the oldest argument that no pop has given before.
  lemma PopGivesOldest(states: seq<State>, actions: seq<Action>, i: nat)
    requires IsRun(states, actions) && Roomy(states[0]) && i < |actions| && actions[i].PublishHead?
    ensures |states[i].popped| < |Accepted(actions, i)|
    ensures states[i + 1].popped == states[i].popped + [Accepted(actions, i)[|states[i].popped|]]
  {
    hide Step, Init, Roomy;
    PopTakesOne(states[i], actions[i], states[i + 1]);
    FirstInFirstOut(states, actions, i + 1);
    assert Accepted(actions, i + 1) == Accepted(actions, i);
  }

  // ----- nobody waits for the other -----

  ghost predicate Can(s: State, a: Action) { exists s' :: Step(s, a, s') }

  // The next step of the producer, which between calls can push any element.
  predicate NextOfProducer(s: State, a: Action) {
    match s.producer
    case Free => a.StartPush? && |a.x| == s.width
    case Started(_) => a == LoadTail
    case GotTail(_, _) => a == TestFull
    case Writing(_, _, n) => a == if n < s.width then WriteByte else PublishTail
  }

  predicate NextOfConsumer(s: State, a: Action) {
    match s.consumer
    case Rest => a == LoadHead
    case GotHead(_) => a == TestEmpty
    case Reading(_, out) => if |out| < s.width then a.ReadByte? else a == PublishHead
  }

  lemma ProducerCan(s: State, a: Action)
    requires IndexInv(s) && NextOfProducer(s, a)
    ensures Can(s, a)
  {
    FullTestExact(s);
    var p := s.producer;
    var s' := match p
      case Free => if s.hasData then s.(producer := Started(a.x)) else s
      case Started(x) => s.(producer := GotTail(x, s.tail))
      case GotTail(x, tail) =>
        s.(producer := if WrapSub(tail, s.head, WORD64) == s.capacity then Free else Writing(x, tail, 0))
      case Writing(x, tail, n) =>
        if n < s.width then
          var at := s.Offset(tail) + n;
          s.(data := if at < |s.data| then s.data[at := x[n]] else s.data, producer := p.(n := n + 1))
        else s.(tail := WrapAdd(tail, 1, WORD64), producer := Free, pushed := s.pushed + [x]);
    assert Step(s, a, s');
  }

  lemma ConsumerCan(s: State, a: Action)
    requires IndexInv(s) && NextOfConsumer(s, a)
    ensures Can(s, a)
  {
    FullTestExact(s);
    var c := s.consumer;
    var s' := match c
      case Rest => s.(consumer := GotHead(s.head))
      case GotHead(head) => s.(consumer := if head == s.tail then Rest else Reading(head, []))
      case Reading(head, out) =>
        if |out| < s.width then
          var at := s.Offset(head) + |out|;
          s.(consumer := c.(out := out + [if at < |s.data| then s.data[at] else a.stray]))
        else s.(head := WrapAdd(head, 1, WORD64), consumer := Rest, popped := s.popped + [out]);
    assert Step(s, a, s');
  }

  // In every run producer and consumer can take their next step, whatever the other one is doing.
  lemma NobodyWaits(states: seq<State>, actions: seq<Action>, i: nat, a: Action)
    requires IsRun(states, actions) && i < |states|
    ensures NextOfProducer(states[i], a) || NextOfConsumer(states[i], a) ==> Can(states[i], a)
  {
    hide Step, IndexInv, Can;
    IndexOnRun(states, actions, i);
    if NextOfProducer(states[i], a) { ProducerCan(states[i], a); }
    if NextOfConsumer(states[i], a) { ConsumerCan(states[i], a); }
  }

  predicate IsProducers(a: Action) {
    a.StartPush? || a.LoadTail? || a.TestFull? || a.WriteByte? || a.PublishTail?
  }

  // How many steps of its own a push, and a pop, has to go at most.
  function PushLeft(s: State): int {
    match s.producer
    case Free => 0
    case Started(_) => s.width + 3
    case GotTail(_, _) => s.width + 2
    case Writing(_, _, n) => s.width - n + 1
  }

  function PopLeft(s: State): int {
    match s.consumer
    case Rest => 0
    case GotHead(_) => s.width + 2
    case Reading(_, out) => s.width - |out| + 1
  }

  lemma LeftStep(s: State, a: Action, s': State)
    requires Step(s, a, s')
    ensures s'.width == s.width
    ensures s.producer != Free && s'.producer != Free ==> PushLeft(s') == PushLeft(s) - if IsProducers(a) then 1 else 0
    ensures s.consumer != Rest && s'.consumer != Rest ==> PopLeft(s') == PopLeft(s) - if IsProducers(a) then 0 else 1
  {
  }

  // The producer's steps, or the consumer's, from i to j.
  function OwnSteps(actions: seq<Action>, i: nat, j: nat, producers: bool): nat
    requires j <= |actions|
  {
    if j <= i then 0
    else OwnSteps(actions, i, j - 1, producers) + if IsProducers(actions[j - 1]) == producers then 1 else 0
  }

  lemma {:induction false} PushSteps(states: seq<State>, actions: seq<Action>, i: nat, j: nat)
    requires IsRun(states, actions) && i <= j < |states| && forall k :: i <= k <= j ==> states[k].producer != Free
    ensures OwnSteps(actions, i, j, true) + PushLeft(states[j]) == PushLeft(states[i])
  {
    hide Step, PushLeft;
    if i < j {
      PushSteps(states, actions, i, j - 1);
      LeftStep(states[j - 1], actions[j - 1], states[j]);
    }
  }

  lemma {:induction false} PopSteps(states: seq<State>, actions: seq<Action>, i: nat, j: nat)
    requires IsRun(states, actions) && i <= j < |states| && forall k :: i <= k <= j ==> states[k].consumer != Rest
    ensures OwnSteps(actions, i, j, false) + PopLeft(states[j]) == PopLeft(states[i])
  {
    hide Step, PopLeft;
    if i < j {
      PopSteps(states, actions, i, j - 1);
      LeftStep(states[j - 1], actions[j - 1], states[j]);
    }
  }

  // In every run a push that is not over has made no more than width + 3 steps, and a pop no more than width + 2,
  // however many the other one has made meanwhile: both are wait-free.
  lemma WaitFree(states: seq<State>, actions: seq<Action>, i: nat, j: nat)
    requires IsRun(states, actions) && i <= j < |states|
    ensures (forall k :: i <= k <= j ==> states[k].producer != Free) ==>
      OwnSteps(actions, i, j, true) < states[i].width + 3
    ensures (forall k :: i <= k <= j ==> states[k].consumer != Rest) ==>
      OwnSteps(actions, i, j, false) < states[i].width + 2
  {
    IndexOnRun(states, actions, i);
    IndexOnRun(states, actions, j);
    WidthKept(states, actions, i, j);
    if forall k :: i <= k <= j ==> states[k].producer != Free { PushSteps(states, actions, i, j); }
    if forall k :: i <= k <= j ==> states[k].consumer != Rest { PopSteps(states, actions, i, j); }
  }

  lemma {:induction false} WidthKept(states: seq<State>, actions: seq<Action>, i: nat, j: nat)
    requires IsRun(states, actions) && i <= j < |states|
    ensures states[j].width == states[i].width
  {
    hide Step;
    if i < j {
      WidthKept(states, actions, i, j - 1);
      LeftStep(states[j - 1], actions[j - 1], states[j]);
    }
  }

  lemma PopStep(s: State, a: Action, s': State)
    requires Step(s, a, s') && s.consumer != Rest
    ensures s'.consumer == Rest ==> a.PublishHead? || a.TestEmpty?
  {
  }

  ghost predicate FoundEmpty(states: seq<State>, actions: seq<Action>, i: nat, j: nat) {
    exists k :: i <= k < j && k < |actions| && k < |states| && actions[k].TestEmpty?
      && |states[k].pushed| == |states[k].popped|
  }

  ghost predicate Gave(actions: seq<Action>, i: nat, j: nat) {
    exists k :: i <= k < j && k < |actions| && actions[k].PublishHead?
  }

  lemma {:induction false} PopGoesOn(states: seq<State>, actions: seq<Action>, i: nat, j: nat)
    requires IsRun(states, actions) && i <= j < |states| && states[i].consumer != Rest
    requires forall k :: i <= k < j ==> !actions[k].LoadHead?
    ensures states[j].consumer != Rest || Gave(actions, i, j) || FoundEmpty(states, actions, i, j)
  {
    if i < j {
      PopGoesOn(states, actions, i, j - 1);
      if states[j - 1].consumer != Rest {
        PopStep(states[j - 1], actions[j - 1], states[j]);
        TestsExact(states, actions, j - 1);
      }
    }
  }

  // A pop that has returned gave an element, or the ring was empty when it looked.
  lemma PopEnds(states: seq<State>, actions: seq<Action>, i: nat, j: nat)
    requires IsRun(states, actions) && i < j < |states| && actions[i].LoadHead?
    requires states[j].consumer == Rest && forall k :: i < k < j ==> !actions[k].LoadHead?
    ensures Gave(actions, i, j) || FoundEmpty(states, actions, i, j)
  {
    assert Step(states[i], actions[i], states[i + 1]);
    PopGoesOn(states, actions, i + 1, j);
  }

  lemma SlotsApart(width: nat, u: nat, w: nat, k: nat, n: nat)
    requires u != w && k < width && n < width
    ensures u * width + k != w * width + n
  {
    if u < w { MulStep(width, u, w); } else { MulStep(width, w, u); }
  }

  // The products of slot number and element size do not wrap.
  predicate OffsetsExact(s: State) { s.capacity > 0 ==> (s.capacity - 1) * s.width < WORD64 }

  lemma SlotOffset(s: State, i: nat)
    requires CapacityOk(s.capacity) && s.capacity > 0 && OffsetsExact(s)
    ensures s.Offset(Wrap(i, WORD64)) == Wrap(i, s.capacity) * s.width
  {
    SlotOf(s, i);
    OffsetFits(s.capacity, s.width, Wrap(i, s.capacity));
  }

  lemma OffsetFits(capacity: nat, width: nat, j: nat)
    requires j < capacity && (capacity - 1) * width < WORD64
    ensures j * width < WORD64
  {
    MulMono(width, j, capacity - 1);
    assert j * width == width * j && (capacity - 1) * width == width * (capacity - 1);
  }

  lemma {:induction false} SameShape(states: seq<State>, actions: seq<Action>, i: nat)
    requires IsRun(states, actions) && i < |states|
    ensures states[i].capacity == states[0].capacity && states[i].width == states[0].width
  {
    if i > 0 {
      SameShape(states, actions, i - 1);
      assert Step(states[i - 1], actions[i - 1], states[i]);
    }
  }

  // The byte that is about to be written is byte k of unread element number `unread`.
  predicate Overwrites(s: State, unread: nat, k: nat) {
    && s.producer.Writing? && |s.popped| <= unread < |s.pushed| && k < s.width
    && s.Offset(Wrap(unread, WORD64)) + k == s.Offset(s.producer.tail) + s.producer.n
  }

  // No byte is written over a byte of an unread element, so none of one that is being read.
  lemma NeverOverwritesUnread(states: seq<State>, actions: seq<Action>, i: nat, unread: nat, k: nat)
    requires IsRun(states, actions) && OffsetsExact(states[0]) && i < |actions| && actions[i].WriteByte?
    ensures !Overwrites(states[i], unread, k)
  {
    IndexOnRun(states, actions, i);
    SameShape(states, actions, i);
    var s := states[i];
    assert Step(s, actions[i], states[i + 1]);
    if |s.popped| <= unread < |s.pushed| && k < s.width {
      WriteElsewhere(s, unread, k);
    }
  }

  lemma WriteElsewhere(s: State, unread: nat, k: nat)
    requires IndexInv(s) && OffsetsExact(s) && s.producer.Writing? && s.producer.n < s.width
    requires |s.popped| <= unread < |s.pushed| && k < s.width
    ensures !Overwrites(s, unread, k)
  {
    SlotOffset(s, unread);
    SlotOffset(s, |s.pushed|);
    WriteSlotUnused(s, unread);
    SlotsApart(s.width, Wrap(unread, s.capacity), Wrap(|s.pushed|, s.capacity), k, s.producer.n);
  }

  // ----- every copied byte lies in the buffer, if and only if the size in bytes did not wrap -----

  // The next byte that a copy step touches lies in the buffer.
  predicate Inside(s: State, a: Action) {
    && (a.WriteByte? && s.producer.Writing? ==> s.Offset(s.producer.tail) + s.producer.n < |s.data|)
    && (a.ReadByte? && s.consumer.Reading? ==> s.Offset(s.consumer.head) + |s.consumer.out| < |s.data|)
  }

  ghost predicate StaysInside(states: seq<State>, actions: seq<Action>) {
    |states| > |actions| && forall i :: 0 <= i < |actions| ==> Inside(states[i], actions[i])
  }

  lemma CopyInside(s: State, a: Action, s': State)
    requires IndexInv(s) && DataInv(s) && Step(s, a, s')
    ensures Inside(s, a)
  {
    if a.WriteByte? { CopyAddress(s, |s.pushed|); }
    if a.ReadByte? { CopyAddress(s, |s.popped|); }
  }

  lemma RoomyStaysInside(states: seq<State>, actions: seq<Action>)
    requires IsRun(states, actions) && Roomy(states[0])
    ensures StaysInside(states, actions)
  {
    forall i | 0 <= i < |actions| ensures Inside(states[i], actions[i]) {
      IndexOnRun(states, actions, i);
      DataOnRun(states, actions, i);
      CopyInside(states[i], actions[i], states[i + 1]);
    }
  }

  // Some run leads from one state to another.
  ghost predicate Leads(first: State, s: State) {
    exists states: seq<State>, actions: seq<Action> ::
      IsRun(states, actions) && states[0] == first && states[|actions|] == s
  }

  lemma LeadsNowhere(first: State)
    requires Init(first)
    ensures Leads(first, first)
  {
    assert IsRun([first], []);
  }

  lemma LeadsOn(first: State, s: State, a: Action, s': State) returns (states: seq<State>, actions: seq<Action>)
    requires Leads(first, s) && Step(s, a, s')
    ensures IsRun(states, actions) && states[0] == first && actions != []
    ensures states[|actions| - 1] == s && actions[|actions| - 1] == a && states[|actions|] == s'
    ensures Leads(first, s')
  {
    states, actions :| IsRun(states, actions) && states[0] == first && states[|actions|] == s;
    states, actions := states + [s'], actions + [a];
  }

  function Zeros(width: nat): Element { seq(width, _ => 0) }

  // Runs in which j elements of zeros are pushed, before m are popped.
  ghost predicate Alone(first: State, s: State, j: nat, m: nat) {
    && Leads(first, s) && |s.pushed| == j && |s.popped| == m
    && (forall i :: 0 <= i < j ==> s.pushed[i] == Zeros(s.width))
    && s.hasData == first.hasData && s.capacity == first.capacity && s.width == first.width && |s.data| == |first.data|
  }

  lemma AloneIndices(first: State, s: State, j: nat, m: nat)
    requires Alone(first, s, j, m)
    ensures IndexInv(s)
  {
    var states, actions :| IsRun(states, actions) && states[0] == first && states[|actions|] == s;
    IndexOnRun(states, actions, |actions|);
  }

  lemma StartAlone(first: State, s: State, j: nat) returns (s': State)
    requires Alone(first, s, j, 0) && s.producer == Free && s.consumer == Rest && s.hasData && j < s.capacity
    ensures Alone(first, s', j, 0) && s'.producer.Writing? && s'.producer.x == Zeros(s'.width)
    ensures s'.producer.n == 0 && s'.consumer == Rest
  {
    var x := Zeros(s.width);
    var s1 := s.(producer := Started(x));
    var _, _ := LeadsOn(first, s, StartPush(x), s1);
    var s2 := s1.(producer := GotTail(x, s.tail));
    var _, _ := LeadsOn(first, s1, LoadTail, s2);
    AloneIndices(first, s, j, 0);
    FullTestExact(s);
    s' := s2.(producer := Writing(x, s.tail, 0));
    var _, _ := LeadsOn(first, s2, TestFull, s');
  }

  lemma {:induction false} WriteAlone(first: State, s: State, j: nat, m: nat) returns (s': State)
    requires Alone(first, s, j, 0) && s.producer.Writing? && s.producer.x == Zeros(s.width)
    requires s.producer.n <= m <= s.width
    ensures Alone(first, s', j, 0) && s'.producer.Writing? && s'.producer.x == Zeros(s'.width)
    ensures s'.producer.n == m && s'.consumer == s.consumer
    decreases m - s.producer.n
  {
    s' := s;
    if s.producer.n < m {
      AloneIndices(first, s, j, 0);
      var p := s.producer;
      var at := s.Offset(p.tail) + p.n;
      var s1 := s.(data := if at < |s.data| then s.data[at := p.x[p.n]] else s.data, producer := p.(n := p.n + 1));
      var _, _ := LeadsOn(first, s, WriteByte, s1);
      s' := WriteAlone(first, s1, j, m);
    }
  }

  lemma {:induction false} PushAlone(first: State, j: nat) returns (s: State)
    requires Init(first) && first.hasData && j <= first.capacity
    ensures Alone(first, s, j, 0) && s.producer == Free && s.consumer == Rest
  {
    if j == 0 {
      LeadsNowhere(first);
      s := first;
    } else {
      s := PushAlone(first, j - 1);
      s := StartAlone(first, s, j - 1);
      s := WriteAlone(first, s, j - 1, s.width);
      AloneIndices(first, s, j - 1, 0);
      var s' := s.(tail := WrapAdd(s.tail, 1, WORD64), producer := Free, pushed := s.pushed + [s.producer.x]);
      var _, _ := LeadsOn(first, s, PublishTail, s');
      s := s';
    }
  }

  // Where the first copies go, before the product wraps.
  lemma OffsetOf(s: State, j: nat)
    requires CapacityOk(s.capacity) && j < s.capacity && j * s.width < WORD64
    ensures s.Offset(Wrap(j, WORD64)) == j * s.width
  {
    SlotOf(s, j);
  }

  // Byte number |data| belongs to a slot of the ring, and a producer that is left alone gets to it.
  lemma WrappedLeavesBuffer(first: State) returns (states: seq<State>, actions: seq<Action>)
    requires Init(first) && first.hasData && |first.data| < first.capacity * first.width && |first.data| < WORD64
    ensures IsRun(states, actions) && states[0] == first && !StaysInside(states, actions)
  {
    var w, size := first.width, |first.data|;
    var j, n := FirstOutside(first.capacity, w, size);
    var s := PushAlone(first, j);
    s := StartAlone(first, s, j);
    s := WriteAlone(first, s, j, n);
    AloneIndices(first, s, j, 0);
    OffsetOf(s, j);
    var p := s.producer;
    assert s.Offset(p.tail) + p.n == size;
    var s' := s.(producer := p.(n := p.n + 1));
    states, actions := LeadsOn(first, s, WriteByte, s');
    assert !Inside(states[|actions| - 1], actions[|actions| - 1]);
  }

  lemma FirstOutside(capacity: nat, width: nat, size: nat) returns (j: nat, n: nat)
    requires size < capacity * width
    ensures j < capacity && n < width && j * width + n == size
  {
    j, n := size / width, size % width;
    assert size == width * j + n;
    if capacity <= j { MulMono(width, capacity, j); }
  }

  lemma MulMono(m: nat, a: nat, b: nat)
    requires a <= b
    ensures m * a <= m * b
  {
    if a < b { MulStep(m, a, b); }
  }

  ghost predicate AlwaysInside(first: State) {
    forall states, actions :: IsRun(states, actions) && states[0] == first ==> StaysInside(states, actions)
  }

  // Over all runs of a ring that was created: every copied byte lies in the memory that creation got, if and
  // only if the product of the rounded capacity and the element size is below 2^64.
  lemma CopiesStayInside(width: nat, request: nat, data: seq<Byte>)
    requires Given(width, request, Some(data))
    ensures SizeFits(width, request) <==> AlwaysInside(Create(width, request, Some(data)))
  {
    var first := Create(width, request, Some(data));
    if SizeFits(width, request) {
      forall states, actions | IsRun(states, actions) && states[0] == first ensures StaysInside(states, actions) {
        RoomyStaysInside(states, actions);
      }
    } else {
      CreatedCapacity(width, request, Some(data));
      var states, actions := WrappedLeavesBuffer(first);
    }
  }

  ghost predicate NeverOverwrites(first: State) {
    forall states, actions: seq<Action>, i: nat, unread: nat, k: nat ::
      IsRun(states, actions) && states[0] == first && i < |actions| && actions[i].WriteByte? ==>
        !Overwrites(states[i], unread, k)
  }

  // The first slot whose offset wraps begins at a byte of slot 0.
  lemma FirstWrapped(capacity: nat, width: nat) returns (j: nat, k: nat)
    requires capacity > 0 && (capacity - 1) * width >= WORD64 > width
    ensures 0 < j < capacity && k < width && j * width == WORD64 + k
  {
    j, k := FirstOutside(capacity - 1, width, WORD64 - 1);
    j, k := j + 1, width - 1 - k;
    assert j * width == (j - 1) * width + width;
  }

  lemma WrappedOverwrites(first: State) returns (states: seq<State>, actions: seq<Action>, k: nat)
    requires Init(first) && first.hasData && !OffsetsExact(first) && first.width < WORD64
    ensures IsRun(states, actions) && states[0] == first && actions != [] && actions[|actions| - 1].WriteByte?
    ensures Overwrites(states[|actions| - 1], 0, k)
  {
    var j;
    j, k := FirstWrapped(first.capacity, first.width);
    var s := PushAlone(first, j);
    s := StartAlone(first, s, j);
    AloneIndices(first, s, j, 0);
    SlotOf(s, j);
    SlotOf(s, 0);
    assert Wrap(j * s.width, WORD64) == k;
    assert Overwrites(s, 0, k);
    var p := s.producer;
    var at := s.Offset(p.tail) + p.n;
    var s' := s.(data := if at < |s.data| then s.data[at := p.x[p.n]] else s.data, producer := p.(n := p.n + 1));
    states, actions := LeadsOn(first, s, WriteByte, s');
  }

  // A ring that was created never writes over an unread byte, in any run, if and only if no product of a slot
  // number and the element size reaches 2^64.
  lemma NeverOverwritesExactly(width: nat, request: nat, data: seq<Byte>)
    requires Given(width, request, Some(data))
    ensures NeverOverwrites(Create(width, request, Some(data))) <==> (NextPowerOf2(request) - 1) * width < WORD64
  {
    var first := Create(width, request, Some(data));
    if (NextPowerOf2(request) - 1) * width < WORD64 {
      forall states, actions: seq<Action>, i: nat, unread: nat, k: nat
        | IsRun(states, actions) && states[0] == first && i < |actions| && actions[i].WriteByte?
        ensures !Overwrites(states[i], unread, k)
      {
        NeverOverwritesUnread(states, actions, i, unread, k);
      }
    } else {
      CreatedCapacity(width, request, Some(data));
      var states, actions, k := WrappedOverwrites(first);
    }
  }

  lemma StartReading(first: State, s: State, j: nat, m: nat) returns (s': State)
    requires Alone(first, s, j, m) && s.consumer == Rest && m < j
    ensures Alone(first, s', j, m) && s'.consumer.Reading? && s'.consumer.out == []
  {
    var s1 := s.(consumer := GotHead(s.head));
    var _, _ := LeadsOn(first, s, LoadHead, s1);
    AloneIndices(first, s, j, m);
    FullTestExact(s);
    assert s.head != s.tail;
    s' := s1.(consumer := Reading(s.head, []));
    var _, _ := LeadsOn(first, s1, TestEmpty, s');
  }

  predicate OnesOutside(out: Element, from: nat, size: nat) {
    forall k :: 0 <= k < |out| && from + k >= size ==> out[k] == 1
  }

  // Every byte read from outside the buffer may be a 1.
  lemma {:induction false} ReadAlone(first: State, s: State, j: nat, m: nat) returns (s': State)
    requires Alone(first, s, j, m) && s.consumer.Reading?
    requires OnesOutside(s.consumer.out, s.Offset(s.head), |s.data|)
    ensures Alone(first, s', j, m) && s'.consumer.Reading? && |s'.consumer.out| == s'.width && s'.head == s.head
    ensures OnesOutside(s'.consumer.out, s'.Offset(s'.head), |s'.data|)
    decreases s.width - |s.consumer.out|
  {
    AloneIndices(first, s, j, m);
    s' := s;
    if |s.consumer.out| < s.width {
      s' := ReadOne(first, s, j, m);
      s' := ReadAlone(first, s', j, m);
    }
  }

  lemma ReadOne(first: State, s: State, j: nat, m: nat) returns (s': State)
    requires Alone(first, s, j, m) && s.consumer.Reading? && |s.consumer.out| < s.width
    requires s.consumer.head == s.head && OnesOutside(s.consumer.out, s.Offset(s.head), |s.data|)
    ensures Alone(first, s', j, m) && s'.consumer.Reading? && |s'.consumer.out| == |s.consumer.out| + 1
    ensures s'.head == s.head && s'.width == s.width && OnesOutside(s'.consumer.out, s'.Offset(s'.head), |s'.data|)
  {
    var c, from := s.consumer, s.Offset(s.head);
    var x := if from + |c.out| < |s.data| then s.data[from + |c.out|] else 1;
    OnesGrow(c.out, from, |s.data|, x);
    s' := s.(consumer := c.(out := c.out + [x]));
    var _, _ := LeadsOn(first, s, ReadByte(1), s');
  }

  lemma OnesGrow(out: Element, from: nat, size: nat, x: Byte)
    requires OnesOutside(out, from, size) && (from + |out| >= size ==> x == 1)
    ensures OnesOutside(out + [x], from, size)
  {
  }

  lemma {:induction false} PopAlone(first: State, j: nat, m: nat) returns (s: State)
    requires Init(first) && first.hasData && m <= j <= first.capacity
    ensures Alone(first, s, j, m) && s.consumer == Rest
  {
    if m == 0 {
      s := PushAlone(first, j);
    } else {
      s := PopAlone(first, j, m - 1);
      s := StartReading(first, s, j, m - 1);
      s := ReadAlone(first, s, j, m - 1);
      s := PopReading(first, s, j, m - 1);
    }
  }

  lemma PopReading(first: State, s: State, j: nat, m: nat) returns (s': State)
    requires Alone(first, s, j, m) && s.consumer.Reading? && |s.consumer.out| == s.width
    ensures Alone(first, s', j, m + 1) && s'.consumer == Rest && s'.popped == s.popped + [s.consumer.out]
  {
    AloneIndices(first, s, j, m);
    s' := s.(head := WrapAdd(s.head, 1, WORD64), consumer := Rest, popped := s.popped + [s.consumer.out]);
    var _, _ := LeadsOn(first, s, PublishHead, s');
  }

  // The element that holds byte number |data| may come out as something else than went in.
  lemma WrappedLosesData(first: State) returns (s: State)
    requires Init(first) && first.hasData && |first.data| < first.capacity * first.width && |first.data| < WORD64
    ensures Leads(first, s) && !(s.popped <= s.pushed)
  {
    var size := |first.data|;
    var j, n := FirstOutside(first.capacity, first.width, size);
    var s1 := PopAlone(first, j + 1, j);
    var s2 := StartReading(first, s1, j + 1, j);
    var s3 := ReadAlone(first, s2, j + 1, j);
    AloneIndices(first, s3, j + 1, j);
    OffsetOf(s3, j);
    assert s3.Offset(s3.head) + n == size;
    assert s3.consumer.out[n] == 1 && s3.pushed[j][n] == 0;
    s := PopReading(first, s3, j + 1, j);
    assert s.popped[j] != s.pushed[j];
  }

  // In every run from a ring on, pops give the arguments of the pushes, in order.
  ghost predicate AlwaysFirstOut(first: State) {
    forall states: seq<State>, actions: seq<Action> ::
      IsRun(states, actions) && states[0] == first ==> states[|actions|].popped <= Accepted(actions, |actions|)
  }

  // Elements come out of a ring as they went in, in every run, under the same condition.
  lemma FirstInFirstOutExactly(width: nat, request: nat, data: seq<Byte>)
    requires Given(width, request, Some(data))
    ensures AlwaysFirstOut(Create(width, request, Some(data))) <==> SizeFits(width, request)
  {
    var first := Create(width, request, Some(data));
    if SizeFits(width, request) {
      forall states: seq<State>, actions: seq<Action> | IsRun(states, actions) && states[0] == first
        ensures states[|actions|].popped <= Accepted(actions, |actions|)
      {
        FirstInFirstOut(states, actions, |actions|);
      }
    } else {
      CreatedCapacity(width, request, Some(data));
      var s := WrappedLosesData(first);
      var states, actions :| IsRun(states, actions) && states[0] == first && states[|actions|] == s;
      PushedIsAccepted(states, actions, |actions|);
    }
  }

  // A ring that got no memory copies nothing.
  lemma NoMemoryNoCopies(states: seq<State>, actions: seq<Action>, width: nat, request: nat)
    requires Given(width, request, None) && IsRun(states, actions) && states[0] == Create(width, request, None)
    ensures StaysInside(states, actions)
  {
    RoomyStaysInside(states, actions);
  }

  // Eight-byte elements and 2^61 slots: the product is 2^64, creation asks for nothing, and the first byte of
  // the first push is already outside.
  lemma SizeWraps()
    ensures !SizeFits(8, 0x2000_0000_0000_0000)
    ensures Asked(8, 0x2000_0000_0000_0000) == 0
  {
    var n := 0x2000_0000_0000_0000;
    NextPowerOf2Exact(n);
    assert IsPow2(n) by {
      WordSizes();
      assert Pow2(61) == n;
    }
    assert NextPowerOf2(n) == n;
    assert Wrap(n * 8, WORD64) == Wrap(0, WORD64) == 0;
  }
}
