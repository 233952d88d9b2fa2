/** External merge sort: sorted chunks, then a k-way merge through bounded buffers that are refilled and flushed. */
module ExternalSort {
  import opened Basics

  const ELEMENT_SIZE_BYTE: nat := 8

  ghost predicate IsSorted(s: seq<nat>) {
    forall i, j :: 0 <= i < j < |s| ==> s[i] <= s[j]
  }

  // ----- std::sort by its contract

  function Insert(x: nat, s: seq<nat>): seq<nat> {
    if s == [] || x <= s[0] then [x] + s else [s[0]] + Insert(x, s[1..])
  }

  function Sort(s: seq<nat>): seq<nat> {
    if s == [] then [] else Insert(s[0], Sort(s[1..]))
  }

  lemma {:induction false} InsertElements(x: nat, s: seq<nat>)
    ensures multiset(Insert(x, s)) == multiset(s) + multiset{x}
  {
    if s != [] && x > s[0] {
      assert s == [s[0]] + s[1..];
      InsertElements(x, s[1..]);
    }
  }

  lemma {:induction false} InsertMember(x: nat, s: seq<nat>, y: nat)
    ensures y in Insert(x, s) <==> y == x || y in s
  {
    if s != [] && x > s[0] {
      InsertMember(x, s[1..], y);
    }
  }

  lemma {:induction false} InsertSorts(x: nat, s: seq<nat>)
    requires IsSorted(s)
    ensures IsSorted(Insert(x, s))
  {
    if s != [] && x > s[0] {
      InsertSorts(x, s[1..]);
      var rest := Insert(x, s[1..]);
      forall i | 0 <= i < |rest| ensures s[0] <= rest[i] {
        InsertMember(x, s[1..], rest[i]);
      }
    }
  }

  lemma {:induction false} SortSorts(s: seq<nat>)
    ensures IsSorted(Sort(s)) && multiset(Sort(s)) == multiset(s) && |Sort(s)| == |s|
  {
    if s != [] {
      SortSorts(s[1..]);
      InsertSorts(s[0], Sort(s[1..]));
      InsertElements(s[0], Sort(s[1..]));
      assert s == [s[0]] + s[1..];
    }
    assert |multiset(Sort(s))| == |multiset(s)|;
  }

  // ----- how many chunks, how large buffers

  /** The quotient rounded up, for a positive first argument. */
  function DivCeil(divisor: nat, dividend: nat): nat
    requires divisor > 0 && dividend > 0
  {
    1 + (divisor - 1) / dividend
  }

  lemma DivCeilRoundsUp(divisor: nat, dividend: nat)
    requires divisor > 0 && dividend > 0
    ensures (DivCeil(divisor, dividend) - 1) * dividend < divisor <= DivCeil(divisor, dividend) * dividend
  {
    var q := (divisor - 1) / dividend;
    assert divisor - 1 == q * dividend + (divisor - 1) % dividend;
    assert (q + 1) * dividend == q * dividend + dividend;
  }

  function MemSizeByte(memSizeMb: nat): nat {
    memSizeMb * 1024 * 1024
  }

  function NumberOfChunks(n: nat, memSizeMb: nat): nat
    requires n > 0 && memSizeMb > 0
  {
    DivCeil(n * ELEMENT_SIZE_BYTE, MemSizeByte(memSizeMb))
  }

  function MaxElementsPerBuffer(n: nat, memSizeMb: nat): nat
    requires n > 0 && memSizeMb > 0
  {
    MemSizeByte(memSizeMb) / (NumberOfChunks(n, memSizeMb) + 1) / ELEMENT_SIZE_BYTE
  }

  /** Chunks of size m together hold n elements, and none of them is needless. */
  ghost predicate Fits(chunks: nat, m: nat, n: nat) {
    m > 0 && (chunks - 1) * m < n <= chunks * m
  }

  lemma ChunksSuffice(n: nat, memSizeMb: nat)
    requires n > 0 && memSizeMb > 0
    ensures Fits(NumberOfChunks(n, memSizeMb), MemSizeByte(memSizeMb) / ELEMENT_SIZE_BYTE, n)
  {
    var m := memSizeMb * 131072;
    assert MemSizeByte(memSizeMb) == m * 8;
    DivCeilRoundsUp(n * 8, m * 8);
    var c := NumberOfChunks(n, memSizeMb);
    Scale(c - 1, m);
    Scale(c, m);
  }

  lemma Scale(c: nat, m: nat)
    ensures c * (m * 8) == (c * m) * 8
  {
  }

  // ----- chunk phase

  ghost function AllOf(chunks: seq<seq<nat>>): multiset<nat> {
    if chunks == [] then multiset{} else AllOf(chunks[..|chunks| - 1]) + multiset(chunks[|chunks| - 1])
  }

  lemma AllOfMore(chunks: seq<seq<nat>>, chunk: seq<nat>)
    ensures AllOf(chunks + [chunk]) == AllOf(chunks) + multiset(chunk)
  {
    assert (chunks + [chunk])[..|chunks|] == chunks;
  }

  /** The stored chunks are sorted and hold the first elements of the input. */
  ghost predicate Stored(input: seq<nat>, consumed: nat, chunks: seq<seq<nat>>) {
    && consumed <= |input| && AllOf(chunks) == multiset(input[..consumed])
    && (forall c :: 0 <= c < |chunks| ==> IsSorted(chunks[c]) && chunks[c] != [])
  }

  lemma StoreMore(input: seq<nat>, i: nat, j: nat, chunks: seq<seq<nat>>)
    requires Stored(input, i, chunks) && i < j <= |input|
    ensures Stored(input, j, chunks + [Sort(input[i..j])])
  {
    assert input[..j] == input[..i] + input[i..j];
    SortSorts(input[i..j]);
    AllOfMore(chunks, Sort(input[i..j]));
  }

  function Min(a: nat, b: nat): (r: nat)
    ensures r <= a && r <= b && (r == a || r == b)
  {
    if a < b then a else b
  }

  /** How many elements the first i chunks hold, of size m each but the last. */
  function Consumed(i: nat, m: nat, n: nat): nat {
    Min(i * m, n)
  }

  lemma ConsumedNext(i: nat, m: nat, chunks: nat, n: nat)
    requires i < chunks && Fits(chunks, m, n)
    ensures Consumed(i, m, n) < n
    ensures var left := n - Consumed(i, m, n);
            m > 0 && Consumed(i + 1, m, n) == Consumed(i, m, n) + if m < left then m else left
  {
    assert i * m <= (chunks - 1) * m by {
      var d := chunks - 1 - i;
      assert (i + d) * m == i * m + d * m;
    }
    assert (i + 1) * m == i * m + m;
  }

  lemma ConsumedAll(n: nat, memSizeMb: nat)
    requires n > 0 && memSizeMb > 0
    ensures var m, chunks := MemSizeByte(memSizeMb) / ELEMENT_SIZE_BYTE, NumberOfChunks(n, memSizeMb);
            Fits(chunks, m, n) && Consumed(0, m, n) == 0 && Consumed(chunks, m, n) == n
  {
    ChunksSuffice(n, memSizeMb);
  }

  /** A megabyte holds 131072 elements of 8 bytes. */
  lemma MemoryElements(memSizeMb: nat)
    ensures MemSizeByte(memSizeMb) / ELEMENT_SIZE_BYTE == memSizeMb * 0x2_0000
  {
    assert MemSizeByte(memSizeMb) == (memSizeMb * 0x2_0000) * 8;
  }

  /** All input buffers and the output buffer together fit the memory, and larger ones would not. */
  lemma BuffersFit(n: nat, memSizeMb: nat)
    requires n > 0 && memSizeMb > 0
    ensures var buffers, max := NumberOfChunks(n, memSizeMb) + 1, MaxElementsPerBuffer(n, memSizeMb);
            buffers * (max * 8) <= memSizeMb * 0x10_0000 < buffers * ((max + 1) * 8)
  {
    hide NumberOfChunks;
    SharesFit(memSizeMb * 0x10_0000, NumberOfChunks(n, memSizeMb) + 1);
  }

  lemma SharesFit(bytes: nat, buffers: nat)
    requires buffers > 0
    ensures var max := bytes / buffers / 8; buffers * (max * 8) <= bytes < buffers * ((max + 1) * 8)
  {
    var each := bytes / buffers;
    var max := each / 8;
    Share(bytes, buffers);
    assert max * 8 <= each && each + 1 <= (max + 1) * 8;
    MulMonotone(buffers, max * 8, each);
    MulMonotone(buffers, each + 1, (max + 1) * 8);
  }

  lemma Share(bytes: nat, buffers: nat)
    requires buffers > 0
    ensures var each := bytes / buffers; buffers * each <= bytes < buffers * (each + 1)
  {
    var each := bytes / buffers;
    assert bytes == buffers * each + bytes % buffers;
    assert buffers * (each + 1) == buffers * each + buffers;
  }

  lemma MulMonotone(a: nat, b: nat, c: nat)
    requires b <= c
    ensures a * b <= a * c && a * c == c * a
  {
    assert a * c == a * b + a * (c - b);
  }

  lemma NothingStored(input: seq<nat>)
    ensures Stored(input, 0, [])
  {
  }

  /** Reads, sorts and stores chunk after chunk; None when the input ends too early. */
  method ChunkPhase(input: seq<nat>, n: nat, memSizeMb: nat) returns (chunks: Option<seq<seq<nat>>>)
    requires n > 0 && memSizeMb > 0
    ensures chunks == None <==> n > |input|
    ensures chunks.Some? ==> |chunks.value| == NumberOfChunks(n, memSizeMb) && Stored(input, n, chunks.value)
    ensures chunks.Some? ==> forall c :: 0 <= c < |chunks.value| ==> |chunks.value[c]| <= memSizeMb * 0x2_0000
  {
    MemoryElements(memSizeMb);
    hide MemSizeByte, NumberOfChunks, Fits, Consumed, Stored, Sort;
    var maxElementsInMemory := MemSizeByte(memSizeMb) / ELEMENT_SIZE_BYTE;
    var numberOfChunks := NumberOfChunks(n, memSizeMb);
    ConsumedAll(n, memSizeMb);
    NothingStored(input);
    var consumed := 0;
    var stored: seq<seq<nat>> := [];
    var i := 0;
    while i < numberOfChunks
      invariant 0 <= i <= numberOfChunks && |stored| == i
      invariant consumed == Consumed(i, maxElementsInMemory, n) && consumed <= |input|
      invariant Stored(input, consumed, stored)
      invariant forall c :: 0 <= c < |stored| ==> |stored[c]| <= maxElementsInMemory
    {
      ConsumedNext(i, maxElementsInMemory, numberOfChunks, n);
      var elementsToConsume := if maxElementsInMemory < n - consumed then maxElementsInMemory else n - consumed;
      if consumed + elementsToConsume > |input| {
        return None;
      }
      var readBuffer := input[consumed..consumed + elementsToConsume];
      StoreMore(input, consumed, consumed + elementsToConsume, stored);
      SortSorts(readBuffer);
      stored := stored + [Sort(readBuffer)];
      consumed := consumed + elementsToConsume;
      i := i + 1;
    }
    return Some(stored);
  }

  // ----- merge phase

  /** A chunk in the queue: how much of it is still in its file, how much is in its buffer, and the next buffer
      index. */
  datatype QueueElem = QueueElem(chunkNumber: nat, notInBuffer: nat, inBuffer: nat, index: nat)

  /** What the chunks hold beyond the elements taken from each. */
  ghost function Remaining(chunks: seq<seq<nat>>, taken: seq<nat>): multiset<nat>
    requires Within(chunks, taken)
  {
    if chunks == [] then multiset{}
    else
      var n := |chunks| - 1;
      Remaining(chunks[..n], taken[..n]) + multiset(chunks[n][taken[n]..])
  }

  ghost predicate Within(chunks: seq<seq<nat>>, taken: seq<nat>) {
    |taken| == |chunks| && forall c :: 0 <= c < |chunks| ==> taken[c] <= |chunks[c]|
  }

  lemma {:induction false} NothingTaken(chunks: seq<seq<nat>>, taken: seq<nat>)
    requires Within(chunks, taken) && forall c :: 0 <= c < |taken| ==> taken[c] == 0
    ensures Remaining(chunks, taken) == AllOf(chunks)
  {
    if chunks != [] {
      NothingTaken(chunks[..|chunks| - 1], taken[..|chunks| - 1]);
    }
  }

  lemma {:induction false} AllTaken(chunks: seq<seq<nat>>, taken: seq<nat>)
    requires Within(chunks, taken) && forall c :: 0 <= c < |taken| ==> taken[c] == |chunks[c]|
    ensures Remaining(chunks, taken) == multiset{}
  {
    if chunks != [] {
      AllTaken(chunks[..|chunks| - 1], taken[..|chunks| - 1]);
    }
  }

  lemma SliceHead(s: seq<nat>, k: nat)
    requires k < |s|
    ensures multiset(s[k..]) == multiset(s[k + 1..]) + multiset{s[k]}
  {
    assert s[k..] == [s[k]] + s[k + 1..];
  }

  lemma {:induction false} TakeOne(chunks: seq<seq<nat>>, taken: seq<nat>, c: nat)
    requires Within(chunks, taken) && c < |chunks| && taken[c] < |chunks[c]|
    ensures Within(chunks, taken[c := taken[c] + 1])
    ensures Remaining(chunks, taken) == Remaining(chunks, taken[c := taken[c] + 1]) + multiset{chunks[c][taken[c]]}
  {
    hide Remaining;
    var n := |chunks| - 1;
    var taken' := taken[c := taken[c] + 1];
    RemainingLast(chunks, taken);
    RemainingLast(chunks, taken');
    if c < n {
      TakeOne(chunks[..n], taken[..n], c);
      assert taken'[..n] == taken[..n][c := taken[c] + 1];
    } else {
      assert taken'[..n] == taken[..n];
      SliceHead(chunks[n], taken[n]);
    }
  }

  lemma RemainingLast(chunks: seq<seq<nat>>, taken: seq<nat>)
    requires Within(chunks, taken) && chunks != []
    ensures var n := |chunks| - 1;
            Remaining(chunks, taken) == Remaining(chunks[..n], taken[..n]) + multiset(chunks[n][taken[n]..])
  {
  }

  /** The merged part is sorted, no larger than anything remaining, and nothing is lost. */
  ghost predicate MergeInv(chunks: seq<seq<nat>>, taken: seq<nat>, merged: seq<nat>) {
    && Within(chunks, taken) && IsSorted(merged)
    && (forall i, c, j :: 0 <= i < |merged| && 0 <= c < |chunks| && taken[c] <= j < |chunks[c]| ==>
         merged[i] <= chunks[c][j])
    && multiset(merged) + Remaining(chunks, taken) == AllOf(chunks)
  }

  /** A queued chunk has a next element, and its buffer is the part of the chunk read last. */
  ghost predicate ElemOk(chunks: seq<seq<nat>>, taken: seq<nat>, buffers: seq<seq<nat>>, e: QueueElem)
    requires |taken| == |buffers| == |chunks|
  {
    && e.chunkNumber < |chunks|
    && var chunk := chunks[e.chunkNumber];
       && e.index < e.inBuffer && e.inBuffer + e.notInBuffer <= |chunk|
       && buffers[e.chunkNumber] == chunk[|chunk| - e.notInBuffer - e.inBuffer..|chunk| - e.notInBuffer]
       && taken[e.chunkNumber] == |chunk| - e.notInBuffer - e.inBuffer + e.index
  }

  /** The queue holds exactly the chunks with elements left, each once. */
  ghost predicate QueueInv(chunks: seq<seq<nat>>, taken: seq<nat>, buffers: seq<seq<nat>>, queue: seq<QueueElem>) {
    && |taken| == |buffers| == |chunks|
    && (forall i :: 0 <= i < |queue| ==> ElemOk(chunks, taken, buffers, queue[i]))
    && OneEach(queue)
    && (forall c :: 0 <= c < |chunks| && taken[c] < |chunks[c]| ==> Queued(queue, c))
  }

  function Value(buffers: seq<seq<nat>>, e: QueueElem): nat
    requires e.chunkNumber < |buffers| && e.index < |buffers[e.chunkNumber]|
  {
    buffers[e.chunkNumber][e.index]
  }

  /** The top of the priority queue: an element with the smallest next value. */
  method Top(queue: seq<QueueElem>, buffers: seq<seq<nat>>) returns (top: nat)
    requires queue != []
    requires forall i :: 0 <= i < |queue| ==>
      queue[i].chunkNumber < |buffers| && queue[i].index < |buffers[queue[i].chunkNumber]|
    ensures top < |queue| && forall i :: 0 <= i < |queue| ==> Value(buffers, queue[top]) <= Value(buffers, queue[i])
  {
    top := 0;
    var k := 1;
    while k < |queue|
      invariant 1 <= k <= |queue| && top < k
      invariant forall i :: 0 <= i < k ==> Value(buffers, queue[top]) <= Value(buffers, queue[i])
    {
      if Value(buffers, queue[k]) < Value(buffers, queue[top]) {
        top := k;
      }
      k := k + 1;
    }
  }

  ghost predicate NoneBelow(chunks: seq<seq<nat>>, taken: seq<nat>, value: nat)
    requires Within(chunks, taken)
  {
    forall c, j :: 0 <= c < |chunks| && taken[c] <= j < |chunks[c]| ==> value <= chunks[c][j]
  }

  lemma HeadValue(chunks: seq<seq<nat>>, taken: seq<nat>, buffers: seq<seq<nat>>, e: QueueElem)
    requires |taken| == |buffers| == |chunks| && ElemOk(chunks, taken, buffers, e)
    ensures e.chunkNumber < |chunks| && e.index < |buffers[e.chunkNumber]|
    ensures taken[e.chunkNumber] < |chunks[e.chunkNumber]|
    ensures chunks[e.chunkNumber][taken[e.chunkNumber]] == Value(buffers, e)
  {
  }

  /** The smallest queued value is no larger than anything remaining. */
  lemma TopIsLeast(chunks: seq<seq<nat>>, taken: seq<nat>, buffers: seq<seq<nat>>, queue: seq<QueueElem>, top: nat)
    requires Within(chunks, taken) && QueueInv(chunks, taken, buffers, queue) && top < |queue|
    requires forall c :: 0 <= c < |chunks| ==> IsSorted(chunks[c])
    requires forall i :: 0 <= i < |queue| ==>
      ElemOk(chunks, taken, buffers, queue[i]) && Value(buffers, queue[top]) <= Value(buffers, queue[i])
    ensures NoneBelow(chunks, taken, Value(buffers, queue[top]))
  {
    var value := Value(buffers, queue[top]);
    HeadValue(chunks, taken, buffers, queue[top]);
    hide ElemOk;
    forall c, j | 0 <= c < |chunks| && taken[c] <= j < |chunks[c]| ensures value <= chunks[c][j] {
      assert Queued(queue, c);
      var i :| 0 <= i < |queue| && queue[i].chunkNumber == c;
      HeadValue(chunks, taken, buffers, queue[i]);
      assert chunks[c][taken[c]] <= chunks[c][j];
    }
  }

  /** So it can be merged. */
  lemma MergeStep(chunks: seq<seq<nat>>, taken: seq<nat>, c: nat, merged: seq<nat>)
    requires MergeInv(chunks, taken, merged) && c < |chunks| && taken[c] < |chunks[c]|
    requires NoneBelow(chunks, taken, chunks[c][taken[c]])
    ensures var taken' := taken[c := taken[c] + 1];
            && Within(chunks, taken') && MergeInv(chunks, taken', merged + [chunks[c][taken[c]]])
            && |Remaining(chunks, taken')| < |Remaining(chunks, taken)|
  {
    TakeOne(chunks, taken, c);
    hide Remaining, AllOf;
  }

  function WithoutTop(queue: seq<QueueElem>, top: nat): seq<QueueElem>
    requires top < |queue|
  {
    queue[..top] + queue[top + 1..]
  }

  /** The other queued chunks do not notice. */
  lemma OthersStay(chunks: seq<seq<nat>>, taken: seq<nat>, buffers: seq<seq<nat>>, queue: seq<QueueElem>, top: nat,
                   buffers': seq<seq<nat>>)
    requires QueueInv(chunks, taken, buffers, queue) && top < |queue| && |buffers'| == |buffers|
    requires ElemOk(chunks, taken, buffers, queue[top])
    requires forall c :: 0 <= c < |buffers| && c != queue[top].chunkNumber ==> buffers'[c] == buffers[c]
    ensures var c := queue[top].chunkNumber;
            forall i :: 0 <= i < |WithoutTop(queue, top)| ==>
              WithoutTop(queue, top)[i].chunkNumber != c &&
              ElemOk(chunks, taken[c := taken[c] + 1], buffers', WithoutTop(queue, top)[i])
  {
    var others := WithoutTop(queue, top);
    var c := queue[top].chunkNumber;
    forall i | 0 <= i < |others|
      ensures others[i].chunkNumber != c && ElemOk(chunks, taken[c := taken[c] + 1], buffers', others[i])
    {
      assert others[i] == queue[if i < top then i else i + 1];
      assert ElemOk(chunks, taken, buffers, others[i]);
    }
  }

  ghost predicate OneEach(queue: seq<QueueElem>) {
    forall i, j :: 0 <= i < j < |queue| ==> queue[i].chunkNumber != queue[j].chunkNumber
  }

  ghost predicate Queued(queue: seq<QueueElem>, c: int) {
    exists i :: 0 <= i < |queue| && queue[i].chunkNumber == c
  }

  lemma OneEachWithout(queue: seq<QueueElem>, top: nat)
    requires OneEach(queue) && top < |queue|
    ensures OneEach(WithoutTop(queue, top))
    ensures forall c :: Queued(queue, c) && c != queue[top].chunkNumber ==> Queued(WithoutTop(queue, top), c)
  {
    var others := WithoutTop(queue, top);
    forall c | Queued(queue, c) && c != queue[top].chunkNumber ensures Queued(others, c) {
      var i :| 0 <= i < |queue| && queue[i].chunkNumber == c;
      assert others[if i < top then i else i - 1].chunkNumber == c;
    }
  }

  lemma QueuedAppend(queue: seq<QueueElem>, e: QueueElem)
    ensures Queued(queue + [e], e.chunkNumber)
    ensures forall c :: Queued(queue, c) ==> Queued(queue + [e], c)
  {
    assert (queue + [e])[|queue|] == e;
    forall c | Queued(queue, c) ensures Queued(queue + [e], c) {
      var i :| 0 <= i < |queue| && queue[i].chunkNumber == c;
      assert (queue + [e])[i].chunkNumber == c;
    }
  }

  /** The queue after the top moved on: put back unless its chunk is used up. */
  lemma QueueStep(chunks: seq<seq<nat>>, taken: seq<nat>, buffers: seq<seq<nat>>, queue: seq<QueueElem>, top: nat,
                  buffers': seq<seq<nat>>, moved: QueueElem)
    requires QueueInv(chunks, taken, buffers, queue) && top < |queue| && ElemOk(chunks, taken, buffers, queue[top])
    requires moved.chunkNumber == queue[top].chunkNumber && |buffers'| == |buffers|
    requires forall c :: 0 <= c < |buffers| && c != moved.chunkNumber ==> buffers'[c] == buffers[c]
    requires var taken' := taken[moved.chunkNumber := taken[moved.chunkNumber] + 1];
             if moved.inBuffer > 0 then ElemOk(chunks, taken', buffers', moved)
             else taken'[moved.chunkNumber] == |chunks[moved.chunkNumber]|
    ensures var taken' := taken[moved.chunkNumber := taken[moved.chunkNumber] + 1];
            QueueInv(chunks, taken', buffers', WithoutTop(queue, top) + if moved.inBuffer > 0 then [moved] else [])
  {
    OthersStay(chunks, taken, buffers, queue, top, buffers');
    OneEachWithout(queue, top);
    QueuedAppend(WithoutTop(queue, top), moved);
    assert WithoutTop(queue, top) + [] == WithoutTop(queue, top);
    hide ElemOk, Queued, WithoutTop;
  }

  /** An empty queue means that every chunk is used up. */
  lemma QueueEmpty(chunks: seq<seq<nat>>, taken: seq<nat>, buffers: seq<seq<nat>>)
    requires QueueInv(chunks, taken, buffers, []) && Within(chunks, taken)
    ensures forall c :: 0 <= c < |chunks| ==> taken[c] == |chunks[c]|
  {
  }

  lemma QueueElems(chunks: seq<seq<nat>>, taken: seq<nat>, buffers: seq<seq<nat>>, queue: seq<QueueElem>)
    requires QueueInv(chunks, taken, buffers, queue)
    ensures |taken| == |buffers| == |chunks|
    ensures forall i :: 0 <= i < |queue| ==>
      && ElemOk(chunks, taken, buffers, queue[i])
      && queue[i].chunkNumber < |buffers| && queue[i].index < |buffers[queue[i].chunkNumber]|
  {
    forall i | 0 <= i < |queue|
      ensures queue[i].chunkNumber < |buffers| && queue[i].index < |buffers[queue[i].chunkNumber]|
    {
      assert ElemOk(chunks, taken, buffers, queue[i]);
    }
  }

  /** No buffer holds more than its part of the memory. */
  ghost predicate Bounded(buffers: seq<seq<nat>>, max: nat) {
    forall c :: 0 <= c < |buffers| ==> |buffers[c]| <= max
  }

  /** Fills every chunk's buffer for the first time. */
  method FillBuffers(chunks: seq<seq<nat>>, maxElementsPerBuffer: nat)
    returns (buffers: seq<seq<nat>>, queue: seq<QueueElem>)
    requires maxElementsPerBuffer > 0 && forall c :: 0 <= c < |chunks| ==> chunks[c] != []
    ensures QueueInv(chunks, seq(|chunks|, c => 0), buffers, queue) && Bounded(buffers, maxElementsPerBuffer)
  {
    buffers, queue := [], [];
    var i := 0;
    while i < |chunks|
      invariant 0 <= i <= |chunks| && |buffers| == |queue| == i
      invariant forall c :: 0 <= c < i ==>
        && queue[c].chunkNumber == c && queue[c].index == 0
        && queue[c].inBuffer == Min(maxElementsPerBuffer, |chunks[c]|)
        && queue[c].inBuffer + queue[c].notInBuffer == |chunks[c]|
        && buffers[c] == chunks[c][..queue[c].inBuffer]
    {
      var elementsToAdd := Min(maxElementsPerBuffer, |chunks[i]|);
      buffers := buffers + [chunks[i][..elementsToAdd]];
      queue := queue + [QueueElem(i, |chunks[i]| - elementsToAdd, elementsToAdd, 0)];
      i := i + 1;
    }
    forall c | 0 <= c < |chunks| ensures ElemOk(chunks, seq(|chunks|, c => 0), buffers, queue[c]) && Queued(queue, c) {
      assert queue[c].chunkNumber == c;
    }
  }

  /** Advances the head of a chunk by one element, refilling its buffer from its file when it is used up. */
  method Advance(chunks: seq<seq<nat>>, ghost taken: seq<nat>, buffers: seq<seq<nat>>, e: QueueElem,
                 maxElementsPerBuffer: nat)
    returns (buffers': seq<seq<nat>>, moved: QueueElem)
    requires maxElementsPerBuffer > 0 && |taken| == |buffers| == |chunks| && ElemOk(chunks, taken, buffers, e)
    ensures moved.chunkNumber == e.chunkNumber && |buffers'| == |buffers|
    ensures forall c :: 0 <= c < |buffers| && c != e.chunkNumber ==> buffers'[c] == buffers[c]
    ensures var taken' := taken[e.chunkNumber := taken[e.chunkNumber] + 1];
            if moved.inBuffer > 0 then ElemOk(chunks, taken', buffers', moved)
            else taken'[e.chunkNumber] == |chunks[e.chunkNumber]|
    ensures Bounded(buffers, maxElementsPerBuffer) ==> Bounded(buffers', maxElementsPerBuffer)
  {
    moved, buffers' := e.(index := e.index + 1), buffers;
    if moved.index == moved.inBuffer {
      var chunk := chunks[e.chunkNumber];
      var elementsToAdd := Min(maxElementsPerBuffer, moved.notInBuffer);
      var at := |chunk| - moved.notInBuffer;
      moved := moved.(index := 0, notInBuffer := moved.notInBuffer - elementsToAdd, inBuffer := elementsToAdd);
      buffers' := buffers[e.chunkNumber := chunk[at..at + elementsToAdd]];
    }
  }

  /** Appends to the output buffer, which is written to the file when it is full. */
  method WriteOut(output: seq<nat>, outputBuffer: seq<nat>, value: nat, maxElementsPerBuffer: nat)
    returns (output': seq<nat>, outputBuffer': seq<nat>)
    requires |outputBuffer| < maxElementsPerBuffer
    ensures output' + outputBuffer' == output + outputBuffer + [value] && |outputBuffer'| < maxElementsPerBuffer
    ensures if |outputBuffer| + 1 < maxElementsPerBuffer then output' == output else outputBuffer' == []
  {
    output', outputBuffer' := output, outputBuffer + [value];
    if |outputBuffer'| == maxElementsPerBuffer {
      output', outputBuffer' := output' + outputBuffer', [];
    }
  }

  /** Takes the smallest element left in any chunk, and moves its chunk on. */
  method Pop(chunks: seq<seq<nat>>, ghost taken: seq<nat>, buffers: seq<seq<nat>>, queue: seq<QueueElem>,
             maxElementsPerBuffer: nat)
    returns (value: nat, buffers': seq<seq<nat>>, queue': seq<QueueElem>, ghost c: nat)
    requires maxElementsPerBuffer > 0 && queue != [] && Within(chunks, taken) && QueueInv(chunks, taken, buffers, queue)
    requires forall c :: 0 <= c < |chunks| ==> IsSorted(chunks[c])
    ensures c < |chunks| && taken[c] < |chunks[c]| && value == chunks[c][taken[c]] && NoneBelow(chunks, taken, value)
    ensures QueueInv(chunks, taken[c := taken[c] + 1], buffers', queue')
    ensures Bounded(buffers, maxElementsPerBuffer) ==> Bounded(buffers', maxElementsPerBuffer)
  {
    QueueElems(chunks, taken, buffers, queue);
    hide QueueInv, ElemOk, IsSorted, NoneBelow, WithoutTop, Bounded;
    var top := Top(queue, buffers);
    var headElement := queue[top];
    c := headElement.chunkNumber;
    value := Value(buffers, headElement);
    HeadValue(chunks, taken, buffers, headElement);
    TopIsLeast(chunks, taken, buffers, queue, top);
    var moved;
    buffers', moved := Advance(chunks, taken, buffers, headElement, maxElementsPerBuffer);
    QueueStep(chunks, taken, buffers, queue, top, buffers', moved);
    queue' := WithoutTop(queue, top) + if moved.inBuffer > 0 then [moved] else [];
  }

  /** The k-way merge. What is written out is sorted and has the elements of all chunks, whatever the buffer size. */
  method Merge(chunks: seq<seq<nat>>, maxElementsPerBuffer: nat) returns (output: seq<nat>)
    requires maxElementsPerBuffer > 0
    requires forall c :: 0 <= c < |chunks| ==> IsSorted(chunks[c]) && chunks[c] != []
    ensures IsSorted(output) && multiset(output) == AllOf(chunks)
  {
    var inputBuffers, queue := FillBuffers(chunks, maxElementsPerBuffer);
    ghost var taken := seq(|chunks|, c => 0);
    MergeStart(chunks, taken);
    var outputBuffer: seq<nat> := [];
    output := [];
    assert output + outputBuffer == [];
    hide *;
    while queue != []
      invariant QueueInv(chunks, taken, inputBuffers, queue)
      invariant Within(chunks, taken) && MergeInv(chunks, taken, output + outputBuffer)
      invariant |outputBuffer| < maxElementsPerBuffer && Bounded(inputBuffers, maxElementsPerBuffer)
      decreases |Remaining(chunks, taken)|
    {
      var value;
      ghost var c;
      value, inputBuffers, queue, c := Pop(chunks, taken, inputBuffers, queue, maxElementsPerBuffer);
      MergeStep(chunks, taken, c, output + outputBuffer);
      taken := taken[c := taken[c] + 1];
      output, outputBuffer := WriteOut(output, outputBuffer, value, maxElementsPerBuffer);
    }
    MergeDone(chunks, taken, inputBuffers, output + outputBuffer);
    output := output + outputBuffer;
  }

  lemma MergeStart(chunks: seq<seq<nat>>, taken: seq<nat>)
    requires taken == seq(|chunks|, c => 0)
    ensures Within(chunks, taken) && MergeInv(chunks, taken, [])
  {
    NothingTaken(chunks, taken);
    hide Remaining, AllOf;
  }

  lemma MergeDone(chunks: seq<seq<nat>>, taken: seq<nat>, buffers: seq<seq<nat>>, merged: seq<nat>)
    requires Within(chunks, taken) && MergeInv(chunks, taken, merged) && QueueInv(chunks, taken, buffers, [])
    ensures IsSorted(merged) && multiset(merged) == AllOf(chunks)
  {
    QueueEmpty(chunks, taken, buffers);
    AllTaken(chunks, taken);
    hide Remaining, AllOf, QueueInv;
  }

  lemma FirstIsLeast(s: seq<nat>, x: nat)
    requires IsSorted(s) && x in multiset(s)
    ensures s != [] && s[0] <= x && IsSorted(s[1..]) && multiset(s[1..]) == multiset(s) - multiset{s[0]}
  {
    assert x in s;
    assert s == [s[0]] + s[1..];
    assert IsSorted(s[1..]);
    hide IsSorted;
  }

  /** A non-decreasing permutation is unique, so neither the chunks nor the buffers show in the result. */
  lemma {:induction false} SortedOnce(a: seq<nat>, b: seq<nat>)
    requires IsSorted(a) && IsSorted(b) && multiset(a) == multiset(b)
    ensures a == b
  {
    hide IsSorted;
    assert |multiset(a)| == |a| && |multiset(b)| == |b|;
    if a != [] {
      FirstIsLeast(a, b[0]);
      FirstIsLeast(b, a[0]);
      SortedOnce(a[1..], b[1..]);
      assert a == [a[0]] + a[1..] && b == [b[0]] + b[1..];
    }
  }

  /** The whole sort: the first n elements in order, or nothing when the input is too short. */
  method Run(input: seq<nat>, n: nat, memSizeMb: nat) returns (output: Option<seq<nat>>)
    requires n > 0 && memSizeMb > 0 && MaxElementsPerBuffer(n, memSizeMb) > 0
    ensures output == None <==> n > |input|
    ensures output.Some? ==> IsSorted(output.value) && multiset(output.value) == multiset(input[..n])
    ensures output.Some? ==> output.value == Sort(input[..n])
  {
    var chunks := ChunkPhase(input, n, memSizeMb);
    if chunks == None {
      return None;
    }
    var merged := Merge(chunks.value, MaxElementsPerBuffer(n, memSizeMb));
    SortSorts(input[..n]);
    SortedOnce(merged, Sort(input[..n]));
    return Some(merged);
  }

  // ----- the sortedness checker

  const MAX_BUFFER_COUNT: nat := 65536

  datatype Verdict = Ordered | Unordered | Abort

  ghost predicate SortedUpTo(s: seq<nat>, k: nat)
    requires k <= |s|
  {
    IsSorted(s[..k])
  }

  lemma SortedMore(s: seq<nat>, k: nat)
    requires k < |s| && SortedUpTo(s, k)
    ensures SortedUpTo(s, k + 1) <==> k == 0 || s[k - 1] <= s[k]
  {
    if k > 0 {
      assert s[..k][k - 1] == s[k - 1] && s[..k + 1][k] == s[k] && s[..k + 1][k - 1] == s[k - 1];
      forall i | 0 <= i < k ensures s[..k + 1][i] == s[..k][i] && s[i] <= s[k - 1] {
        assert i < k - 1 ==> s[..k][i] <= s[..k][k - 1];
      }
    }
  }

  lemma Unsorted(s: seq<nat>, i: nat, j: nat)
    requires i <= j <= |s| && !SortedUpTo(s, i)
    ensures !SortedUpTo(s, j)
  {
    assert s[..i] == s[..j][..i];
  }

  /** How much of a file of this length a check of size elements compares: all, or the full buffers before the short
      read. */
  function Compared(length: nat, size: nat): (n: nat)
    ensures n <= length && n <= size
  {
    if size <= length then size else length / MAX_BUFFER_COUNT * MAX_BUFFER_COUNT
  }

  ghost predicate Aligned(position: nat) {
    position % MAX_BUFFER_COUNT == 0
  }

  lemma NextBuffer(length: nat, size: nat, position: nat, count: nat)
    requires position < size && position <= length && Aligned(position)
    requires count == Min(size - position, MAX_BUFFER_COUNT)
    ensures position + count == size || Aligned(position + count)
    ensures if position + count <= length then position + count <= Compared(length, size)
            else length < size && Compared(length, size) == position
  {
  }

  function Before(file: seq<nat>, position: nat): nat
    requires position <= |file|
  {
    if position == 0 then 0 else file[position - 1]
  }

  /** Compares the elements of one buffer, each with the one before it. */
  method CheckBuffer(file: seq<nat>, position: nat, bufferCount: nat, start: nat) returns (ordered: bool, prev: nat)
    requires position + bufferCount <= |file| && SortedUpTo(file, position) && start == Before(file, position)
    ensures ordered <==> SortedUpTo(file, position + bufferCount)
    ensures ordered ==> prev == Before(file, position + bufferCount)
  {
    hide SortedUpTo;
    var buffer := file[position..position + bufferCount];
    prev := start;
    var i := 0;
    while i < bufferCount
      invariant 0 <= i <= bufferCount && SortedUpTo(file, position + i)
      invariant prev == Before(file, position + i)
    {
      var curr := buffer[i];
      SortedMore(file, position + i);
      if curr < prev {
        Unsorted(file, position + i + 1, position + bufferCount);
        return false, prev;
      }
      prev := curr;
      i := i + 1;
    }
    return true, prev;
  }

  /** The buffered check decides sortedness; a short read aborts it unless an earlier buffer was already out of
      order. */
  method CheckSorting(file: seq<nat>, size: nat) returns (verdict: Verdict)
    ensures verdict == Unordered <==> !SortedUpTo(file, Compared(|file|, size))
    ensures verdict == Abort <==> size > |file| && SortedUpTo(file, Compared(|file|, size))
  {
    assert SortedUpTo(file, 0) && Aligned(0) && (size <= |file| ==> Compared(|file|, size) == size);
    hide SortedUpTo, Aligned, Compared;
    var prev := 0;
    var elementsLeft := size;
    while elementsLeft != 0
      invariant elementsLeft <= size && (elementsLeft == 0 || Aligned(size - elementsLeft))
      invariant size - elementsLeft <= Compared(|file|, size)
      invariant SortedUpTo(file, size - elementsLeft)
      invariant prev == Before(file, size - elementsLeft)
    {
      var bufferCount := Min(elementsLeft, MAX_BUFFER_COUNT);
      var position := size - elementsLeft;
      NextBuffer(|file|, size, position, bufferCount);
      elementsLeft := elementsLeft - bufferCount;
      if position + bufferCount > |file| {
        return Abort;
      }
      var ordered;
      ordered, prev := CheckBuffer(file, position, bufferCount, prev);
      if !ordered {
        Unsorted(file, position + bufferCount, Compared(|file|, size));
        return Unordered;
      }
    }
    return Ordered;
  }

  /** The checker accepts what the sort wrote. */
  method SortAndCheck(input: seq<nat>, n: nat, memSizeMb: nat) returns (verdict: Option<Verdict>)
    requires n > 0 && memSizeMb > 0 && MaxElementsPerBuffer(n, memSizeMb) > 0
    ensures verdict == if n <= |input| then Some(Ordered) else None
  {
    var output := Run(input, n, memSizeMb);
    if output == None {
      return None;
    }
    assert |multiset(output.value)| == |multiset(input[..n])|;
    assert output.value[..n] == output.value;
    var checked := CheckSorting(output.value, n);
    return Some(checked);
  }
}
