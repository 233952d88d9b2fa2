/** A page cache with 2Q replacement as a value: the segment file, the cached pages, the two queues of pages and the
    free frames. Every event has one result, but for the dirty flag that a new frame happens to start with. */
module PageCache {
  import opened Basics

  type Page = seq<int>

  const FRAME_SIZE_BYTE: nat := 4096

  function ZeroPage(): (page: Page)
    ensures AllZero(page)
  {
    seq(FRAME_SIZE_BYTE, i => 0)
  }

  /** 4096 zero bytes. */
  ghost predicate AllZero(page: Page) {
    |page| == 4096 && forall i :: 0 <= i < 4096 ==> page[i] == 0
  }

  // ----- the segment file

  /** Writing a page beyond the end of the file leaves a hole, which reads as zeros. */
  function Written(file: seq<Page>, pageId: nat, data: Page): seq<Page> {
    if pageId < |file| then file[pageId := data]
    else file + seq(pageId - |file|, i => ZeroPage()) + [data]
  }

  lemma WrittenPages(file: seq<Page>, pageId: nat, data: Page)
    ensures pageId < |Written(file, pageId, data)| && Written(file, pageId, data)[pageId] == data
    ensures |file| <= |Written(file, pageId, data)|
    ensures forall q: nat :: q < |Written(file, pageId, data)| && q != pageId ==>
      Written(file, pageId, data)[q] == if q < |file| then file[q] else ZeroPage()
    ensures forall q: nat :: |file| <= q < pageId ==> AllZero(Written(file, pageId, data)[q])
  {
  }

  /** Reading beyond the end of the file leaves the frame's bytes as they are. */
  function Loaded(file: seq<Page>, pageId: nat, data: Page): Page {
    if pageId < |file| then file[pageId] else data
  }

  // ----- queues

  function Without<T(==)>(queue: seq<T>, x: T): seq<T> {
    if queue == [] then []
    else (if queue[0] == x then [] else [queue[0]]) + Without(queue[1..], x)
  }

  lemma {:induction false} WithoutHolds<T>(queue: seq<T>, x: T)
    ensures forall y :: y in Without(queue, x) <==> y in queue && y != x
    ensures Distinct(queue) ==> Distinct(Without(queue, x))
  {
    if queue != [] {
      WithoutHolds(queue[1..], x);
      assert queue == [queue[0]] + queue[1..];
      if Distinct(queue) {
        DistinctRest(queue);
        DistinctMore(queue[0], Without(queue[1..], x));
      }
    }
  }

  lemma DistinctMore<T>(x: T, queue: seq<T>)
    requires Distinct(queue)
    ensures x !in queue ==> Distinct([x] + queue)
    ensures Distinct([] + queue)
  {
    assert [] + queue == queue;
  }

  lemma DistinctRest<T>(queue: seq<T>)
    requires Distinct(queue) && queue != []
    ensures Distinct(queue[1..]) && forall y :: y in queue[1..] <==> y in queue && y != queue[0]
  {
    assert queue == [queue[0]] + queue[1..];
  }

  ghost predicate Distinct<T>(queue: seq<T>) {
    forall i, j :: 0 <= i < j < |queue| ==> queue[i] != queue[j]
  }

  // ----- the cache

  /** A page in its frame: its bytes, whether they are to be written out, whether the page was fixed again after it was
      loaded, and whether it is pinned. */
  datatype Cached = Cached(data: Page, dirty: bool, used: bool, held: bool)

  datatype Cache = Cache(file: seq<Page>, slots: map<nat, Cached>, fifo: seq<nat>, lru: seq<nat>, free: seq<Page>) {
    /** Every cached page that is not pinned waits once in the queue its used flag names. */
    ghost predicate Ok() {
      && Distinct(fifo) && Distinct(lru)
      && (forall p :: p in fifo <==> p in slots && !slots[p].held && !slots[p].used)
      && (forall p :: p in lru <==> p in slots && !slots[p].held && slots[p].used)
    }
  }

  /** Fix a page, overwrite the bytes of a page that is held, or give one back. */
  datatype Event = Fix(pageId: nat) | Fill(pageId: nat, data: Page) | Unfix(pageId: nat, isDirty: bool)

  /** Pins a page that is cached. */
  function FixedAgain(c: Cache, p: nat): Cache
    requires p in c.slots
  {
    var s := c.slots[p];
    c.(slots := c.slots[p := s.(used := true, held := true)],
       fifo := if s.used then c.fifo else Without(c.fifo, p), lru := if s.used then Without(c.lru, p) else c.lru)
  }

  /** Takes a free frame; its dirty flag is what the memory happens to hold. */
  function FixedFresh(c: Cache, p: nat, flag: bool): Cache
    requires c.free != []
  {
    c.(slots := c.slots[p := Cached(Loaded(c.file, p, c.free[0]), flag, false, true)], free := c.free[1..])
  }

  /** The page that is given up next. */
  function Victim(c: Cache): nat
    requires c.fifo != [] || c.lru != []
  {
    if c.fifo != [] then c.fifo[0] else c.lru[0]
  }

  /** Saves the page that is given up, if it is dirty, and loads the other one into its frame. */
  function FixedInstead(c: Cache, p: nat): Cache
    requires c.fifo != [] || c.lru != []
    requires Victim(c) in c.slots
  {
    var v := Victim(c);
    var file := if c.slots[v].dirty then Written(c.file, v, c.slots[v].data) else c.file;
    Cache(file, (c.slots - {v})[p := Cached(Loaded(file, p, c.slots[v].data), false, false, true)],
          if c.fifo != [] then c.fifo[1..] else c.fifo, if c.fifo != [] then c.lru else c.lru[1..], c.free)
  }

  /** A page is cached anew, and another one, or itself, is not cached as it was before. */
  ghost predicate Replaced(slots: map<nat, Cached>, slots': map<nat, Cached>, gone: nat, p: nat, s: Cached) {
    && p in slots' && slots'[p] == s
    && (forall q :: q != p ==> (q in slots' <==> q in slots && q != gone))
    && (forall q :: q != p && q in slots' ==> slots'[q] == slots[q])
  }

  /** What an event makes of the cache. Fixing a page that is held, and filling or giving back one that is not, is
      passed over. */
  function Step(c: Cache, e: Event, flag: bool): (c': Cache)
    requires c.Ok()
  {
    var held := e.pageId in c.slots && c.slots[e.pageId].held;
    match e
    case Fix(p) =>
      if held then c
      else if p in c.slots then FixedAgain(c, p)
      else if c.free != [] then FixedFresh(c, p, flag)
      else if c.fifo == [] && c.lru == [] then c
      else FixedInstead(c, p)
    case Fill(p, data) =>
      if held then c.(slots := c.slots[p := c.slots[p].(data := data)]) else c
    case Unfix(p, isDirty) =>
      if !held then c
      else
        var s := c.slots[p];
        c.(slots := c.slots[p := s.(dirty := s.dirty || isDirty, held := false)],
           fifo := if s.used then c.fifo else c.fifo + [p], lru := if s.used then c.lru + [p] else c.lru)
  }

  /** Fixing a page gives its bytes, or nothing. */
  function Outcome(c: Cache, e: Event): Option<Page>
    requires c.Ok()
  {
    if e.Fix? && !(e.pageId in c.slots && c.slots[e.pageId].held) then
      var c' := Step(c, e, false);
      if e.pageId in c'.slots then Some(c'.slots[e.pageId].data) else None
    else None
  }

  /** Fixing a page that is not held, case by case. */
  lemma StepOfFix(c: Cache, p: nat, flag: bool)
    requires c.Ok() && !(p in c.slots && c.slots[p].held)
    ensures p !in c.slots && c.free == [] && (c.fifo != [] || c.lru != []) ==> Victim(c) in c.slots
    ensures Step(c, Fix(p), flag)
            == if p in c.slots then FixedAgain(c, p) else if c.free != [] then FixedFresh(c, p, flag)
               else if c.fifo == [] && c.lru == [] then c else FixedInstead(c, p)
    ensures Outcome(c, Fix(p))
            == if p in c.slots then Some(c.slots[p].data) else if c.free != [] then Some(Loaded(c.file, p, c.free[0]))
               else if c.fifo == [] && c.lru == [] then None else Some(FixedInstead(c, p).slots[p].data)
  {
    if p !in c.slots && (c.fifo != [] || c.lru != []) {
      VictimWaits(c);
    }
    hide Loaded;
  }

  lemma StepOk(c: Cache, e: Event, flag: bool)
    requires c.Ok()
    ensures Step(c, e, flag).Ok()
  {
    hide Cache.Ok, FixedAgain, FixedFresh, FixedInstead, Victim;
    var held := e.pageId in c.slots && c.slots[e.pageId].held;
    match e
    case Fix(p) =>
      if held {
      } else if p in c.slots {
        FixedAgainOk(c, p);
      } else if c.free != [] {
        FixedFreshOk(c, p, flag);
      } else if c.fifo != [] || c.lru != [] {
        FixedInsteadOk(c, p);
      }
    case Fill(p, data) =>
      if held {
        FilledOk(c, p, data);
      }
    case Unfix(p, isDirty) =>
      if held {
        GivenBackOk(c, p, isDirty);
      }
  }

  lemma FixedAgainOk(c: Cache, p: nat)
    requires c.Ok() && p in c.slots && !c.slots[p].held
    ensures FixedAgain(c, p).Ok()
  {
    WithoutHolds(c.fifo, p);
    WithoutHolds(c.lru, p);
    hide Without, Distinct;
  }

  lemma FixedFreshOk(c: Cache, p: nat, flag: bool)
    requires c.Ok() && p !in c.slots && c.free != []
    ensures FixedFresh(c, p, flag).Ok()
  {
    hide Distinct;
  }

  lemma VictimWaits(c: Cache)
    requires c.Ok() && (c.fifo != [] || c.lru != [])
    ensures Victim(c) in c.slots && !c.slots[Victim(c)].held
  {
  }

  lemma FixedInsteadOk(c: Cache, p: nat)
    requires c.Ok() && p !in c.slots && (c.fifo != [] || c.lru != [])
    ensures Victim(c) in c.slots && FixedInstead(c, p).Ok()
  {
    VictimWaits(c);
    if c.fifo != [] {
      DistinctRest(c.fifo);
    } else {
      DistinctRest(c.lru);
    }
    hide Distinct, Written, Loaded;
  }

  lemma FilledOk(c: Cache, p: nat, data: Page)
    requires c.Ok() && p in c.slots && c.slots[p].held
    ensures c.(slots := c.slots[p := c.slots[p].(data := data)]).Ok()
  {
    hide Distinct;
  }

  lemma GivenBackOk(c: Cache, p: nat, isDirty: bool)
    requires c.Ok() && p in c.slots && c.slots[p].held
    ensures Step(c, Unfix(p, isDirty), false).Ok()
  {
    assert Distinct(c.fifo + [p]) && Distinct(c.lru + [p]);
    hide Distinct;
  }

  // ----- whole runs

  /** The cache in front of event n; flag i is what the dirty flag of a frame created by event i starts with. */
  function CacheAt(frames: nat, file: seq<Page>, events: seq<Event>, flags: seq<bool>, n: nat): (c: Cache)
    requires n <= |events| && n <= |flags|
    ensures c.Ok()
  {
    if n == 0 then Cache(file, map[], [], [], seq(frames, i => ZeroPage()))
    else
      var before := CacheAt(frames, file, events, flags, n - 1);
      StepOk(before, events[n - 1], flags[n - 1]);
      Step(before, events[n - 1], flags[n - 1])
  }

  /** A page that nobody holds, since a moment when it was cached and given back: it still is as it was, or it was given
      up once, and then the file has its bytes if they were to be written out, and otherwise what it had before. */
  ghost predicate Kept(before: Cache, c: Cache, p: nat)
    requires p in before.slots
  {
    var s := before.slots[p];
    && (p in c.slots ==> c.slots[p] == s)
    && |before.file| <= |c.file|
    && (p in c.slots || !s.dirty ==>
          p < |c.file| ==> c.file[p] == if p < |before.file| then before.file[p] else ZeroPage())
    && (p !in c.slots && s.dirty ==> p < |c.file| && c.file[p] == s.data)
  }

  lemma KeptStep(before: Cache, c: Cache, p: nat, e: Event, flag: bool)
    requires p in before.slots && !before.slots[p].held && Kept(before, c, p) && c.Ok() && e.pageId != p
    ensures Kept(before, Step(c, e, flag), p)
  {
    hide Cache.Ok, FixedInstead, Victim, Kept;
    var held := e.pageId in c.slots && c.slots[e.pageId].held;
    if e.Fix? && !held && e.pageId !in c.slots && c.free == [] && (c.fifo != [] || c.lru != []) {
      VictimWaits(c);
      KeptInstead(before, c, p, e.pageId);
    } else {
      KeptSame(before, c, Step(c, e, flag), p);
    }
  }

  lemma KeptSame(before: Cache, c: Cache, c': Cache, p: nat)
    requires p in before.slots && Kept(before, c, p) && c'.file == c.file
    requires (p in c'.slots <==> p in c.slots) && (p in c.slots ==> c'.slots[p] == c.slots[p])
    ensures Kept(before, c', p)
  {
  }

  lemma KeptInstead(before: Cache, c: Cache, p: nat, q: nat)
    requires p in before.slots && Kept(before, c, p) && p != q && (c.fifo != [] || c.lru != []) && Victim(c) in c.slots
    ensures Kept(before, FixedInstead(c, q), p)
  {
    var v := Victim(c);
    WrittenPages(c.file, v, c.slots[v].data);
    hide Written, Loaded;
  }

  lemma {:induction false} FreePagesZero(frames: nat, file: seq<Page>, events: seq<Event>, flags: seq<bool>, n: nat)
    requires n <= |events| && n <= |flags|
    ensures forall page :: page in CacheAt(frames, file, events, flags, n).free ==> AllZero(page)
  {
    hide AllZero, Cache.Ok;
    if n > 0 {
      FreePagesZero(frames, file, events, flags, n - 1);
      CacheAtStep(frames, file, events, flags, n - 1);
      FreeShrinks(CacheAt(frames, file, events, flags, n - 1), events[n - 1], flags[n - 1]);
      hide CacheAt, Step;
    }
  }

  lemma FreeShrinks(c: Cache, e: Event, flag: bool)
    requires c.Ok()
    ensures forall page :: page in Step(c, e, flag).free ==> page in c.free
  {
    hide Cache.Ok, Written, Loaded, Without;
  }

  /** A new page, beyond the end of the file, gets 4096 zero bytes as long as there is a free frame. */
  lemma NewPageIsZero(frames: nat, file: seq<Page>, events: seq<Event>, flags: seq<bool>, n: nat, p: nat)
    requires n <= |events| && n <= |flags|
    requires var c := CacheAt(frames, file, events, flags, n); p !in c.slots && p >= |c.file| && c.free != []
    ensures var outcome := Outcome(CacheAt(frames, file, events, flags, n), Fix(p));
            outcome.Some? && |outcome.value| == 4096 && forall i :: 0 <= i < 4096 ==> outcome.value[i] == 0
  {
    FreePagesZero(frames, file, events, flags, n);
    var c := CacheAt(frames, file, events, flags, n);
    hide CacheAt;
    OutcomeOfFix(c, p, false);
    assert c.free[0] in c.free;
  }

  /** Page p was held in front of event i, event i gives it back, and no event until j is about it. */
  ghost predicate Unused(frames: nat, file: seq<Page>, events: seq<Event>, flags: seq<bool>, p: nat, i: nat, j: nat)
    requires i < j <= |events| <= |flags|
  {
    var c := CacheAt(frames, file, events, flags, i);
    && events[i].Unfix? && events[i].pageId == p && p in c.slots && c.slots[p].held
    && forall m :: i < m < j ==> events[m].pageId != p
  }

  lemma CacheAtStep(frames: nat, file: seq<Page>, events: seq<Event>, flags: seq<bool>, n: nat)
    requires n < |events| && n < |flags|
    ensures CacheAt(frames, file, events, flags, n + 1)
            == Step(CacheAt(frames, file, events, flags, n), events[n], flags[n])
  {
  }

  lemma {:induction false} CacheAtPrefix(frames: nat, file: seq<Page>, events: seq<Event>, flags: seq<bool>, more: bool,
                                         n: nat)
    requires n <= |events| && n <= |flags|
    ensures CacheAt(frames, file, events, flags + [more], n) == CacheAt(frames, file, events, flags, n)
  {
    if n > 0 {
      CacheAtPrefix(frames, file, events, flags, more, n - 1);
    }
  }

  lemma GivenBack(frames: nat, file: seq<Page>, events: seq<Event>, flags: seq<bool>, p: nat, i: nat)
    requires i < |events| <= |flags| && Unused(frames, file, events, flags, p, i, i + 1)
    ensures var c, before := CacheAt(frames, file, events, flags, i), CacheAt(frames, file, events, flags, i + 1);
            && p in c.slots
            && before.slots == c.slots[p := c.slots[p].(dirty := c.slots[p].dirty || events[i].isDirty, held := false)]
            && before.file == c.file && Kept(before, before, p)
  {
    CacheAtStep(frames, file, events, flags, i);
    hide CacheAt, Cache.Ok;
  }

  lemma {:induction false} KeptUnused(frames: nat, file: seq<Page>, events: seq<Event>, flags: seq<bool>, p: nat,
                                      i: nat,
                                      j: nat)
    requires i < j <= |events| <= |flags| && Unused(frames, file, events, flags, p, i, j)
    ensures var c, before := CacheAt(frames, file, events, flags, i), CacheAt(frames, file, events, flags, i + 1);
            && p in c.slots
            && before.slots == c.slots[p := c.slots[p].(dirty := c.slots[p].dirty || events[i].isDirty, held := false)]
            && before.file == c.file && Kept(before, CacheAt(frames, file, events, flags, j), p)
  {
    hide CacheAt, Cache.Ok, FixedAgain, FixedFresh, FixedInstead, Kept;
    GivenBack(frames, file, events, flags, p, i);
    if i + 1 < j {
      CacheAtStep(frames, file, events, flags, j - 1);
      KeptUnused(frames, file, events, flags, p, i, j - 1);
      var before := CacheAt(frames, file, events, flags, i + 1);
      KeptStep(before, CacheAt(frames, file, events, flags, j - 1), p, events[j - 1], flags[j - 1]);
    }
  }

  /** The bytes in the frame that a page gets which is not cached. */
  function LeftOver(c: Cache): Page
    requires c.free != [] || c.fifo != [] || c.lru != []
    requires c.Ok()
  {
    if c.free != [] then c.free[0] else c.slots[Victim(c)].data
  }

  lemma OutcomeOfFix(c: Cache, p: nat, flag: bool)
    requires c.Ok() && !(p in c.slots && c.slots[p].held)
    ensures var outcome, file := Outcome(c, Fix(p)), Step(c, Fix(p), flag).file;
            && (outcome == None <==> p !in c.slots && c.free == [] && c.fifo == [] && c.lru == [])
            && (p in c.slots ==> outcome == Some(c.slots[p].data))
            && |c.file| <= |file|
            && (p !in c.slots && outcome.Some? ==>
                  outcome.value == if p < |c.file| then c.file[p] else if p < |file| then ZeroPage() else LeftOver(c))
  {
    if p !in c.slots && c.free == [] && (c.fifo != [] || c.lru != []) {
      VictimWaits(c);
      WrittenPages(c.file, Victim(c), c.slots[Victim(c)].data);
    }
    hide Written;
  }

  /** What a page holds when it is fixed again: the bytes it was given back with, if it is still cached or they were to
      be written out. Otherwise a change that was not announced is lost: the page holds what the file had of it before,
      or, if the file was shorter, zeros or what is left in the frame. */
  lemma FixedAfterwards(frames: nat, file: seq<Page>, events: seq<Event>, flags: seq<bool>, p: nat, i: nat, j: nat)
    requires i < j < |events| <= |flags| && Unused(frames, file, events, flags, p, i, j) && events[j] == Fix(p)
    ensures var before, c := CacheAt(frames, file, events, flags, i), CacheAt(frames, file, events, flags, j);
            var after := CacheAt(frames, file, events, flags, j + 1);
            var outcome := Outcome(c, events[j]); var s := before.slots[p];
            && (outcome == None <==> p !in c.slots && c.free == [] && c.fifo == [] && c.lru == [])
            && (outcome.Some? ==>
                  outcome.value == (if p in c.slots || s.dirty || events[i].isDirty then s.data
                                    else if p < |before.file| then before.file[p]
                                    else if p < |after.file| then ZeroPage()
                                    else LeftOver(c)))
  {
    KeptUnused(frames, file, events, flags, p, i, j);
    var c := CacheAt(frames, file, events, flags, j);
    assert CacheAt(frames, file, events, flags, j + 1) == Step(c, events[j], flags[j]);
    hide CacheAt, Cache.Ok, Written, ZeroPage, Outcome, Step, LeftOver;
    OutcomeOfFix(c, p, flags[j]);
  }

  /** So a change unfixed as clean comes back exactly when the page is still cached or was to be written out anyway. */
  lemma ChangeComesBackIff(frames: nat, file: seq<Page>, events: seq<Event>, flags: seq<bool>, p: nat, i: nat, j: nat)
    requires i < j < |events| <= |flags| && Unused(frames, file, events, flags, p, i, j) && events[j] == Fix(p)
    requires !events[i].isDirty
    ensures var before, c := CacheAt(frames, file, events, flags, i), CacheAt(frames, file, events, flags, j);
            var s := before.slots[p];
            p < |before.file| && before.file[p] != s.data && Outcome(c, events[j]).Some? ==>
              (Outcome(c, events[j]).value == s.data <==> p in c.slots || s.dirty)
  {
    FixedAfterwards(frames, file, events, flags, p, i, j);
    hide CacheAt, Outcome, LeftOver;
  }
}
