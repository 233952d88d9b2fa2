/** A page cache with 2Q replacement over one segment file, used by one thread. */
module Buffer {
  import opened Basics
  import opened PageCache

  /** What a file holds when it is opened. */
  ghost function Opened(file: seq<Page>): map<nat, Page> {
    map p: nat | p < |file| :: file[p]
  }

  // ----- frames and the replacement strategy

  class BufferFrame {
    var pageId: nat
    var data: Page
    var dirty: bool
    var used: bool
    var locked: bool

    /** The state byte is left uninitialised. */
    constructor (pageId: nat, data: Page)
      ensures this.pageId == pageId && this.data == data && !locked
    {
      this.pageId, this.data, this.dirty, this.used, this.locked := pageId, data, *, *, false;
    }
  }

  lemma {:induction false} WithoutNone(queue: seq<BufferFrame>, frame: BufferFrame)
    requires frame !in queue
    ensures Without(queue, frame) == queue
  {
    if queue != [] {
      WithoutNone(queue[1..], frame);
    }
  }

  lemma {:induction false} WithoutMany(a: seq<BufferFrame>, b: seq<BufferFrame>, frame: BufferFrame)
    ensures Without(a + b, frame) == Without(a, frame) + Without(b, frame)
  {
    if a == [] {
      assert a + b == b;
    } else {
      WithoutMany(a[1..], b, frame);
      assert (a + b)[1..] == a[1..] + b && (a + b)[0] == a[0];
      var head := if a[0] == frame then [] else [a[0]];
      calc {
        Without(a + b, frame);
        head + Without(a[1..] + b, frame);
        { hide Without; }
        head + (Without(a[1..], frame) + Without(b, frame));
        { hide Without; }
        (head + Without(a[1..], frame)) + Without(b, frame);
        Without(a, frame) + Without(b, frame);
      }
    }
  }

  /** The queue holds exactly these frames, each once. */
  ghost predicate Holds(queue: seq<BufferFrame>, members: set<BufferFrame>) {
    && (forall f :: f in queue ==> f in members) && (forall f :: f in members ==> f in queue)
    && (forall i, j :: 0 <= i < j < |queue| ==> queue[i] != queue[j])
  }

  lemma HoldsPushed(queue: seq<BufferFrame>, members: set<BufferFrame>, frame: BufferFrame)
    requires Holds(queue, members) && frame !in members
    ensures Holds(queue + [frame], members + {frame})
  {
  }

  lemma HoldsPopped(queue: seq<BufferFrame>, members: set<BufferFrame>)
    requires Holds(queue, members)
    ensures queue == [] <==> members == {}
    ensures queue != [] ==> queue[0] in members && Holds(queue[1..], members - {queue[0]})
  {
    if queue != [] {
      assert queue[0] in queue;
      assert queue == [queue[0]] + queue[1..];
    } else {
      forall f ensures f !in members {
        assert f !in queue;
      }
    }
  }

  lemma {:induction false} HoldsRemoved(queue: seq<BufferFrame>, members: set<BufferFrame>, frame: BufferFrame)
    requires Holds(queue, members)
    ensures Holds(Without(queue, frame), members - {frame})
  {
    if queue != [] {
      HoldsPopped(queue, members);
      var rest, others := queue[1..], members - {queue[0]};
      HoldsRemoved(rest, others, frame);
      if queue[0] == frame {
        assert members - {frame} == others - {frame};
      } else {
        var kept := Without(rest, frame);
        forall f ensures f in [queue[0]] + kept <==> f in members - {frame} {
          assert f in kept <==> f in others - {frame};
        }
        assert queue[0] !in kept;
      }
    }
  }

  /** A frame is taken out of the one queue it waits in. */
  lemma TakenOut(fifo: seq<BufferFrame>, lru: seq<BufferFrame>, a: set<BufferFrame>, b: set<BufferFrame>,
                 frame: BufferFrame, used: bool)
    requires Holds(fifo, a) && Holds(lru, b) && frame !in (if used then a else b)
    ensures if used then Holds(fifo, a - {frame}) && Holds(Without(lru, frame), b - {frame})
                         && Without(fifo + lru, frame) == fifo + Without(lru, frame)
            else Holds(Without(fifo, frame), a - {frame}) && Holds(lru, b - {frame})
                 && Without(fifo + lru, frame) == Without(fifo, frame) + lru
  {
    assert frame !in (if used then fifo else lru);
    WithoutMany(fifo, lru, frame);
    hide Holds, Without;
    if used {
      HoldsRemoved(lru, b, frame);
      WithoutNone(fifo, frame);
      assert a - {frame} == a;
    } else {
      HoldsRemoved(fifo, a, frame);
      WithoutNone(lru, frame);
      assert b - {frame} == b;
    }
  }

  class TwoQList {
    var fifoQueue: seq<BufferFrame>
    var lruQueue: seq<BufferFrame>

    constructor ()
      ensures fifoQueue == lruQueue == []
    {
      fifoQueue, lruQueue := [], [];
    }

    /** The order in which frames are given up. */
    function Order(): seq<BufferFrame>
      reads this
    {
      fifoQueue + lruQueue
    }

    method Push(frame: BufferFrame)
      modifies this
      ensures fifoQueue == if frame.used then old(fifoQueue) else old(fifoQueue) + [frame]
      ensures lruQueue == if frame.used then old(lruQueue) + [frame] else old(lruQueue)
    {
      if frame.used {
        lruQueue := lruQueue + [frame];
      } else {
        fifoQueue := fifoQueue + [frame];
      }
    }

    /** The head of the FIFO queue goes first; only when that queue is empty the head of the LRU queue. */
    method Pop() returns (frame: BufferFrame?)
      modifies this
      ensures frame == null <==> old(fifoQueue) == [] && old(lruQueue) == []
      ensures frame == null ==> unchanged(this)
      ensures frame != null && old(fifoQueue) != [] ==>
        old(fifoQueue) == [frame] + fifoQueue && lruQueue == old(lruQueue)
      ensures frame != null && old(fifoQueue) == [] ==> old(lruQueue) == [frame] + lruQueue && fifoQueue == []
    {
      if |fifoQueue| > 0 {
        frame := fifoQueue[0];
        fifoQueue := fifoQueue[1..];
      } else if |lruQueue| > 0 {
        frame := lruQueue[0];
        lruQueue := lruQueue[1..];
      } else {
        frame := null;
      }
    }

    method Remove(frame: BufferFrame)
      modifies this
      ensures fifoQueue == if frame.used then old(fifoQueue) else Without(old(fifoQueue), frame)
      ensures lruQueue == if frame.used then Without(old(lruQueue), frame) else old(lruQueue)
    {
      if frame.used {
        lruQueue := Without(lruQueue, frame);
      } else {
        fifoQueue := Without(fifoQueue, frame);
      }
    }
  }

  class BufferManager {
    const maxFramesInMemory: nat
    const replacementStrategy: TwoQList
    var pageFrameMap: map<nat, BufferFrame?>
    var freePages: seq<Page>
    var file: seq<Page>

    /** The frames created so far. */
    ghost var frames: set<BufferFrame>
    /** For every page ever unfixed dirty, its bytes at the last such unfix; for the other pages of the file, those it
        opened with. */
    ghost var last: map<nat, Page>
    /** The pages that were since unfixed as clean although their bytes had been changed. */
    ghost var loose: set<nat>

    predicate Resident(pageId: nat)
      reads `pageFrameMap
    {
      pageId in pageFrameMap && pageFrameMap[pageId] != null
    }

    ghost predicate FramesOk()
      reads `pageFrameMap, `frames, `freePages, frames`pageId
    {
      && (forall f {:trigger f in frames} :: f in frames ==> f.pageId in pageFrameMap && pageFrameMap[f.pageId] == f)
      && (forall p {:trigger Resident(p)} {:trigger p in pageFrameMap} :: Resident(p) ==>
           pageFrameMap[p] in frames && pageFrameMap[p].pageId == p)
      && |frames| + |freePages| == maxFramesInMemory
    }

    ghost function Waiting(used: bool): set<BufferFrame>
      reads `frames, frames`locked, frames`used
    {
      set f | f in frames && !f.locked && f.used == used
    }

    /** Every frame that is not pinned waits in the one queue its used flag names, and no other frame does. */
    ghost predicate QueuesOk()
      reads `frames, replacementStrategy, frames`locked, frames`used
    {
      && Holds(replacementStrategy.fifoQueue, Waiting(false))
      && Holds(replacementStrategy.lruQueue, Waiting(true))
    }

    /** The last dirty bytes of a page are in its frame, and in the file unless the frame is still to be written. */
    ghost predicate FileOk()
      reads this, frames
      requires FramesOk()
    {
      forall p {:trigger p in last} :: p in last && p !in loose ==>
        && (Resident(p) && !pageFrameMap[p].locked ==> pageFrameMap[p].data == last[p])
        && ((Resident(p) && pageFrameMap[p].dirty) || (p < |file| && file[p] == last[p]))
    }

    ghost predicate Valid()
      reads this, replacementStrategy, frames
    {
      FramesOk() && QueuesOk() && FileOk()
    }

    constructor (pagesInMemory: nat, file: seq<Page>)
      ensures Valid() && fresh(replacementStrategy) && maxFramesInMemory == pagesInMemory
      ensures this.file == file && frames == {} && last == Opened(file) && loose == {}
      ensures freePages == seq(pagesInMemory, i => ZeroPage()) && forall i :: 0 <= i < pagesInMemory ==>
        AllZero(freePages[i])
      ensures replacementStrategy.fifoQueue == replacementStrategy.lruQueue == []
      ensures forall p :: !Resident(p)
    {
      maxFramesInMemory := pagesInMemory;
      replacementStrategy := new TwoQList();
      pageFrameMap := map[];
      freePages := seq(pagesInMemory, i => ZeroPage());
      this.file := file;
      frames, last, loose := {}, Opened(file), {};
    }

    /** A frame left the queue its used flag named. */
    twostate predicate Removed(frame: BufferFrame)
      reads replacementStrategy
    {
      var list := replacementStrategy;
      && list.fifoQueue == (if old(frame.used) then old(list.fifoQueue) else Without(old(list.fifoQueue), frame))
      && list.lruQueue == (if old(frame.used) then Without(old(list.lruQueue), frame) else old(list.lruQueue))
    }

    /** A frame was the next one out. */
    twostate predicate Popped(frame: BufferFrame)
      reads replacementStrategy
    {
      var list := replacementStrategy;
      if old(list.fifoQueue) != []
        then old(list.fifoQueue) == [frame] + list.fifoQueue && list.lruQueue == old(list.lruQueue)
      else old(list.lruQueue) == [frame] + list.lruQueue && list.fifoQueue == []
    }

    /** A resident page leaves its queue; from now on its frame counts as used. */
    method FixResident(frame: BufferFrame)
      requires Valid() && frame in frames && !frame.locked
      modifies this, replacementStrategy, frames
      ensures Valid() && frame.locked && frame.used
      ensures unchanged(this) && unchanged(frames - {frame})
      ensures replacementStrategy.Order() == Without(old(replacementStrategy.Order()), frame) && Removed(frame)
      ensures frame.pageId == old(frame.pageId) && frame.data == old(frame.data) && frame.dirty == old(frame.dirty)
    {
      hide Holds, Without, FileOk;
      ghost var fifo, lru := Waiting(false), Waiting(true);
      TakenOut(replacementStrategy.fifoQueue, replacementStrategy.lruQueue, fifo, lru, frame, frame.used);
      replacementStrategy.Remove(frame);
      frame.used := true;
      frame.locked := true;
      assert Waiting(false) == fifo - {frame} && Waiting(true) == lru - {frame};
      StillFileOk(frame);
    }

    /** Pinning a frame asks nothing new of the file. */
    twostate lemma StillFileOk(frame: BufferFrame)
      requires unchanged(this) && frame in frames && unchanged(frames - {frame}) && frame.locked
      requires frame.pageId == old(frame.pageId) && frame.dirty == old(frame.dirty)
      requires old(FramesOk()) && FramesOk() && old(FileOk())
      ensures FileOk()
    {
    }

    /** Gives a free page to a new frame. */
    method CreateFrame(pageId: nat) returns (frame: BufferFrame)
      requires Valid() && !Resident(pageId) && freePages != []
      modifies `pageFrameMap, `freePages, `frames
      ensures Valid() && fresh(frame) && frames == old(frames) + {frame} && frame.locked && frame.pageId == pageId
      ensures frame.data == old(freePages)[0] && !frame.used && Resident(pageId) && pageFrameMap[pageId] == frame
      ensures freePages == old(freePages)[1..]
    {
      hide FileOk, FramesOk, QueuesOk;
      frame := new BufferFrame(pageId, freePages[0]);
      frame.used := false;
      frame.locked := true;
      freePages := freePages[1..];
      pageFrameMap := pageFrameMap[pageId := frame];
      frames := frames + {frame};
      FramesOkWithMore(frame, pageId);
      QueuesOkWithMore(frame);
      FileOkWithMore(frame, pageId);
    }

    twostate lemma FramesOkWithMore(new frame: BufferFrame, pageId: nat)
      requires old(FramesOk()) && !old(Resident(pageId)) && old(freePages) != [] && freePages == old(freePages)[1..]
      requires frame !in old(frames) && frame.pageId == pageId && unchanged(old(frames))
      requires frames == old(frames) + {frame} && pageFrameMap == old(pageFrameMap)[pageId := frame]
      ensures FramesOk() && Resident(pageId)
    {
      assert forall p :: p != pageId ==> (Resident(p) <==> old(Resident(p)));
    }

    twostate lemma QueuesOkWithMore(new frame: BufferFrame)
      requires old(QueuesOk()) && frame.locked && frames == old(frames) + {frame} && unchanged(old(frames))
      requires unchanged(replacementStrategy)
      ensures QueuesOk()
    {
      hide Holds;
      assert Waiting(false) == old(Waiting(false)) && Waiting(true) == old(Waiting(true));
    }

    /** A pinned frame for a page that was not resident asks nothing of the file. */
    twostate lemma FileOkWithMore(new frame: BufferFrame, pageId: nat)
      requires old(FramesOk()) && FramesOk() && old(FileOk()) && !old(Resident(pageId)) && frame.locked
      requires frames == old(frames) + {frame} && pageFrameMap == old(pageFrameMap)[pageId := frame] &&
               unchanged(old(frames))
      requires file == old(file) && last == old(last) && loose == old(loose)
      ensures FileOk()
    {
    }

    /** Takes the next frame from the queues; null when every frame is pinned. */
    method PopFrame() returns (frame: BufferFrame?)
      requires Valid()
      modifies replacementStrategy, frames
      ensures Valid()
      ensures frame == null <==> forall f :: f in frames ==> old(f.locked)
      ensures frame == null ==> unchanged(replacementStrategy) && unchanged(frames)
      ensures frame != null ==>
        && frame in frames && unchanged(frames - {frame}) && frame.locked && !old(frame.locked)
        && frame.pageId == old(frame.pageId)
        && frame.data == old(frame.data) && frame.dirty == old(frame.dirty) && frame.used == old(frame.used)
        && Popped(frame)
    {
      hide Holds, FramesOk;
      HoldsPopped(replacementStrategy.fifoQueue, Waiting(false));
      HoldsPopped(replacementStrategy.lruQueue, Waiting(true));
      frame := replacementStrategy.Pop();
      if frame == null {
        assert forall f :: f in frames && !f.locked ==> f in Waiting(f.used);
        return;
      }
      assert frame in Waiting(frame.used);
      frame.locked := true;
      assert Waiting(false) == old(Waiting(false)) - {frame};
      assert Waiting(true) == old(Waiting(true)) - {frame};
      assert old(frame.used) ==> old(Waiting(false)) - {frame} == old(Waiting(false));
      assert !old(frame.used) ==> old(Waiting(true)) - {frame} == old(Waiting(true));
    }

    /** Saves a frame's page in the file. */
    method WriteOut(frame: BufferFrame)
      requires Valid() && frame in frames && frame.locked
      requires frame.pageId in last && frame.pageId !in loose ==> frame.data == last[frame.pageId]
      modifies this`file, frame`dirty
      ensures Valid() && file == Written(old(file), frame.pageId, frame.data) && !frame.dirty
    {
      hide Holds, Written;
      WrittenPages(file, frame.pageId, frame.data);
      file := Written(file, frame.pageId, frame.data);
      frame.dirty := false;
      assert Waiting(false) == old(Waiting(false)) && Waiting(true) == old(Waiting(true));
    }

    /** Gives a frame to another page. */
    method Reinitialize(frame: BufferFrame, newPageId: nat)
      requires Valid() && frame in frames && frame.locked && !frame.dirty && !Resident(newPageId)
      modifies this`pageFrameMap, frame
      ensures Valid() && frame.pageId == newPageId && frame.locked && !frame.dirty && !frame.used
      ensures frame.data == old(frame.data) && Resident(newPageId) && pageFrameMap[newPageId] == frame
    {
      hide QueuesOk;
      pageFrameMap := pageFrameMap - {frame.pageId};
      frame.dirty, frame.used := false, false;
      frame.pageId := newPageId;
      pageFrameMap := pageFrameMap[newPageId := frame];
      QueuesOkPinned(frame);
    }

    /** A frame that stays pinned waits in no queue. */
    twostate lemma QueuesOkPinned(frame: BufferFrame)
      requires old(QueuesOk()) && frames == old(frames) && frame in frames && frame.locked && old(frame.locked)
      requires unchanged(frames - {frame}) && unchanged(replacementStrategy)
      ensures QueuesOk()
    {
      hide Holds;
      assert Waiting(false) == old(Waiting(false)) && Waiting(true) == old(Waiting(true));
    }

    /** Reads a frame's page from the file. */
    method LoadFromDiskIfExists(frame: BufferFrame)
      requires Valid() && frame in frames && frame.locked
      modifies frame`data
      ensures Valid() && frame.data == Loaded(file, frame.pageId, old(frame.data))
    {
      hide Holds, Loaded;
      frame.data := Loaded(file, frame.pageId, frame.data);
      assert Waiting(false) == old(Waiting(false)) && Waiting(true) == old(Waiting(true));
    }

    /** Looking a page up leaves a null entry behind when it is not there. */
    method GetPageInMemoryOrNull(pageId: nat) returns (frame: BufferFrame?)
      requires Valid()
      modifies `pageFrameMap
      ensures Valid() && frame == (if old(Resident(pageId)) then old(pageFrameMap[pageId]) else null)
      ensures forall p :: Resident(p) <==> old(Resident(p))
      ensures forall p :: Resident(p) ==> pageFrameMap[p] == old(pageFrameMap[p])
    {
      hide QueuesOk;
      if pageId !in pageFrameMap {
        pageFrameMap := pageFrameMap[pageId := null];
      }
      frame := pageFrameMap[pageId];
    }

    /** Finds a frame for a page that is not resident: a free one, or else the next one out, whose page is saved if
        dirty. */
    method FixAbsent(pageId: nat) returns (frame: BufferFrame?)
      requires Valid() && !Resident(pageId)
      modifies this, replacementStrategy, frames
      ensures Valid() && last == old(last) && loose == old(loose)
      ensures frame != null && frame in old(frames) ==> !frame.dirty
      ensures frame == null <==> old(freePages) == [] && forall f :: f in old(frames) ==> old(f.locked)
      ensures frame == null ==> unchanged(this) && unchanged(replacementStrategy) && unchanged(old(frames))
      ensures frame != null ==>
        && frame in frames && frame.locked && frame.pageId == pageId && !frame.used
        && frames == old(frames) + {frame} && unchanged(old(frames) - {frame})
        && (frame in old(frames) ==> old(!frame.locked))
        && (if old(freePages) != [] then fresh(frame) && file == old(file) && unchanged(replacementStrategy)
            else frame in old(frames) && Popped(frame) && freePages == [])
        && frame.data == Loaded(file, pageId, if old(freePages) != [] then old(freePages)[0] else old(frame.data))
        && (old(freePages) != [] ==> freePages == old(freePages)[1..])
        && (frame in old(frames) ==>
              file == if old(frame.dirty) then Written(old(file), old(frame.pageId), old(frame.data)) else old(file))
        && (pageId in last && pageId !in loose ==> frame.data == last[pageId])
    {
      hide Holds, Written, QueuesOk, Waiting;
      if |freePages| > 0 {
        frame := CreateFrame(pageId);
      } else {
        frame := PopFrame();
        if frame == null {
          return;
        }
        if frame.dirty {
          WriteOut(frame);
        }
        Reinitialize(frame, pageId);
      }
      LoadFromDiskIfExists(frame);
    }

    /** Pins a page and hands out its frame. Fails exactly when the page is not resident, no page is free, and every
        frame is pinned. Bytes once unfixed dirty come back, however often the page was evicted and reloaded in
        between. */
    method FixPage(pageId: nat) returns (frame: BufferFrame?)
      requires Valid() && (Resident(pageId) ==> !pageFrameMap[pageId].locked)
      modifies this, replacementStrategy, frames
      ensures Valid() && last == old(last) && loose == old(loose)
      ensures frame == null <==> old(!Resident(pageId) && freePages == [] && forall f :: f in frames ==> f.locked)
      ensures frame == null ==> unchanged(replacementStrategy, `file, `frames, `freePages) && unchanged(old(frames))
      ensures frame != null ==>
        && frame in frames && frame.locked && frame.pageId == pageId && frame.used == old(Resident(pageId))
        && frames == old(frames) + {frame} && unchanged(old(frames) - {frame})
        && (if frame in old(frames) then old(!frame.locked) else fresh(frame))
        && (if old(Resident(pageId)) then frame == old(pageFrameMap[pageId]) && frame.data == old(frame.data)
            else frame.data
                 == Loaded(file, pageId, if old(freePages) != [] then old(freePages)[0] else old(frame.data)))
        && freePages == (if old(Resident(pageId)) || old(freePages) == [] then old(freePages) else old(freePages)[1..])
        && (if old(Resident(pageId)) then frame.dirty == old(frame.dirty) else frame in old(frames) ==> !frame.dirty)
        && file == (if old(!Resident(pageId)) && frame in old(frames) && old(frame.dirty)
                    then Written(old(file), old(frame.pageId), old(frame.data)) else old(file))
        && (old(!Resident(pageId) && freePages == []) ==> Popped(frame))
        && (old(!Resident(pageId) && freePages != []) ==> unchanged(replacementStrategy))
        && (old(Resident(pageId)) ==> Removed(frame))
        && (pageId in last && pageId !in loose ==> frame.data == last[pageId])
    {
      hide Holds, QueuesOk, Waiting;
      frame := GetPageInMemoryOrNull(pageId);
      if frame != null {
        FixResident(frame);
      } else {
        frame := FixAbsent(pageId);
      }
    }

    /** Marks a frame dirty, and notes what its page is to hold from now on. */
    method Mark(frame: BufferFrame, isDirty: bool)
      requires Valid() && frame in frames && frame.locked
      modifies `last, `loose, frame`dirty
      ensures Valid()
      ensures isDirty ==> last == old(last)[frame.pageId := frame.data] && loose == old(loose) - {frame.pageId}
      ensures !isDirty ==> last == old(last)
      ensures frame.dirty == (isDirty || old(frame.dirty))
      ensures !isDirty ==>
        loose == old(loose) + if frame.pageId in last && last[frame.pageId] != frame.data then {frame.pageId} else {}
    {
      hide QueuesOk;
      var pageId := frame.pageId;
      if isDirty {
        frame.dirty := true;
        last, loose := last[pageId := frame.data], loose - {pageId};
      } else if pageId in last && last[pageId] != frame.data {
        loose := loose + {pageId};
      }
    }

    /** Puts a frame in the queue its used flag names. */
    method Release(frame: BufferFrame)
      requires Valid() && frame in frames && frame.locked
      requires frame.pageId in last && frame.pageId !in loose ==> frame.data == last[frame.pageId]
      modifies replacementStrategy, frame`locked
      ensures Valid() && !frame.locked
      ensures replacementStrategy.fifoQueue == old(replacementStrategy.fifoQueue) + if frame.used then [] else [frame]
      ensures replacementStrategy.lruQueue == old(replacementStrategy.lruQueue) + if frame.used then [frame] else []
    {
      hide Holds;
      var fifo, lru := Waiting(false), Waiting(true);
      if frame.used {
        HoldsPushed(replacementStrategy.lruQueue, lru, frame);
      } else {
        HoldsPushed(replacementStrategy.fifoQueue, fifo, frame);
      }
      replacementStrategy.Push(frame);
      frame.locked := false;
      assert Waiting(false) == if frame.used then fifo else fifo + {frame};
      assert Waiting(true) == if frame.used then lru + {frame} else lru;
    }

    /** Gives a page back. A dirty page is from now on what its frame holds. */
    method UnfixPage(frame: BufferFrame, isDirty: bool)
      requires Valid() && frame in frames && frame.locked
      modifies `last, `loose, replacementStrategy, frame`dirty, frame`locked
      ensures Valid() && !frame.locked
      ensures replacementStrategy.fifoQueue == old(replacementStrategy.fifoQueue) + if frame.used then [] else [frame]
      ensures replacementStrategy.lruQueue == old(replacementStrategy.lruQueue) + if frame.used then [frame] else []
      ensures isDirty ==> last == old(last)[frame.pageId := frame.data] && loose == old(loose) - {frame.pageId}
      ensures !isDirty ==> last == old(last)
      ensures frame.dirty == (isDirty || old(frame.dirty))
      ensures !isDirty ==>
        loose == old(loose) + if frame.pageId in last && last[frame.pageId] != frame.data then {frame.pageId} else {}
    {
      hide *;
      Mark(frame, isDirty);
      Release(frame);
    }

    /** The holder of a pinned frame may overwrite its bytes. */
    method Fill(frame: BufferFrame, data: Page)
      requires Valid() && frame in frames && frame.locked
      modifies frame`data
      ensures Valid() && frame.data == data
    {
      hide QueuesOk;
      frame.data := data;
    }

    /** The cache has one frame, which is not pinned. */
    ghost predicate Alone(frame: BufferFrame)
      reads this, replacementStrategy, frames, frame
    {
      Valid() && frames == {frame} && maxFramesInMemory == 1 && !frame.locked
    }

    lemma FrameResident(frame: BufferFrame)
      requires Valid() && frame in frames
      ensures Resident(frame.pageId) && pageFrameMap[frame.pageId] == frame
    {
    }

    /** One use of a page in a cache of one frame. */
    method Visit(frame: BufferFrame, pageId: nat, write: Option<Page>, isDirty: bool)
      requires Alone(frame)
      modifies this, replacementStrategy, frames
      ensures Alone(frame) && frame.pageId == pageId
      ensures frame.dirty == (isDirty || (frame.pageId == old(frame.pageId) && old(frame.dirty)))
      ensures file == if pageId != old(frame.pageId) && old(frame.dirty)
                      then Written(old(file), old(frame.pageId), old(frame.data)) else old(file)
      ensures write.Some? ==> frame.data == write.value
      ensures write == None && pageId == old(frame.pageId) ==> frame.data == old(frame.data)
      ensures write == None && pageId != old(frame.pageId) && pageId < |file| ==> frame.data == file[pageId]
      ensures isDirty ==> last == old(last)[pageId := frame.data] && loose == old(loose) - {pageId}
      ensures !isDirty ==> last == old(last)
      ensures !isDirty ==> loose == old(loose) + if pageId in last && last[pageId] != frame.data then {pageId} else {}
    {
      hide Holds, QueuesOk, FileOk, Written;
      assert Resident(pageId) <==> pageId == frame.pageId by {
        assert Resident(frame.pageId);
      }
      var fixed := FixPage(pageId);
      assert fixed == frame && frames == {frame};
      if write.Some? {
        Fill(frame, write.value);
      }
      UnfixPage(frame, isDirty);
    }

    // ----- the cache as a value

    ghost function Table(): map<BufferFrame, Content>
      reads `frames, frames
    {
      map f | f in frames :: Content(f.pageId, Cached(f.data, f.dirty, f.used, f.locked))
    }

    ghost predicate Shows(c: Cache)
      reads this, replacementStrategy, frames
    {
      && file == c.file && freePages == c.free
      && Represents(Table(), replacementStrategy.fifoQueue, replacementStrategy.lruQueue, c)
    }

    lemma ResidentIs(c: Cache, p: nat)
      requires FramesOk() && Shows(c)
      ensures p in c.slots <==> Resident(p)
      ensures Resident(p) ==> pageFrameMap[p] in frames && pageFrameMap[p].pageId == p
      ensures Resident(p) ==> Table()[pageFrameMap[p]] == Content(p, c.slots[p])
    {
      if p in c.slots {
        assert InTable(Table(), p);
        var f: BufferFrame :| f in Table() && Table()[f].pageId == p;
        assert f in frames && Resident(f.pageId);
      }
      if Resident(p) {
        CachedIn(Table(), c.slots, pageFrameMap[p]);
      }
    }

    lemma NoneWaiting()
      requires QueuesOk() && forall f :: f in frames ==> f.locked
      ensures replacementStrategy.fifoQueue == [] && replacementStrategy.lruQueue == []
    {
      HoldsPopped(replacementStrategy.fifoQueue, Waiting(false));
      HoldsPopped(replacementStrategy.lruQueue, Waiting(true));
    }

    lemma PinnedNotQueued(frame: BufferFrame)
      requires QueuesOk() && frame.locked
      ensures frame !in replacementStrategy.fifoQueue && frame !in replacementStrategy.lruQueue
    {
    }

    /** Fixing a page does to the cache what the cache as a value does. */
    method FixShown(pageId: nat, ghost c: Cache) returns (frame: BufferFrame?, ghost flag: bool)
      requires Valid() && Shows(c) && c.Ok() && !(pageId in c.slots && c.slots[pageId].held)
      modifies this, replacementStrategy, frames
      ensures Valid() && Shows(Step(c, Fix(pageId), flag)) && fresh(frames - old(frames))
      ensures Outcome(c, Fix(pageId)) == if frame == null then None else Some(frame.data)
      ensures last == old(last) && loose == old(loose)
      ensures frame == null <==> old(!Resident(pageId) && freePages == [] && forall f :: f in frames ==> f.locked)
      ensures frame != null && pageId in last && pageId !in loose ==> frame.data == last[pageId]
    {
      hide QueuesOk, FileOk, Holds, Cache.Ok, FixedInstead, Represents, Written, Loaded, Without, Waiting, Step,
           Outcome;
      StepOfFix(c, pageId, false);
      ResidentIs(c, pageId);
      ghost var table, fifo, lru := Table(), replacementStrategy.fifoQueue, replacementStrategy.lruQueue;
      frame := FixPage(pageId);
      flag := frame != null && frame.dirty;
      StepOfFix(c, pageId, flag);
      if frame == null {
        NoneWaiting();
        NothingQueued(table, c);
        SameTable();
      } else {
        TableChanged(frame);
        hide Table;
        if pageId in c.slots {
          FixedAgainShown(table, fifo, lru, c, frame);
        } else if c.free != [] {
          FixedFreshShown(table, fifo, lru, c, frame, pageId, frame.dirty);
        } else {
          PinnedNotQueued(frame);
          FixedInsteadShown(table, fifo, lru, replacementStrategy.fifoQueue, replacementStrategy.lruQueue, c, frame,
                            pageId);
        }
      }
    }

    twostate lemma SameTable()
      requires frames == old(frames) && unchanged(old(frames))
      ensures Table() == old(Table())
    {
    }

    twostate lemma TableChanged(new frame: BufferFrame)
      requires frames == old(frames) + {frame} && unchanged(old(frames) - {frame})
      ensures Table()
              == old(Table())[frame := Content(frame.pageId, Cached(frame.data, frame.dirty, frame.used, frame.locked))]
      ensures frame in old(Table()) <==> frame in old(frames)
    {
    }

    // ----- the events of a run

    /** The pinned frames are those of the pages that are held, with their bytes. */
    ghost predicate Holding(held: map<nat, Page>)
      reads this, frames
      requires FramesOk()
    {
      && (forall p :: p in held <==> Resident(p) && pageFrameMap[p].locked)
      && (forall p :: p in held ==> pageFrameMap[p].data == held[p])
    }

    /** The manager holds what the store and the cache say. */
    ghost predicate Mirrors(store: Store, c: Cache)
      reads this, replacementStrategy, frames
    {
      Valid() && last == store.last && loose == store.loose && store.held == HeldOf(c) && c.Ok() && Shows(c)
    }

    lemma HeldIs(c: Cache)
      requires FramesOk() && Shows(c)
      ensures Holding(HeldOf(c))
    {
      forall p ensures p in HeldOf(c) <==> Resident(p) && pageFrameMap[p].locked {
        ResidentIs(c, p);
      }
      forall p | p in HeldOf(c) ensures pageFrameMap[p].data == HeldOf(c)[p] {
        ResidentIs(c, p);
      }
    }

    ghost function Pinned(): set<BufferFrame>
      reads `frames, frames`locked
    {
      set f | f in frames && f.locked
    }

    /** As many frames are pinned as pages are held. */
    lemma PinnedPages(held: map<nat, Page>)
      requires FramesOk() && Holding(held)
      ensures |Pinned()| == |held|
    {
      forall f | f in Pinned() ensures f.pageId in held && pageFrameMap[f.pageId] == f {
        assert Resident(f.pageId);
      }
      SameSize(held.Keys, Pinned(), pageFrameMap);
    }

    /** A page that is not held cannot be fixed exactly when as many are held as there are frames. */
    lemma FullIff(held: map<nat, Page>, pageId: nat)
      requires FramesOk() && Holding(held) && pageId !in held
      ensures !Resident(pageId) && freePages == [] && (forall f :: f in frames ==> f.locked) <==>
              |held| == maxFramesInMemory
    {
      PinnedPages(held);
      SubsetSize(Pinned(), frames);
      if |held| == maxFramesInMemory {
        assert Pinned() == frames;
      }
      if forall f :: f in frames ==> f.locked {
        assert Pinned() == frames;
      }
    }

    method HandleFix(pageId: nat, ghost store: Store, ghost c: Cache) returns (outcome: Option<Page>, ghost flag: bool)
      requires Mirrors(store, c) && pageId !in store.held
      modifies this, replacementStrategy, frames
      ensures Mirrors(Next(store, Fix(pageId), outcome), Step(c, Fix(pageId), flag)) && fresh(frames - old(frames))
      ensures outcome == Outcome(c, Fix(pageId)) && Answers(store, Fix(pageId), outcome, maxFramesInMemory)
    {
      hide FramesOk, QueuesOk, FileOk, Shows, Cache.Ok, Step, Outcome, HeldOf;
      HeldIs(c);
      HeldSlots(c);
      FullIff(store.held, pageId);
      var frame;
      frame, flag := FixShown(pageId, c);
      outcome := if frame == null then None else Some(frame.data);
      StepOk(c, Fix(pageId), flag);
      HeldNext(store, c, Fix(pageId), flag);
    }

    method HandleUnfix(frame: BufferFrame, isDirty: bool, ghost store: Store, ghost c: Cache)
      requires Mirrors(store, c) && frame in frames && frame.locked
      modifies `last, `loose, replacementStrategy, frame`dirty, frame`locked
      ensures Mirrors(Next(store, Unfix(frame.pageId, isDirty), None), Step(c, Unfix(frame.pageId, isDirty), false))
    {
      hide FramesOk, QueuesOk, FileOk, Represents, Cache.Ok, HeldOf, Step;
      ghost var e := Unfix(frame.pageId, isDirty);
      ghost var table, fifo, lru := Table(), replacementStrategy.fifoQueue, replacementStrategy.lruQueue;
      FrameResident(frame);
      ResidentIs(c, frame.pageId);
      HeldSlots(c);
      StepOk(c, e, false);
      HeldNext(store, c, e, false);
      GivenBackShown(table, fifo, lru, c, frame, isDirty);
      assert fifo + [] == fifo && lru + [] == lru;
      UnfixPage(frame, isDirty);
      TableChanged(frame);
      hide Table;
    }

    method HandleFill(frame: BufferFrame, data: Page, ghost store: Store, ghost c: Cache)
      requires Mirrors(store, c) && frame in frames && frame.locked
      modifies frame`data
      ensures Mirrors(Next(store, Event.Fill(frame.pageId, data), None), Step(c, Event.Fill(frame.pageId, data), false))
    {
      hide FramesOk, QueuesOk, FileOk, Represents, Cache.Ok, HeldOf;
      ghost var e := Event.Fill(frame.pageId, data);
      ghost var table, fifo, lru := Table(), replacementStrategy.fifoQueue, replacementStrategy.lruQueue;
      FrameResident(frame);
      ResidentIs(c, frame.pageId);
      HeldSlots(c);
      StepOk(c, e, false);
      HeldNext(store, c, e, false);
      FilledShown(table, fifo, lru, c, frame, c.slots[frame.pageId].(data := data));
      Fill(frame, data);
      TableChanged(frame);
      hide Table;
    }

    method Handle(e: Event, ghost store: Store, ghost c: Cache) returns (outcome: Option<Page>, ghost flag: bool)
      requires Mirrors(store, c)
      modifies this, replacementStrategy, frames
      ensures Mirrors(Next(store, e, outcome), Step(c, e, flag)) && fresh(frames - old(frames))
      ensures outcome == Outcome(c, e) && Answers(store, e, outcome, maxFramesInMemory)
    {
      hide QueuesOk, FileOk, Holds, Cache.Ok, HeldOf, Shows, FixedAgain, FixedFresh, FixedInstead;
      outcome, flag := None, false;
      ResidentIs(c, e.pageId);
      HeldSlots(c);
      HeldIs(c);
      var held := Resident(e.pageId) && pageFrameMap[e.pageId].locked;
      match e {
        case Fix(pageId) => if !held { outcome, flag := HandleFix(pageId, store, c); }
        case Fill(pageId, data) => if held { HandleFill(pageFrameMap[pageId], data, store, c); }
        case Unfix(pageId, isDirty) => if held { HandleUnfix(pageFrameMap[pageId], isDirty, store, c); }
      }
    }
  }

  // ----- frames and queues against cached pages

  /** What a frame holds: a page with its bytes and flags. */
  datatype Content = Content(pageId: nat, page: Cached)

  ghost predicate InTable(table: map<BufferFrame, Content>, p: nat) {
    exists f: BufferFrame :: f in table && table[f].pageId == p
  }

  ghost predicate SlotsAre(table: map<BufferFrame, Content>, slots: map<nat, Cached>) {
    && (forall f: BufferFrame :: f in table ==> table[f].pageId in slots && slots[table[f].pageId] == table[f].page)
    && (forall p :: p in slots ==> InTable(table, p))
    && (forall f: BufferFrame, g: BufferFrame :: f in table && g in table && table[f].pageId == table[g].pageId ==>
         f == g)
  }

  ghost predicate QueueIs(table: map<BufferFrame, Content>, queue: seq<BufferFrame>, pages: seq<nat>) {
    |queue| == |pages| && forall i :: 0 <= i < |queue| ==> queue[i] in table && table[queue[i]].pageId == pages[i]
  }

  /** The frames hold the cached pages, and the queues hold them in the same order. */
  ghost predicate Represents(table: map<BufferFrame, Content>, fifo: seq<BufferFrame>, lru: seq<BufferFrame>,
                             c: Cache) {
    SlotsAre(table, c.slots) && QueueIs(table, fifo, c.fifo) && QueueIs(table, lru, c.lru)
  }

  lemma NothingQueued(table: map<BufferFrame, Content>, c: Cache)
    requires Represents(table, [], [], c)
    ensures c.fifo == c.lru == []
  {
  }

  /** A frame changes, or comes in addition; the page it had before is gone. */
  lemma SlotsChanged(table: map<BufferFrame, Content>, slots: map<nat, Cached>, slots': map<nat, Cached>,
                     frame: BufferFrame, gone: nat, content: Content)
    requires SlotsAre(table, slots) && Replaced(slots, slots', gone, content.pageId, content.page)
    requires if frame in table then gone == table[frame].pageId else gone == content.pageId
    requires content.pageId in slots ==> frame in table && table[frame].pageId == content.pageId
    ensures SlotsAre(table[frame := content], slots')
  {
    var table' := table[frame := content];
    forall p | p in slots' ensures InTable(table', p) {
      if p == content.pageId {
        assert frame in table' && table'[frame].pageId == p;
      } else {
        assert InTable(table, p);
        var f: BufferFrame :| f in table && table[f].pageId == p;
        assert f in table' && table'[f].pageId == p;
      }
    }
    forall f: BufferFrame | f in table && f != frame
      ensures table[f].pageId != content.pageId && table[f].pageId != gone
    {
      assert table[f].pageId in slots;
    }
  }

  /** A queue without the frame that changes shows the same pages. */
  lemma QueueStays(table: map<BufferFrame, Content>, queue: seq<BufferFrame>, pages: seq<nat>, frame: BufferFrame,
                   content: Content)
    requires QueueIs(table, queue, pages)
    requires frame in queue ==> frame in table && table[frame].pageId == content.pageId
    ensures QueueIs(table[frame := content], queue, pages)
  {
  }

  lemma {:induction false} QueueWithout(table: map<BufferFrame, Content>, queue: seq<BufferFrame>, pages: seq<nat>,
                                        slots: map<nat, Cached>, frame: BufferFrame)
    requires SlotsAre(table, slots) && QueueIs(table, queue, pages) && frame in table
    ensures QueueIs(table, Without(queue, frame), Without(pages, table[frame].pageId))
  {
    if queue != [] {
      assert queue[0] in table && (queue[0] == frame <==> pages[0] == table[frame].pageId);
      QueueWithout(table, queue[1..], pages[1..], slots, frame);
    }
  }

  lemma CachedIn(table: map<BufferFrame, Content>, slots: map<nat, Cached>, frame: BufferFrame)
    requires SlotsAre(table, slots) && frame in table
    ensures table[frame].pageId in slots && slots[table[frame].pageId] == table[frame].page
  {
  }

  lemma FixedAgainShown(table: map<BufferFrame, Content>, fifo: seq<BufferFrame>, lru: seq<BufferFrame>, c: Cache,
                        frame: BufferFrame)
    requires Represents(table, fifo, lru, c) && frame in table
    ensures var Content(p, s) := table[frame];
            && p in c.slots && c.slots[p] == s
            && Represents(table[frame := Content(p, s.(used := true, held := true))],
                          if s.used then fifo else Without(fifo, frame), if s.used then Without(lru, frame) else lru,
                          FixedAgain(c, p))
  {
    hide SlotsAre, QueueIs, Without;
    CachedIn(table, c.slots, frame);
    var Content(p, s) := table[frame];
    var content := Content(p, s.(used := true, held := true));
    SlotsChanged(table, c.slots, FixedAgain(c, p).slots, frame, p, content);
    QueueWithout(table, fifo, c.fifo, c.slots, frame);
    QueueWithout(table, lru, c.lru, c.slots, frame);
    QueueStays(table, fifo, c.fifo, frame, content);
    QueueStays(table, lru, c.lru, frame, content);
    QueueStays(table, Without(fifo, frame), Without(c.fifo, p), frame, content);
    QueueStays(table, Without(lru, frame), Without(c.lru, p), frame, content);
  }

  lemma InQueue(table: map<BufferFrame, Content>, queue: seq<BufferFrame>, pages: seq<nat>, frame: BufferFrame)
    requires QueueIs(table, queue, pages) && frame in queue
    ensures frame in table
  {
  }

  lemma FixedFreshShown(table: map<BufferFrame, Content>, fifo: seq<BufferFrame>, lru: seq<BufferFrame>, c: Cache,
                        frame: BufferFrame, p: nat, flag: bool)
    requires Represents(table, fifo, lru, c) && frame !in table && p !in c.slots && c.free != []
    ensures Represents(table[frame := Content(p, Cached(Loaded(c.file, p, c.free[0]), flag, false, true))], fifo, lru,
                       FixedFresh(c, p, flag))
  {
    hide SlotsAre, QueueIs, Loaded;
    var content := Content(p, Cached(Loaded(c.file, p, c.free[0]), flag, false, true));
    SlotsChanged(table, c.slots, FixedFresh(c, p, flag).slots, frame, p, content);
    if frame in fifo {
      InQueue(table, fifo, c.fifo, frame);
    }
    if frame in lru {
      InQueue(table, lru, c.lru, frame);
    }
    QueueStays(table, fifo, c.fifo, frame, content);
    QueueStays(table, lru, c.lru, frame, content);
  }

  lemma QueueHead(table: map<BufferFrame, Content>, frame: BufferFrame, rest: seq<BufferFrame>, pages: seq<nat>)
    requires QueueIs(table, [frame] + rest, pages)
    ensures pages != [] && frame in table && table[frame].pageId == pages[0] && QueueIs(table, rest, pages[1..])
  {
    var queue := [frame] + rest;
    assert queue[0] == frame;
    forall i | 0 <= i < |rest| ensures rest[i] in table && table[rest[i]].pageId == pages[1..][i] {
      assert queue[i + 1] == rest[i];
    }
  }

  lemma QueueEmpty(table: map<BufferFrame, Content>, queue: seq<BufferFrame>, pages: seq<nat>)
    requires QueueIs(table, queue, pages)
    ensures queue == [] <==> pages == []
  {
  }

  lemma FixedInsteadShown(table: map<BufferFrame, Content>, fifo: seq<BufferFrame>, lru: seq<BufferFrame>,
                          fifo': seq<BufferFrame>, lru': seq<BufferFrame>, c: Cache, frame: BufferFrame, p: nat)
    requires Represents(table, fifo, lru, c) && p !in c.slots && frame !in fifo' && frame !in lru'
    requires if fifo != [] then fifo == [frame] + fifo' && lru' == lru else lru == [frame] + lru' && fifo' == []
    ensures (c.fifo != [] || c.lru != []) && frame in table
    ensures var Content(v, s) := table[frame];
            && Victim(c) == v && v in c.slots && c.slots[v] == s
            && var file := if s.dirty then Written(c.file, v, s.data) else c.file;
               && FixedInstead(c, p).file == file && FixedInstead(c, p).free == c.free && p in FixedInstead(c, p).slots
               && FixedInstead(c, p).slots[p].data == Loaded(file, p, s.data)
               && Represents(table[frame := Content(p, Cached(Loaded(file, p, s.data), false, false, true))], fifo',
                             lru',
                             FixedInstead(c, p))
  {
    hide SlotsAre, QueueIs, Loaded, Written;
    QueueEmpty(table, fifo, c.fifo);
    if fifo != [] {
      QueueHead(table, frame, fifo', c.fifo);
    } else {
      QueueHead(table, frame, lru', c.lru);
    }
    CachedIn(table, c.slots, frame);
    var Content(v, s) := table[frame];
    var c' := FixedInstead(c, p);
    var content := Content(p, Cached(Loaded(c'.file, p, s.data), false, false, true));
    SlotsChanged(table, c.slots, c'.slots, frame, v, content);
    assert QueueIs(table, fifo', c'.fifo) && QueueIs(table, lru', c'.lru);
    QueueStays(table, fifo', c'.fifo, frame, content);
    QueueStays(table, lru', c'.lru, frame, content);
  }

  lemma FilledShown(table: map<BufferFrame, Content>, fifo: seq<BufferFrame>, lru: seq<BufferFrame>, c: Cache,
                    frame: BufferFrame, page: Cached)
    requires Represents(table, fifo, lru, c) && frame in table
    ensures var p := table[frame].pageId;
            && p in c.slots && c.slots[p] == table[frame].page
            && Represents(table[frame := Content(p, page)], fifo, lru, c.(slots := c.slots[p := page]))
  {
    hide SlotsAre, QueueIs;
    CachedIn(table, c.slots, frame);
    var p := table[frame].pageId;
    SlotsChanged(table, c.slots, c.slots[p := page], frame, p, Content(p, page));
    QueueStays(table, fifo, c.fifo, frame, Content(p, page));
    QueueStays(table, lru, c.lru, frame, Content(p, page));
  }

  lemma QueueMore(table: map<BufferFrame, Content>, queue: seq<BufferFrame>, pages: seq<nat>, frame: BufferFrame)
    requires QueueIs(table, queue, pages) && frame in table
    ensures QueueIs(table, queue + [frame], pages + [table[frame].pageId])
  {
  }

  lemma GivenBackShown(table: map<BufferFrame, Content>, fifo: seq<BufferFrame>, lru: seq<BufferFrame>, c: Cache,
                       frame: BufferFrame, isDirty: bool)
    requires Represents(table, fifo, lru, c) && frame in table && table[frame].page.held && c.Ok()
    ensures var Content(p, s) := table[frame];
            && p in c.slots && c.slots[p] == s
            && Step(c, Unfix(p, isDirty), false).file == c.file && Step(c, Unfix(p, isDirty), false).free == c.free
            && Represents(table[frame := Content(p, s.(dirty := s.dirty || isDirty, held := false))],
                          if s.used then fifo else fifo + [frame], if s.used then lru + [frame] else lru,
                          Step(c, Unfix(p, isDirty), false))
  {
    hide SlotsAre, QueueIs, Cache.Ok;
    CachedIn(table, c.slots, frame);
    var Content(p, s) := table[frame];
    var page := s.(dirty := s.dirty || isDirty, held := false);
    FilledShown(table, fifo, lru, c, frame, page);
    QueueMore(table[frame := Content(p, page)], fifo, c.fifo, frame);
    QueueMore(table[frame := Content(p, page)], lru, c.lru, frame);
  }

  /** The pages that are pinned, with their bytes. */
  ghost function HeldOf(c: Cache): map<nat, Page> {
    map p | p in c.slots && c.slots[p].held :: c.slots[p].data
  }

  lemma HeldSlots(c: Cache)
    ensures forall p :: p in HeldOf(c) <==> p in c.slots && c.slots[p].held
    ensures forall p :: p in HeldOf(c) ==> HeldOf(c)[p] == c.slots[p].data
  {
  }

  lemma HeldNext(store: Store, c: Cache, e: Event, flag: bool)
    requires c.Ok() && store.held == HeldOf(c)
    ensures Next(store, e, Outcome(c, e)).held == HeldOf(Step(c, e, flag))
  {
    hide Cache.Ok, FixedAgain, FixedFresh, FixedInstead, HeldOf;
    HeldSlots(c);
    var p := e.pageId;
    if e.Fix? && p !in store.held {
      if p in c.slots {
        HeldAgain(c, p);
      } else if c.free != [] {
        HeldFresh(c, p, flag);
        HeldFresh(c, p, false);
      } else if c.fifo != [] || c.lru != [] {
        HeldInstead(c, p);
      }
    } else if !e.Fix? && p in store.held {
      HeldOther(store, c, e, flag);
    }
  }

  lemma HeldOther(store: Store, c: Cache, e: Event, flag: bool)
    requires c.Ok() && store.held == HeldOf(c) && !e.Fix?
    ensures Next(store, e, None).held == HeldOf(Step(c, e, flag))
  {
    hide Cache.Ok;
  }

  lemma HeldAgain(c: Cache, p: nat)
    requires p in c.slots
    ensures HeldOf(FixedAgain(c, p)) == HeldOf(c)[p := c.slots[p].data]
    ensures p in FixedAgain(c, p).slots && FixedAgain(c, p).slots[p].data == c.slots[p].data
  {
    hide Without;
  }

  lemma HeldFresh(c: Cache, p: nat, flag: bool)
    requires p !in c.slots && c.free != []
    ensures var c' := FixedFresh(c, p, flag);
            p in c'.slots && c'.slots[p].data == Loaded(c.file, p, c.free[0]) &&
              HeldOf(c') == HeldOf(c)[p := c'.slots[p].data]
  {
    hide Loaded;
  }

  lemma HeldInstead(c: Cache, p: nat)
    requires c.Ok() && p !in c.slots && (c.fifo != [] || c.lru != [])
    ensures Victim(c) in c.slots
    ensures var c' := FixedInstead(c, p); p in c'.slots && HeldOf(c') == HeldOf(c)[p := c'.slots[p].data]
  {
    VictimWaits(c);
    hide Loaded, Written, Cache.Ok;
  }

  // ----- whole runs

  /** A plain page store: the last bytes of each page that was given back dirty, or of the file as opened; the pages
      given back as clean after a change since then; and the bytes of the pages that are held. */
  datatype Store = Store(last: map<nat, Page>, loose: set<nat>, held: map<nat, Page>)

  /** What an event makes of the store; the outcome of fixing a page is its bytes, or nothing. Events that fix a held
      page, or fill or give back one that is not held, are passed over. */
  ghost function Next(store: Store, e: Event, outcome: Option<Page>): Store {
    match e
    case Fix(p) =>
      if p in store.held || outcome == None then store else store.(held := store.held[p := outcome.value])
    case Fill(p, data) =>
      if p in store.held then store.(held := store.held[p := data]) else store
    case Unfix(p, isDirty) =>
      if p !in store.held then store
      else if isDirty then Store(store.last[p := store.held[p]], store.loose - {p}, store.held - {p})
      else
        var changed := p in store.last && store.last[p] != store.held[p];
        store.(loose := store.loose + if changed then {p} else {}, held := store.held - {p})
  }

  /** Fixing fails exactly when all frames are held; bytes once given back dirty come back. */
  ghost predicate Answers(store: Store, e: Event, outcome: Option<Page>, frames: nat) {
    e.Fix? && e.pageId !in store.held ==>
      && (outcome == None <==> |store.held| == frames)
      && (outcome.Some? && e.pageId in store.last && e.pageId !in store.loose ==> outcome.value == store.last[e.pageId])
  }

  /** The store in front of event n. */
  ghost function StoreAt(file: seq<Page>, events: seq<Event>, outcomes: seq<Option<Page>>, n: nat): Store
    requires n <= |events| && n <= |outcomes|
  {
    if n == 0 then Store(Opened(file), {}, map[])
    else Next(StoreAt(file, events, outcomes, n - 1), events[n - 1], outcomes[n - 1])
  }

  lemma {:induction false} StoreAtPrefix(file: seq<Page>, events: seq<Event>, outcomes: seq<Option<Page>>,
                                         more: Option<Page>, n: nat)
    requires n <= |events| && n <= |outcomes|
    ensures StoreAt(file, events, outcomes + [more], n) == StoreAt(file, events, outcomes, n)
  {
    if n > 0 {
      StoreAtPrefix(file, events, outcomes, more, n - 1);
    }
  }

  /** Whichever pages are held together and however often pages are evicted, every outcome is that of the cache as a
      value, for some flags that new frames start with; and it is that of a plain page store: a page cannot be fixed
      exactly when every frame is held, and otherwise its last bytes come back. */
  method Replay(pagesInMemory: nat, file: seq<Page>, events: seq<Event>)
    returns (outcomes: seq<Option<Page>>, ghost flags: seq<bool>)
    ensures |outcomes| == |events| == |flags|
    ensures forall i :: 0 <= i < |events| ==>
      outcomes[i] == Outcome(CacheAt(pagesInMemory, file, events, flags, i), events[i])
    ensures forall i :: 0 <= i < |events| ==>
      Answers(StoreAt(file, events, outcomes, i), events[i], outcomes[i], pagesInMemory)
  {
    hide *;
    var manager := new BufferManager(pagesInMemory, file);
    outcomes, flags := [], [];
    Opening(manager, file, events);
    while |outcomes| < |events|
      invariant |outcomes| == |flags| <= |events|
      invariant manager.Mirrors(StoreAt(file, events, outcomes, |outcomes|),
                                CacheAt(pagesInMemory, file, events, flags, |outcomes|))
      invariant manager.maxFramesInMemory == pagesInMemory
      invariant fresh(manager) && fresh(manager.replacementStrategy) && fresh(manager.frames)
      invariant forall i :: 0 <= i < |outcomes| ==>
        outcomes[i] == Outcome(CacheAt(pagesInMemory, file, events, flags, i), events[i])
      invariant forall i :: 0 <= i < |outcomes| ==>
        Answers(StoreAt(file, events, outcomes, i), events[i], outcomes[i], pagesInMemory)
    {
      var n := |outcomes|;
      var outcome, flag := manager.Handle(events[n], StoreAt(file, events, outcomes, n),
                                          CacheAt(pagesInMemory, file, events, flags, n));
      forall i | 0 <= i <= n
        ensures StoreAt(file, events, outcomes + [outcome], i) == StoreAt(file, events, outcomes, i)
        ensures CacheAt(pagesInMemory, file, events, flags + [flag], i) ==
                CacheAt(pagesInMemory, file, events, flags, i)
      {
        StoreAtPrefix(file, events, outcomes, outcome, i);
        CacheAtPrefix(pagesInMemory, file, events, flags, flag, i);
      }
      outcomes, flags := outcomes + [outcome], flags + [flag];
      StoreAtNext(file, events, outcomes, n);
      CacheAtStep(pagesInMemory, file, events, flags, n);
    }
  }

  lemma StoreAtNext(file: seq<Page>, events: seq<Event>, outcomes: seq<Option<Page>>, n: nat)
    requires n < |events| && n < |outcomes|
    ensures StoreAt(file, events, outcomes, n + 1) == Next(StoreAt(file, events, outcomes, n), events[n], outcomes[n])
  {
  }

  lemma Opening(manager: BufferManager, file: seq<Page>, events: seq<Event>)
    requires manager.Valid() && manager.frames == {} && manager.last == Opened(file) && manager.loose == {}
    requires manager.file == file && manager.freePages == seq(manager.maxFramesInMemory, i => ZeroPage())
    requires manager.replacementStrategy.fifoQueue == manager.replacementStrategy.lruQueue == []
    ensures manager.Mirrors(StoreAt(file, events, [], 0), CacheAt(manager.maxFramesInMemory, file, events, [], 0))
  {
    assert forall p :: !manager.Resident(p);
  }

  /** Not so after an unfix that hides a change. While the page stays in its frame the hidden bytes come back. Once the
      frame was written out and given to another page in between, the bytes last unfixed dirty do. */
  method HiddenChange(dirtied: Page, hidden: Page, evict: bool) returns (manager: BufferManager, seen: Page)
    requires dirtied != hidden
    ensures fresh(manager) && manager.Valid() && 0 in manager.last && manager.last[0] == dirtied && manager.loose == {0}
    ensures seen == if evict then dirtied else hidden
    ensures manager.Resident(0) && manager.pageFrameMap[0].data == seen
  {
    hide BufferManager.Valid, Written;
    var frame;
    manager, frame := OneFrame(dirtied);
    WrittenPages([], 0, dirtied);
    if evict {
      manager.Visit(frame, 1, None, false);
    }
    manager.Visit(frame, 0, Some(hidden), false);
    if evict {
      manager.Visit(frame, 1, None, false);
    }
    manager.Visit(frame, 0, None, false);
    seen := frame.data;
    manager.FrameResident(frame);
  }

  /** A cache of one frame, which holds page 0 with dirtied bytes. */
  method OneFrame(dirtied: Page) returns (manager: BufferManager, frame: BufferFrame)
    ensures fresh(manager) && fresh(frame) && fresh(manager.replacementStrategy) && manager.Alone(frame)
    ensures frame.pageId == 0 && frame.dirty && frame.data == dirtied
    ensures manager.file == [] && manager.last == map[0 := dirtied] && manager.loose == {}
  {
    hide BufferManager.QueuesOk, BufferManager.FileOk, Holds, Loaded, Written, Without, ZeroPage;
    manager := new BufferManager(1, []);
    assert |manager.freePages| == 1;
    frame := manager.FixPage(0);
    manager.Fill(frame, dirtied);
    manager.UnfixPage(frame, true);
    assert manager.frames == {frame};
  }

  lemma {:induction false} SameSize(pages: set<nat>, members: set<BufferFrame>, table: map<nat, BufferFrame?>)
    requires forall p :: p in pages ==> p in table && table[p] != null && table[p] in members
    requires forall p, q :: p in pages && q in pages && p != q ==> table[p] != table[q]
    requires forall f :: f in members ==> exists p :: p in pages && table[p] == f
    ensures |pages| == |members|
  {
    if pages == {} {
      assert members == {};
    } else {
      var p :| p in pages;
      SameSize(pages - {p}, members - {table[p]}, table);
    }
  }
}
