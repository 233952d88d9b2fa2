/** Leaves and inner nodes edited in place, in the entry array of their page. Each edit does to the array what the
    functions of BTreePages do to its value. */
module BTreeFrames {
  import opened Basics
  import opened EntriesHelper
  import opened BTreePages

  method ShiftRight(entries: array<Slot>, from: nat, keyCount: nat)
    requires from <= keyCount < entries.Length
    modifies entries
    ensures entries[..] == MoveEntriesToRight(old(entries[..]), from, keyCount)
  {
    forall i | from < i <= keyCount {
      entries[i] := entries[i - 1];
    }
  }

  /** A start past the end asks for a negative length. */
  method ShiftLeft(entries: array<Slot>, from: nat, keyCount: nat) returns (outcome: Result<()>)
    requires 1 <= from && keyCount <= entries.Length
    modifies entries
    ensures outcome.Success? <==> MoveEntriesToLeft(old(entries[..]), from, keyCount).Success?
    ensures outcome.Success? ==> entries[..] == MoveEntriesToLeft(old(entries[..]), from, keyCount).value
    ensures outcome.Failure? ==> outcome.error == MemoryFault && entries[..] == old(entries[..])
  {
    if from > keyCount {
      return Failure(MemoryFault);
    }
    forall i | from - 1 <= i < keyCount - 1 {
      entries[i] := entries[i + 1];
    }
    return Success(());
  }

  /** Copies entries[from..from + count) to the start of another array. */
  method CopyEntries(target: array<Slot>, source: array<Slot>, from: nat, count: nat)
    requires from + count <= source.Length && count <= target.Length && target != source
    modifies target
    ensures target[..] == source[from..from + count] + old(target[count..])
  {
    forall i | 0 <= i < count {
      target[i] := source[from + i];
    }
  }

  class LeafFrame {
    var keyCount: nat
    var previous: Option<PageId>
    var next: Option<PageId>
    const entries: array<Slot>

    ghost function View(): Leaf
      reads this, entries
    {
      Leaf(keyCount, entries[..], previous, next)
    }

    constructor (size: nat, previous: Option<PageId>, next: Option<PageId>)
      ensures View() == Leaf(0, Unwritten(size), previous, next) && fresh(entries)
    {
      this.keyCount, this.previous, this.next := 0, previous, next;
      entries := new Slot[size](i => Slot(None, 0));
      new;
      assert entries[..] == Unwritten(size);
    }

    /** A refused key leaves the page as it was. */
    method InsertDefiniteFit(key: int, tid: nat) returns (outcome: Result<()>)
      requires keyCount < entries.Length && Sorted(entries[..], 0, keyCount)
      modifies this, entries
      ensures outcome.Success? ==> old(View().InsertDefiniteFit(key, tid)) == Success(View())
      ensures outcome.Failure? ==>
        old(View().InsertDefiniteFit(key, tid)) == Failure(outcome.error) && View() == old(View())
    {
      hide MoveEntriesToRight, Sorted, FindInsertPosition;
      match FindInsertPosition(entries[..], key, 0, keyCount) {
        case Failure(e) =>
          return Failure(e);
        case Success(insertPosition) =>
          ShiftRight(entries, insertPosition, keyCount);
          entries[insertPosition] := Slot(Some(key), tid);
          keyCount := keyCount + 1;
          return Success(());
      }
    }

    /** Takes the key's entry out; fails like the erasure on the value does. */
    method Erase(key: int) returns (outcome: Result<()>)
      requires keyCount < entries.Length && Sorted(entries[..], 0, keyCount)
      modifies this, entries
      ensures outcome.Success? <==> old(View().HasKey(key))
      ensures outcome.Failure? ==> View() == old(View())
      ensures outcome.Failure? ==> outcome.error == if old(View().PastHit(key)) then MemoryFault else KeyNotFound
      ensures outcome.Success? ==>
        exists p :: 0 <= p < old(keyCount) && old(entries[..])[p].key == Some(key) && View() == old(View()).Without(p)
    {
      hide MoveEntriesToLeft, Sorted, Leaf.Without;
      ghost var before := View();
      var keyPosition := SearchKeyPosition(entries[..], key, 0, keyCount);
      if keyPosition < 0 {
        return Failure(KeyNotFound);
      }
      assert keyPosition < keyCount ==> before.HasKey(key);
      var moved := ShiftLeft(entries, keyPosition + 1, keyCount);
      if moved.Failure? {
        return moved;
      }
      keyCount := keyCount - 1;
      before.MovedIsWithout(keyPosition);
      assert View() == before.Without(keyPosition);
      return Success(());
    }

    /** Moves the upper half to a new leaf behind this one. */
    method Split(leafPageId: PageId, newPageId: PageId) returns (newLeaf: LeafFrame, splitKey: int)
      requires 2 <= keyCount < entries.Length && Sorted(entries[..], 0, keyCount)
      modifies this
      ensures fresh(newLeaf) && fresh(newLeaf.entries)
      ensures (View(), splitKey, newLeaf.View()) == SplitOuter(old(View()), leafPageId, newPageId)
    {
      newLeaf := new LeafFrame(entries.Length, Some(leafPageId), None);
      var arraySplitIndex := keyCount / 2;
      var splitLength := keyCount - arraySplitIndex;
      splitKey := entries[arraySplitIndex].key.value;
      next := Some(newPageId);
      ghost var rest := newLeaf.entries[splitLength..];
      assert rest == Unwritten(entries.Length - splitLength);
      CopyEntries(newLeaf.entries, entries, arraySplitIndex, splitLength);
      keyCount := arraySplitIndex;
      newLeaf.keyCount := splitLength;
    }
  }

  class NodeFrame {
    var keyCount: nat
    const entries: array<Slot>

    ghost function View(): InnerNode
      reads this, entries
    {
      InnerNode(keyCount, entries[..])
    }

    constructor (size: nat)
      ensures View() == InnerNode(0, Unwritten(size)) && fresh(entries)
    {
      keyCount := 0;
      entries := new Slot[size](i => Slot(None, 0));
      new;
      assert entries[..] == Unwritten(size);
    }

    method InsertDefiniteFit(key: int, leftValue: PageId, rightValue: PageId) returns (outcome: Result<()>)
      requires keyCount + 1 < entries.Length && Sorted(entries[..], 1, keyCount + 1)
      modifies this, entries
      ensures outcome.Success? ==> old(View().InsertDefiniteFit(key, leftValue, rightValue)) == Success(View())
      ensures outcome.Failure? ==>
        old(View().InsertDefiniteFit(key, leftValue, rightValue)) == Failure(outcome.error) && View() == old(View())
    {
      hide MoveEntriesToRight, Sorted, FindInsertPosition;
      match FindInsertPosition(entries[..], key, 1, keyCount + 1) {
        case Failure(e) =>
          return Failure(e);
        case Success(insertPosition) =>
          ShiftRight(entries, insertPosition, keyCount + 1);
          entries[insertPosition] := Slot(Some(key), rightValue);
          entries[insertPosition - 1] := Slot(entries[insertPosition - 1].key, leftValue);
          keyCount := keyCount + 1;
          return Success(());
      }
    }

    /** Copies the upper half, from the middle child on, to a new node. */
    method Split() returns (newNode: NodeFrame, splitKey: int)
      requires 2 <= keyCount < entries.Length && Sorted(entries[..], 1, keyCount + 1)
      modifies this
      ensures fresh(newNode) && fresh(newNode.entries)
      ensures (View(), splitKey, newNode.View()) == SplitNode(old(View()))
    {
      newNode := new NodeFrame(entries.Length);
      var keysHalf := keyCount / 2;
      var newKeysCount := keyCount - keysHalf;
      splitKey := entries[keysHalf + 1].key.value;
      ghost var rest := newNode.entries[newKeysCount + 1..];
      assert rest == Unwritten(entries.Length - 1 - newKeysCount);
      CopyEntries(newNode.entries, entries, keysHalf, newKeysCount + 1);
      keyCount := keysHalf;
      newNode.keyCount := newKeysCount;
    }
  }
}
