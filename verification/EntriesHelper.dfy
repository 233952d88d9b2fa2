/** Binary searches and shifts over the entry arrays of tree pages. */
module EntriesHelper {
  import opened Basics

  datatype Error =
    | InvalidArgument      // lower search bound above the upper one
    | KeyExists            // "Key already exists"
    | KeyNotFound          // "Key not found"
    | MemoryFault          // memmove with a negative length

  datatype Result<+T> = Success(value: T) | Failure(error: Error)

  /** One element of an entry array. A key is an integer: its rank in the comparator's order.
      `None` is memory that was never written, which never compares equal to a key. */
  datatype Slot = Slot(key: Option<int>, value: nat)

  /** entries[lo..hi) holds keys in strictly increasing order. */
  ghost predicate Sorted(entries: seq<Slot>, lo: int, hi: int) {
    && 0 <= lo && hi <= |entries|
    && (forall i :: lo <= i < hi ==> entries[i].key.Some?)
    && (forall i, j :: lo <= i < j < hi ==> entries[i].key.value < entries[j].key.value)
  }

  /** The comparator's test on a slot; unwritten memory compares as not smaller. */
  predicate SlotSmaller(slot: Slot, key: int) {
    slot.key.Some? && slot.key.value < key
  }

  ghost predicate AllSmaller(entries: seq<Slot>, lo: int, hi: int, key: int)
    requires 0 <= lo && hi <= |entries|
  {
    forall i :: lo <= i < hi ==> SlotSmaller(entries[i], key)
  }

  /** Finds a key in entries[min..max). The upper bound is inclusive in the search, so the slot one past the
      range is hit as well when it happens to hold the key and every key in the range is smaller. */
  method SearchKeyPosition(entries: seq<Slot>, key: int, min: int, max: int) returns (position: int)
    requires 0 <= min <= max < |entries|
    requires Sorted(entries, min, max)
    ensures position == -1 || min <= position <= max
    ensures position >= 0 ==> entries[position].key == Some(key)
    ensures position == max ==> AllSmaller(entries, min, max, key)
    ensures position == -1 ==> forall i :: min <= i < max ==> entries[i].key != Some(key)
    ensures position == -1 ==> !(entries[max].key == Some(key) && AllSmaller(entries, min, max, key))
  {
    var lo, hi := min, max;
    while hi >= lo
      invariant min <= lo <= max + 1 && lo - 1 <= hi <= max
      invariant AllSmaller(entries, min, if lo < max then lo else max, key)
      invariant forall i :: hi < i < max ==> key < entries[i].key.value
      invariant hi + 1 == max || lo == max + 1 ==> entries[max].key != Some(key)
      decreases hi - lo
    {
      var mid := (hi + lo) / 2;
      if entries[mid].key == Some(key) {
        return mid;
      } else if SlotSmaller(entries[mid], key) {
        lo := mid + 1;
      } else {
        hi := mid - 1;
      }
    }
    assert hi + 1 < max ==> !SlotSmaller(entries[hi + 1], key);
    return -1;
  }

  /** The slot whose value is followed for a key: the last of min..max whose key is not above it, or min - 1. */
  function ChildSlot(entries: seq<Slot>, key: int, min: int, max: int): (i: int)
    requires 1 <= min && min - 1 <= max < |entries|
    requires Sorted(entries, min, max + 1)
    ensures min - 1 <= i <= max
    ensures i >= min ==> entries[i].key.value <= key
    ensures i < max ==> key < entries[i + 1].key.value
    decreases max
  {
    if max < min then min - 1
    else if entries[max].key.value <= key then max
    else ChildSlot(entries, key, min, max - 1)
  }

  lemma ChildSlotUnique(entries: seq<Slot>, key: int, min: int, max: int, i: int)
    requires 1 <= min && min - 1 <= i <= max < |entries|
    requires Sorted(entries, min, max + 1)
    requires i >= min ==> entries[i].key.value <= key
    requires i < max ==> key < entries[i + 1].key.value
    ensures ChildSlot(entries, key, min, max) == i
  {
  }

  /** The directing search of an inner node, correct although its bounds may cross. */
  method FindDirectionValue(entries: seq<Slot>, key: int, min: int, max: int) returns (value: Result<nat>)
    requires 1 <= min && max < |entries|
    requires Sorted(entries, min, max + 1)
    ensures min > max ==> value == Failure(InvalidArgument)
    ensures min <= max ==> value == Success(entries[ChildSlot(entries, key, min, max)].value)
  {
    if min > max {
      return Failure(InvalidArgument);
    }
    var lo, hi := min, max;
    while hi > lo
      invariant min <= lo <= max && lo - 1 <= hi <= max
      invariant forall i :: min <= i < lo ==> entries[i].key.value < key
      invariant forall i :: hi < i <= max ==> key < entries[i].key.value
      decreases hi - lo
    {
      var mid := (hi + lo) / 2;
      if entries[mid].key.value == key {
        ChildSlotUnique(entries, key, min, max, mid);
        return Success(entries[mid].value);
      } else if entries[mid].key.value < key {
        lo := mid + 1;
      } else {
        hi := mid - 1;
      }
    }
    if key < entries[lo].key.value {
      ChildSlotUnique(entries, key, min, max, lo - 1);
      return Success(entries[lo - 1].value);
    } else {
      ChildSlotUnique(entries, key, min, max, lo);
      return Success(entries[lo].value);
    }
  }

  /** Start of a range scan: the first key that is not smaller, or the one just before it. */
  method FindPosition(entries: seq<Slot>, key: int, min: int, max: int) returns (position: Result<int>)
    requires 0 <= min && max <= |entries|
    requires Sorted(entries, min, max)
    ensures min > max ==> position == Failure(InvalidArgument)
    ensures min <= max ==> position.Success? && min <= position.value <= max
                           && AllSmaller(entries, min, position.value, key)
                           && forall i :: position.value < i < max ==> key <= entries[i].key.value
  {
    if min > max {
      return Failure(InvalidArgument);
    }
    var lo, hi := min, max;
    while lo < hi
      invariant min <= lo <= max && hi <= max
      invariant AllSmaller(entries, min, lo, key)
      invariant forall i :: min <= i && hi < i < max ==> key <= entries[i].key.value
      decreases hi - lo
    {
      var mid := (hi + lo) / 2;
      if SlotSmaller(entries[mid], key) {
        lo := mid + 1;
      } else {
        hi := mid - 1;
      }
    }
    return Success(lo);
  }

  /** std::lower_bound over entries[min..max). */
  function LowerBound(entries: seq<Slot>, key: int, min: int, max: int): (pos: int)
    requires 0 <= min <= max <= |entries|
    requires Sorted(entries, min, max)
    ensures min <= pos <= max
    ensures AllSmaller(entries, min, pos, key)
    ensures forall i :: pos <= i < max ==> key <= entries[i].key.value
    decreases max - min
  {
    if min == max || key <= entries[min].key.value then min else LowerBound(entries, key, min + 1, max)
  }

  /** The insert position. The duplicate test looks at the found slot even when that is one past the range. */
  function FindInsertPosition(entries: seq<Slot>, key: int, min: int, max: int): (pos: Result<int>)
    requires 0 <= min <= max < |entries|
    requires Sorted(entries, min, max)
    ensures pos.Failure? <==> min != max && ((exists i :: min <= i < max && entries[i].key == Some(key))
                              || (entries[max].key == Some(key) && AllSmaller(entries, min, max, key)))
    ensures pos.Failure? ==> pos.error == KeyExists
    ensures pos.Success? ==> min <= pos.value <= max && AllSmaller(entries, min, pos.value, key)
                             && forall i :: pos.value <= i < max ==> key < entries[i].key.value
  {
    var p := LowerBound(entries, key, min, max);
    if entries[p].key == Some(key) && min != max then Failure(KeyExists) else Success(p)
  }

  /** memmove of entries[from..keyCount) one slot to the right. */
  function MoveEntriesToRight(entries: seq<Slot>, from: int, keyCount: int): (moved: seq<Slot>)
    requires 0 <= from <= keyCount < |entries|
    ensures |moved| == |entries|
    ensures forall i :: 0 <= i < |entries| ==> moved[i] == if from < i <= keyCount then entries[i - 1] else entries[i]
  {
    entries[..from + 1] + entries[from..keyCount] + entries[keyCount + 1..]
  }

  /** memmove of entries[from..keyCount) one slot to the left; a start past the end gives a negative length. */
  function MoveEntriesToLeft(entries: seq<Slot>, from: int, keyCount: int): (moved: Result<seq<Slot>>)
    requires 1 <= from && keyCount <= |entries|
    ensures moved.Failure? <==> from > keyCount
    ensures moved.Failure? ==> moved.error == MemoryFault
    ensures moved.Success? ==> |moved.value| == |entries|
    ensures moved.Success? ==> forall i :: 0 <= i < |entries| ==>
      moved.value[i] == if from - 1 <= i < keyCount - 1 then entries[i + 1] else entries[i]
  {
    if from > keyCount then Failure(MemoryFault)
    else Success(entries[..from - 1] + entries[from..keyCount] + entries[keyCount - 1..])
  }
}
