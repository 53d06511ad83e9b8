/**
 * Extension helpers shared by the solvers: array deconstruction, row-major
 * traversal of a 2-D array, ranges as integer sequences, and dictionary
 * add-or-update with counters.
 */
module Helpers {
  import opened Wrappers
  import opened Numerics

  const INT_MAX := 0x7FFF_FFFF

  /** `Deconstruct`: the two elements of a two-element array; any other length throws. */
  function Deconstruct<T>(arr: seq<T>): (r: Result<(T, T)>)
    ensures r.Success? <==> |arr| == 2
    ensures r.Success? ==> arr == [r.value.0, r.value.1]
  {
    if |arr| != 2 then Failure(ArgumentException) else Success((arr[0], arr[1]))
  }

  /** The cells of a `rows` by `cols` array, row after row, each row left to right. */
  function CellOrder(rows: nat, cols: nat): (cells: seq<(int, int)>)
    ensures |cells| == rows * cols
    ensures forall k :: 0 <= k < |cells| ==> 0 <= cells[k].0 < rows && 0 <= cells[k].1 < cols
  {
    if rows == 0 then [] else CellOrder(rows - 1, cols) + seq(cols, j => (rows - 1, j))
  }

  /** Cell (i, j) is visited in position `i * cols + j`: every cell once, in row-major order. */
  lemma {:induction false} CellOrderIndex(rows: nat, cols: nat, i: nat, j: nat)
    requires i < rows && j < cols
    ensures i * cols + j < rows * cols
    ensures CellOrder(rows, cols)[i * cols + j] == (i, j)
  {
    var before := CellOrder(rows - 1, cols);
    assert |before| == (rows - 1) * cols;
    if i < rows - 1 {
      CellOrderIndex(rows - 1, cols, i, j);
      assert (rows - 1) * cols <= rows * cols;
    } else {
      assert i * cols == |before|;
    }
  }

  /**
   * `For`: calls the action on every cell of `arr`, the outer loop over the
   * first dimension. The calls are returned, in order, as (index, index, value).
   */
  method For<T>(arr: array2<T>) returns (visits: seq<(int, int, T)>)
    ensures |visits| == arr.Length0 * arr.Length1
    ensures forall k :: 0 <= k < |visits| ==>
      var c := CellOrder(arr.Length0, arr.Length1)[k];
      visits[k] == (c.0, c.1, arr[c.0, c.1])
  {
    visits := [];
    var i0 := 0;
    while i0 < arr.Length0
      invariant 0 <= i0 <= arr.Length0
      invariant |visits| == i0 * arr.Length1
      invariant forall k :: 0 <= k < |visits| ==>
        var c := CellOrder(i0, arr.Length1)[k];
        visits[k] == (c.0, c.1, arr[c.0, c.1])
    {
      ghost var done := visits;
      var i1 := 0;
      while i1 < arr.Length1
        invariant 0 <= i1 <= arr.Length1
        invariant |visits| == |done| + i1 && visits[..|done|] == done
        invariant forall j :: 0 <= j < i1 ==> visits[|done| + j] == (i0, j, arr[i0, j])
      {
        visits := visits + [(i0, i1, arr[i0, i1])];
        i1 := i1 + 1;
      }
      assert CellOrder(i0 + 1, arr.Length1) == CellOrder(i0, arr.Length1) + seq(arr.Length1, j => (i0, j));
      assert (i0 + 1) * arr.Length1 == i0 * arr.Length1 + arr.Length1;
      i0 := i0 + 1;
    }
  }

  /** `AsEnumerable` of a value: the one-element sequence. */
  function Singleton<T>(value: T): (r: seq<T>)
    ensures |r| == 1 && r[0] == value
  {
    [value]
  }

  /** A C# `Index`: `value` counted from the start, or from the end when `fromEnd` (`^value`). */
  datatype Index = Index(value: nat, fromEnd: bool)

  /** A C# `Range` `start..end`. */
  datatype Range = Range(start: Index, end: Index)

  function Offset(i: Index, length: int): int
  {
    if i.fromEnd then length - i.value else i.value
  }

  /** `Range.GetOffsetAndLength`: throws unless 0 <= start <= end <= length. */
  function GetOffsetAndLength(r: Range, length: nat): (res: Result<(int, int)>)
    requires r.start.value <= INT_MAX && r.end.value <= INT_MAX && length <= INT_MAX
    ensures res.Success? <==>
      0 <= Offset(r.start, length) <= Offset(r.end, length) <= length
    ensures res.Success? ==> res.value == (Offset(r.start, length), Offset(r.end, length) - Offset(r.start, length))
  {
    var start := Offset(r.start, length);
    var end := Offset(r.end, length);
    // The source compares as unsigned, which also rejects negative offsets.
    if end < 0 || end > length || start < 0 || start > end then Failure(ArgumentOutOfRangeException)
    else Success((start, end - start))
  }

  /** `AsEnumerable` of a range: the integers from its start up to, not including, its end. */
  function RangeValues(r: Range): (res: Result<seq<int>>)
    requires r.start.value <= INT_MAX && r.end.value <= INT_MAX
    ensures res.Success? <==> 0 <= Offset(r.start, INT_MAX) <= Offset(r.end, INT_MAX) <= INT_MAX
    ensures res.Success? ==>
      |res.value| == Offset(r.end, INT_MAX) - Offset(r.start, INT_MAX) &&
      forall k :: 0 <= k < |res.value| ==> res.value[k] == Offset(r.start, INT_MAX) + k
  {
    match GetOffsetAndLength(r, INT_MAX)
    case Failure(e) => Failure(e)
    case Success((start, count)) => Success(seq(count, k => start + k))
  }

  /** The dictionary after `AddOrUpdate`: the key's value updated if present, else added. */
  function AddedOrUpdated<K, V>(m: map<K, V>, key: K, add: V, update: V -> V): (r: map<K, V>)
    ensures key in r && r[key] == (if key in m then update(m[key]) else add)
    ensures r.Keys == m.Keys + {key}
    ensures forall k :: k in m && k != key ==> r[k] == m[k]
  {
    m[key := if key in m then update(m[key]) else add]
  }

  /** `Increment` on an `int` dictionary: unchecked 32-bit addition, starting from `amount`. */
  function Incremented<K>(m: map<K, int>, key: K, amount: int): (r: map<K, int>)
  {
    AddedOrUpdated(m, key, amount, i => Wrap32(i + amount))
  }

  /** `Decrement`: `Increment` by the negated amount, negated in 32 bits. */
  function Decremented<K>(m: map<K, int>, key: K, amount: int): (r: map<K, int>)
  {
    Incremented(m, key, Wrap32(-amount))
  }

  /** `Increment` on a `long` dictionary: unchecked 64-bit addition. */
  function Incremented64<K>(m: map<K, int>, key: K, amount: int): (r: map<K, int>)
  {
    AddedOrUpdated(m, key, amount, i => Wrap64(i + amount))
  }

  /** An absent key starts at `amount`; a present one gains it; nothing else changes. */
  lemma IncrementCounts<K>(m: map<K, int>, key: K, amount: int)
    requires IsInt32(amount)
    ensures var r := Incremented(m, key, amount);
      && r.Keys == m.Keys + {key}
      && r[key] == (if key in m then Wrap32(m[key] + amount) else amount)
      && (forall k :: k in m && k != key ==> r[k] == m[k])
  {
  }

  /** Incrementing and then decrementing an existing `int` entry by the same amount restores it. */
  lemma IncrementThenDecrement<K>(m: map<K, int>, key: K, amount: int)
    requires key in m && IsInt32(m[key]) && IsInt32(amount)
    ensures Decremented(Incremented(m, key, amount), key, amount) == m
  {
    var v := m[key];
    var half := 0x8000_0000;
    WrapAbsorbs(half, v + amount, -amount);
    WrapAbsorbs(half, -amount, Wrap32(v + amount));
    assert Wrap32(Wrap32(v + amount) + Wrap32(-amount)) == v;
    assert Decremented(Incremented(m, key, amount), key, amount)[key] == v;
  }

  /** A mutable dictionary, the receiver of the `AddOrUpdate` and counter extensions. */
  class Dictionary<K(==), V> {
    var items: map<K, V>

    constructor()
      ensures items == map[]
    {
      items := map[];
    }

    method AddOrUpdate(key: K, add: V, update: V -> V)
      modifies this
      ensures items == AddedOrUpdated(old(items), key, add, update)
    {
      if key in items {
        items := items[key := update(items[key])];
      } else {
        items := items[key := add];
      }
    }
  }

  method Increment<K>(d: Dictionary<K, int>, key: K, amount: int)
    modifies d
    ensures d.items == Incremented(old(d.items), key, amount)
  {
    d.AddOrUpdate(key, amount, i => Wrap32(i + amount));
  }

  method Decrement<K>(d: Dictionary<K, int>, key: K, amount: int)
    modifies d
    ensures d.items == Decremented(old(d.items), key, amount)
  {
    Increment(d, key, Wrap32(-amount));
  }
}
