/** Client-side uses of SimpleVector, proved from the class's contracts
    alone: the usage scenarios the container is designed for. */
module Scenarios {
  import opened SimpleVectors
  import opened Comparison

  /** Appending 1, 2, 3 to an empty vector: the elements read back in order,
      and the capacity grows 0 -> 1 -> 2 -> 4. */
  method AppendThree() returns (contents: seq<int>, capacities: seq<nat>)
    ensures contents == [1, 2, 3]
    ensures capacities == [0, 1, 2, 4]
  {
    var v := new SimpleVector<int>();
    capacities := [v.GetCapacity()];
    v.PushBack(1);
    capacities := capacities + [v.GetCapacity()];
    v.PushBack(2);
    capacities := capacities + [v.GetCapacity()];
    v.PushBack(3);
    capacities := capacities + [v.GetCapacity()];
    contents := v.elements[..v.size];
  }

  /** Inserting 99 at the position of 6 in [5, 6, 7]. */
  method InsertBeforeSix() returns (contents: seq<int>, position: nat)
    ensures contents == [5, 99, 6, 7] && position == 1
  {
    var v := new SimpleVector.FromList([5, 6, 7]);
    position := v.Insert(1, 99);
    contents := v.elements[..v.size];
  }

  /** Checked access past the end of [1, 2, 3] reports out-of-range and
      leaves the vector as it was. */
  method AtPastTheEnd() returns (r: AtResult<int>, contents: seq<int>)
    ensures r == OutOfRange && contents == [1, 2, 3]
  {
    var v := new SimpleVector.FromList([1, 2, 3]);
    r := v.At(5);
    contents := v.elements[..v.size];
  }

  /** Two vectors built from the same list are equal and neither is less
      than the other. */
  method SameListCompares() returns (equal: bool, less: bool, greater: bool)
    ensures equal && !less && !greater
  {
    var a := new SimpleVector.FromList([4, 1, 3]);
    var b := new SimpleVector.FromList([4, 1, 3]);
    var lt := (x: int, y: int) => x < y;
    equal := Equal(a.elements[..a.size], b.elements[..b.size]);
    less := Less(a.elements[..a.size], b.elements[..b.size], lt);
    greater := Greater(a.elements[..a.size], b.elements[..b.size], lt);
    LessIrreflexive([4, 1, 3], lt);
  }

  /** A copy is equal to its source but independent of it: writing into the
      copy leaves the source as it was. */
  method CopyIsIndependent() returns (source: seq<int>, copy: seq<int>, equalAtFirst: bool)
    ensures equalAtFirst
    ensures source == [1, 2] && copy == [7, 2]
  {
    var v := new SimpleVector.FromList([1, 2]);
    var w := new SimpleVector.Copy(v);
    equalAtFirst := Equal(v.elements[..v.size], w.elements[..w.size]);
    w.Set(0, 7);
    source := v.elements[..v.size];
    copy := w.elements[..w.size];
  }

  /** Move assignment as written exchanges the two states: the destination
      gets the source's elements and the source the destination's. */
  method MoveAssignExchanges() returns (destination: seq<int>, source: seq<int>, sourceCapacity: nat)
    ensures destination == [1, 2, 3]
    ensures source == [9] && sourceCapacity == 1
  {
    var d := new SimpleVector.FromList([9]);
    var s := new SimpleVector.FromList([1, 2, 3]);
    d.MoveAssign(s);
    destination := d.elements[..d.size];
    source := s.elements[..s.size];
    sourceCapacity := s.GetCapacity();
  }

  /** Resize within capacity, then again: kept prefix, then `Type{}` (0). */
  method ResizeTwice() returns (contents: seq<int>)
    ensures contents == [1, 0, 0]
  {
    var v := new SimpleVector.FromList([1, 2, 3, 4]);
    v.Resize(1, 0);
    v.Resize(3, 0);
    contents := v.elements[..v.size];
  }

  /** Inserting a copy of the vector's own second element at the front, with
      room to spare: [1, 2] becomes [2, 1, 2]. */
  method InsertOwnElement() returns (contents: seq<int>)
    ensures contents == [2, 1, 2]
  {
    var v := new SimpleVector.FromList([1, 2]);
    v.Reserve(3);
    var x := v.Get(1);
    var position := v.Insert(0, x);
    contents := v.elements[..v.size];
  }

  /** A vector built from a reserve hint takes appends into the reserved
      buffer: no reallocation before the hinted capacity is reached. */
  method ReservedThenAppend() returns (contents: seq<int>, capacity: nat)
    ensures contents == [7, 8] && capacity == 4
  {
    var v := new SimpleVector.FromProxy(SimpleVectors.Reserve(4));
    v.PushBack(7);
    v.PushBack(8);
    contents := v.elements[..v.size];
    capacity := v.GetCapacity();
  }

  /** A moved-from vector is empty and can be used again. */
  method MovedFromIsReusable() returns (moved: seq<int>, source: seq<int>)
    ensures moved == [1, 2] && source == [3]
  {
    var s := new SimpleVector.FromList([1, 2]);
    var m := new SimpleVector.Moved(s);
    s.PushBack(3);
    moved := m.elements[..m.size];
    source := s.elements[..s.size];
  }
}
