/**
 Client code that uses only the contracts of the matrix, its accessors and
 its iterators, restating the behaviour the repository's tests assert.
 */
module Scenarios {
  import opened KeyOrder
  import opened SparseMatrix

  /** An unset position reads the default; writing 1 then the default adds and removes its entry. */
  method DefaultReadThenAssign()
  {
    var m := new Matrix<int>(2, 42);
    assert m.Size() == 0 && m.Empty();
    var row := m.Index(0);
    var a := row.Index(0);
    var val := a.valueRef;
    assert val.Get() == 42 && val.Equals(42);
    assert m.Size() == 0;

    val.Assign(1);
    assert val.Get() == 1;
    assert m.Size() == 1;

    val.Assign(42);
    assert val.Get() == 42;
    assert m.Size() == 0 && m.Empty();
  }

  /** Two accessors on the same coordinates see each other's writes. */
  method AliasedAccessors()
  {
    var m := new Matrix<int>(2, 42);
    ChainedIndexingIsAt(m, [0, 0]);
    var first := m.At([0, 0]);
    first.Assign(2);
    var second := m.At([0, 0]);
    var third := m.At([0, 0]);
    second.Assign(4);
    assert third.Get() == 4 && first.Get() == 4;
  }

  /** Assigning from another accessor copies the value it reads. */
  method CopyHolderToHolder()
  {
    var m := new Matrix<int>(2, 42);
    var second := m.At([0, 1]);
    second.Assign(0);
    var copy := m.At([0, 0]);
    copy.AssignFrom(second);
    assert copy.Get() == 0;
    assert m.Size() == 2;
  }

  /** One entry: begin() dereferences to it, ++begin() is end(), --end() is begin(). */
  method SingleEntryIteration()
  {
    var m := new Matrix<int>(2, 42);
    var r := m.At([0, 0]);
    r.Assign(1);
    SortedUnique(m.keys, [[0, 0]]);
    var b := m.Begin();
    var e := m.End();
    assert !b.Equals(e);
    var t := b.Deref();
    assert t == (0, 0, 1);
    var prev := b.PostIncrement();
    var b2 := m.Begin();
    assert prev.Equals(b2);
    assert b.Equals(e);
    var before := e.PostDecrement();
    var e2 := m.End();
    assert before.Equals(e2);
    assert e.Equals(b2);

    // A new entry changes the key sequence: the old iterators no longer apply.
    var r2 := m.At([5, 5]);
    r2.Assign(3);
    assert m.Size() == 2;
    assert !b.Valid() && !e.Valid();
  }

  /** Overwriting the entry an iterator refers to keeps the iterator, which then reads the new value. */
  method OverwriteKeepsIterator()
  {
    var m := new Matrix<int>(2, 42);
    var r := m.At([0, 0]);
    r.Assign(1);
    SortedUnique(m.keys, [[0, 0]]);
    var b := m.Begin();
    r.Assign(7);
    SortedUnique(m.keys, [[0, 0]]);
    assert b.Valid();
    var t := b.Deref();
    assert t == (0, 0, 7);
  }

  /** Two entries traverse in key order: (0, 0, 1) then (0, 1, 2). */
  method TwoEntriesInKeyOrder()
  {
    var m := new Matrix<int>(2, 42);
    var r0 := m.At([0, 0]);
    r0.Assign(1);
    var r1 := m.At([0, 1]);
    r1.Assign(2);
    assert Less([0, 0], [0, 1]);
    SortedUnique(m.keys, [[0, 0], [0, 1]]);
    var entries, steps := Traverse(m);
    assert steps == 2;
    assert entries == [(0, 0, 1), (0, 1, 2)];
  }

  /** Three dimensions: at(0, 1, 2) and [0][1][2] name the same element. */
  method ThreeDimensions()
  {
    var m := new Matrix<int>(3, 0);
    var holder := m.At([0, 1, 2]);
    holder.Assign(222);
    ChainedIndexingIsAt(m, [0, 1, 2]);
    var chained := Chain(m.Index(0), [1, 2]);
    assert chained.valueRef.Get() == 222;
    assert m.Size() == 1;
    holder.Assign(0);
    assert m.Size() == 0;
  }
}
