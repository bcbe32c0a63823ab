/**
 The sparse N-dimensional matrix: the class that owns the backing store, the
 accessor bound to one coordinate tuple (value_ref), the builder that collects
 coordinates one subscript at a time (index_proxy), and the bidirectional
 iterator over the stored entries (matrix_iterator).

 The backing store is the default std::map. Its contents are the field `data`;
 its in-order traversal, which the iterator walks, is the field `keys`. The
 object invariant Valid() ties the two together, and KeyOrder.SortedUnique
 shows that `keys` is then determined by the keys of `data`.
 */
module SparseMatrix {
  import opened KeyOrder
  import Store

  /** The number of dimensions: at least one (a zero-length key type does not exist). */
  type Dimension = n: nat | n >= 1 witness 1

  class Matrix<T(==)> {
    const dims: Dimension
    const defaultValue: T
    var data: map<Coord, T>
    var keys: seq<Coord>

    ghost predicate Valid()
      reads this
    {
      && (forall p :: p in data ==> |p| == dims)
      && StrictlySorted(keys)
      && (forall p :: p in keys <==> p in data)
    }

    /** An empty matrix (the store's constructor is called with no arguments). */
    constructor (dims: Dimension, defaultValue: T)
      ensures Valid()
      ensures this.dims == dims && this.defaultValue == defaultValue
      ensures data == map[] && keys == []
    {
      this.dims := dims;
      this.defaultValue := defaultValue;
      data := map[];
      keys := [];
    }

    /** size(): the number of entries, which is also the number of iterator steps from begin() to end(). */
    function Size(): (n: nat)
      reads this
      requires Valid()
      ensures n == |keys|
    {
      SortedCard(keys);
      assert data.Keys == Elements(keys);
      |data|
    }

    /** empty(): no entries, so begin() and end() are the same position. */
    function Empty(): (b: bool)
      reads this
      requires Valid()
      ensures b <==> Size() == 0
      ensures b <==> keys == []
    {
      |data| == 0
    }

    /** get_or_default: the stored value, or the default when the position has no entry. */
    function GetOrDefault(pos: Coord): (v: T)
      reads this
      ensures pos in data ==> v == data[pos]
      ensures pos !in data ==> v == defaultValue
      ensures Store.Sparse(data, defaultValue) ==> (v == defaultValue <==> pos !in data)
    {
      Store.Lookup(data, defaultValue, pos)
    }

    /** set: insert or overwrite the entry at pos; a default value is stored too. */
    method Set(val: T, pos: Coord)
      requires Valid() && |pos| == dims
      modifies this
      ensures Valid()
      ensures data == Store.Put(old(data), pos, val)
      ensures keys == InsertKey(old(keys), pos)
    {
      data := data[pos := val];
      keys := InsertKey(keys, pos);
    }

    /** erase: remove the entry at pos if there is one; otherwise do nothing. */
    method Erase(pos: Coord)
      requires Valid()
      modifies this
      ensures Valid()
      ensures data == Store.Remove(old(data), pos)
      ensures keys == RemoveKey(old(keys), pos)
    {
      if pos in data {
        data := data - {pos};
        keys := RemoveKey(keys, pos);
      }
    }

    /** at(i0, ..., iN-1): an accessor bound to this matrix and the full tuple. */
    function At(pos: Coord): (r: ValueRef<T>)
      requires |pos| == dims
      ensures r.matrix == this && r.position == pos && r.WellFormed()
    {
      ValueRef(this, pos)
    }

    /** operator[](i): a builder holding the first coordinate, with dims - 1 still to come. */
    function Index(i: nat): (p: IndexProxy<T>)
      ensures p.WellFormed() && p.matrix == this
      ensures p.prefix == [i] && p.order == dims - 1
    {
      IndexProxy(this, [i], dims - 1)
    }

    /** cbegin(): an iterator at the first entry in key order (at end() when empty). */
    method CBegin() returns (it: MatrixIterator<T>)
      requires Valid()
      ensures fresh(it) && it.Valid() && it.matrix == this && it.keysAt == keys && it.pos == 0
    {
      it := new MatrixIterator(this, 0);
    }

    /** begin(): the same position as cbegin(). */
    method Begin() returns (it: MatrixIterator<T>)
      requires Valid()
      ensures fresh(it) && it.Valid() && it.matrix == this && it.keysAt == keys && it.pos == 0
    {
      it := CBegin();
    }

    /** cend(): the one-past-the-last position. */
    method CEnd() returns (it: MatrixIterator<T>)
      requires Valid()
      ensures fresh(it) && it.Valid() && it.matrix == this && it.keysAt == keys && it.pos == |keys|
    {
      it := new MatrixIterator(this, |keys|);
    }

    /** end(): the same position as cend(). */
    method End() returns (it: MatrixIterator<T>)
      requires Valid()
      ensures fresh(it) && it.Valid() && it.matrix == this && it.keysAt == keys && it.pos == |keys|
    {
      it := CEnd();
    }
  }

  /**
   value_ref: a non-owning handle on one coordinate tuple of a matrix. It keeps
   no copy of the value; every read goes back to the store.
   */
  datatype ValueRef<T(==)> = ValueRef(matrix: Matrix<T>, position: Coord) {

    predicate WellFormed()
    {
      |position| == matrix.dims
    }

    /** get() and the conversion to T: what the store holds now at the position, or the default. */
    function Get(): (v: T)
      reads matrix
      ensures position in matrix.data ==> v == matrix.data[position]
      ensures position !in matrix.data ==> v == matrix.defaultValue
    {
      matrix.GetOrDefault(position)
    }

    /** operator==(rhs): whether the position currently reads as rhs. */
    function Equals(rhs: T): (b: bool)
      reads matrix
      ensures b <==> if position in matrix.data then matrix.data[position] == rhs
                     else matrix.defaultValue == rhs
    {
      rhs == Get()
    }

    /**
     operator=(rhs): writing the default erases the entry, anything else is set.
     Afterwards this and every other accessor on the same position read rhs,
     and every other position reads as before.
     */
    method Assign(rhs: T)
      requires matrix.Valid() && WellFormed()
      modifies matrix
      ensures matrix.Valid()
      ensures matrix.data == Store.Write(old(matrix.data), matrix.defaultValue, position, rhs)
      ensures forall r: ValueRef<T> | r.matrix == matrix && r.position == position :: r.Get() == rhs
      ensures forall q :: q != position ==> matrix.GetOrDefault(q) == old(matrix.GetOrDefault(q))
    {
      if rhs == matrix.defaultValue {
        matrix.Erase(position);
      } else {
        matrix.Set(rhs, position);
      }
    }

    /**
     operator=(other) with another accessor on the right: the other accessor is
     read (it converts to T) and that value is assigned as above.
     */
    method AssignFrom(other: ValueRef<T>)
      requires matrix.Valid() && WellFormed()
      modifies matrix
      ensures matrix.Valid()
      ensures matrix.data == Store.Write(old(matrix.data), matrix.defaultValue, position, old(other.Get()))
      ensures Get() == old(other.Get())
    {
      var v := other.Get();
      Assign(v);
    }
  }

  /**
   index_proxy: a partly built coordinate tuple. It holds dims - order
   coordinates; `order` more subscripts complete it.
   */
  datatype IndexProxy<T(==)> = IndexProxy(matrix: Matrix<T>, prefix: Coord, order: nat) {

    predicate WellFormed()
    {
      |prefix| + order == matrix.dims
    }

    /**
     operator[](i): with one coordinate left, the accessor matrix.at(prefix..., i);
     otherwise a builder one coordinate further along.
     */
    function Index(i: nat): (a: Access<T>)
      requires WellFormed() && order >= 1
      ensures a.Ref? <==> order == 1
      ensures a.Ref? ==> a.valueRef.WellFormed() && a.valueRef.matrix == matrix
      ensures a.Ref? ==> a.valueRef.position == prefix + [i]
      ensures a.Proxy? ==> a.proxy.WellFormed() && a.proxy.matrix == matrix && a.proxy.order == order - 1
      ensures a.Proxy? ==> a.proxy.prefix == prefix + [i]
    {
      if order == 1 then Ref(matrix.At(prefix + [i]))
      else Proxy(IndexProxy(matrix, prefix + [i], order - 1))
    }
  }

  /** What a subscript yields: a builder that needs more coordinates, or the accessor. */
  datatype Access<T(==)> = Proxy(proxy: IndexProxy<T>) | Ref(valueRef: ValueRef<T>)

  /** p[rest[0]][rest[1]]...: the subscripts applied one after another. */
  function Chain<T(==)>(p: IndexProxy<T>, rest: seq<nat>): (a: Access<T>)
    requires p.WellFormed() && |rest| <= p.order
    decreases |rest|
  {
    if rest == [] then Proxy(p)
    else
      match p.Index(rest[0])
      case Ref(r) => Ref(r)
      case Proxy(q) => Chain(q, rest[1..])
  }

  /**
   Subscripting accumulates the coordinates left to right: fewer subscripts
   than remain give a builder holding the extended prefix, and exactly as many
   give the accessor on the completed tuple.
   */
  lemma {:induction false} ChainExtendsPrefix<T>(p: IndexProxy<T>, rest: seq<nat>)
    requires p.WellFormed() && |rest| <= p.order
    ensures Chain(p, rest) ==
              if rest != [] && |rest| == p.order then Ref(ValueRef(p.matrix, p.prefix + rest))
              else Proxy(IndexProxy(p.matrix, p.prefix + rest, p.order - |rest|))
    decreases |rest|
  {
    if rest == [] {
      assert p.prefix + rest == p.prefix;
    } else if p.order == 1 {
      assert rest == [rest[0]];
    } else {
      var q := IndexProxy(p.matrix, p.prefix + [rest[0]], p.order - 1);
      ChainExtendsPrefix(q, rest[1..]);
      assert q.prefix + rest[1..] == p.prefix + rest by {
        assert rest == [rest[0]] + rest[1..];
      }
    }
  }

  /** m[i0][i1]...[iN-1] is the accessor m.at(i0, i1, ..., iN-1). */
  lemma ChainedIndexingIsAt<T>(m: Matrix<T>, idx: seq<nat>)
    requires |idx| == m.dims >= 2
    ensures Chain(m.Index(idx[0]), idx[1..]) == Ref(m.At(idx))
  {
    ChainExtendsPrefix(m.Index(idx[0]), idx[1..]);
    assert [idx[0]] + idx[1..] == idx;
  }

  /**
   matrix_iterator: a position in the store's in-order key sequence; pos ==
   |keys| is the end() sentinel. The iterator belongs to the key sequence it
   was made from (keysAt): once set or erase changes that sequence, Valid()
   no longer holds and none of the operations below may be used.
   */
  class MatrixIterator<T(==)> {
    const matrix: Matrix<T>
    ghost const keysAt: seq<Coord>
    var pos: nat

    ghost predicate Valid()
      reads this, matrix
    {
      matrix.Valid() && matrix.keys == keysAt && pos <= |matrix.keys|
    }

    constructor (matrix: Matrix<T>, pos: nat)
      requires matrix.Valid() && pos <= |matrix.keys|
      ensures Valid() && this.matrix == matrix && this.pos == pos && keysAt == matrix.keys
    {
      this.matrix := matrix;
      this.keysAt := matrix.keys;
      this.pos := pos;
    }

    /** The store entry the iterator refers to, or None at end(). */
    function Key(): (k: Store.Option<Coord>)
      reads this, matrix
      requires Valid()
    {
      if pos < |matrix.keys| then Store.Some(matrix.keys[pos]) else Store.None
    }

    /** operator==: two iterators over one store are equal exactly when they refer to the same entry. */
    function Equals(rhs: MatrixIterator<T>): (b: bool)
      reads this, matrix, rhs, rhs.matrix
      requires Valid() && rhs.Valid() && rhs.matrix == matrix
      ensures b <==> Key() == rhs.Key()
    {
      SortedDistinct(matrix.keys);
      pos == rhs.pos
    }

    /**
     operator*: a copy of the entry as (first coordinate, second coordinate,
     value); the entry is one the store holds.
     */
    function Deref(): (t: (nat, nat, T))
      reads this, matrix
      requires Valid() && pos < |matrix.keys| && matrix.dims >= 2
      ensures matrix.keys[pos] in matrix.data && matrix.data[matrix.keys[pos]] == t.2
      ensures matrix.keys[pos][..2] == [t.0, t.1]
      ensures matrix.dims == 2 ==> [t.0, t.1] in matrix.data && matrix.data[[t.0, t.1]] == t.2
    {
      var k := matrix.keys[pos];
      assert |k| == matrix.dims;
      assert matrix.dims == 2 ==> k == [k[0], k[1]];
      (k[0], k[1], matrix.data[k])
    }

    /** Prefix operator++: step to the next entry in key order (or to end()). */
    method Increment()
      requires Valid() && pos < |matrix.keys|
      modifies this
      ensures Valid() && pos == old(pos) + 1
    {
      pos := pos + 1;
    }

    /** Postfix operator++: step forward and return a copy of the old position. */
    method PostIncrement() returns (prev: MatrixIterator<T>)
      requires Valid() && pos < |matrix.keys|
      modifies this
      ensures Valid() && pos == old(pos) + 1
      ensures fresh(prev) && prev.Valid() && prev.matrix == matrix && prev.keysAt == keysAt && prev.pos == old(pos)
    {
      prev := new MatrixIterator(matrix, pos);
      pos := pos + 1;
    }

    /** Prefix operator--: step to the previous entry; from end() this is the last entry. */
    method Decrement()
      requires Valid() && pos > 0
      modifies this
      ensures Valid() && pos == old(pos) - 1
    {
      pos := pos - 1;
    }

    /** Postfix operator--: step back and return a copy of the old position. */
    method PostDecrement() returns (prev: MatrixIterator<T>)
      requires Valid() && pos > 0
      modifies this
      ensures Valid() && pos == old(pos) - 1
      ensures fresh(prev) && prev.Valid() && prev.matrix == matrix && prev.keysAt == keysAt && prev.pos == old(pos)
    {
      prev := new MatrixIterator(matrix, pos);
      pos := pos - 1;
    }
  }

  /** The triples operator* yields at each key of `keys`, in that order. */
  function Triples<T>(keys: seq<Coord>, data: map<Coord, T>): (r: seq<(nat, nat, T)>)
    requires forall k :: k in keys ==> k in data && |k| >= 2
    ensures |r| == |keys|
    decreases |keys|
  {
    if keys == [] then []
    else
      var k := keys[|keys| - 1];
      Triples(keys[..|keys| - 1], data) + [(k[0], k[1], data[k])]
  }

  lemma {:induction false} TriplesAt<T>(keys: seq<Coord>, data: map<Coord, T>, i: nat)
    requires forall k :: k in keys ==> k in data && |k| >= 2
    requires i < |keys|
    ensures Triples(keys, data)[i] == (keys[i][0], keys[i][1], data[keys[i]])
    decreases |keys|
  {
    if i < |keys| - 1 {
      TriplesAt(keys[..|keys| - 1], data, i);
    }
  }

  /**
   A full traversal of a two-dimensional matrix yields each stored entry exactly
   once: the triples are in increasing key order (so none repeats), there are
   size() of them, and a triple occurs exactly when its entry is stored.
   */
  lemma TraversalVisitsEachEntryOnce<T>(keys: seq<Coord>, data: map<Coord, T>)
    requires StrictlySorted(keys)
    requires forall k :: k in keys <==> k in data
    requires forall k :: k in data ==> |k| == 2
    ensures |Triples(keys, data)| == |data|
    ensures forall i, j :: 0 <= i < j < |Triples(keys, data)| ==>
              Less([Triples(keys, data)[i].0, Triples(keys, data)[i].1],
                   [Triples(keys, data)[j].0, Triples(keys, data)[j].1])
    ensures forall x: nat, y: nat, v: T :: (x, y, v) in Triples(keys, data) <==> [x, y] in data && data[[x, y]] == v
  {
    var t := Triples(keys, data);
    SortedCard(keys);
    assert data.Keys == Elements(keys);
    forall i | 0 <= i < |t|
      ensures [t[i].0, t[i].1] == keys[i]
    {
      TriplesAt(keys, data, i);
      assert keys[i] == [keys[i][0], keys[i][1]];
    }
    forall x: nat, y: nat, v: T
      ensures (x, y, v) in t <==> [x, y] in data && data[[x, y]] == v
    {
      if (x, y, v) in t {
        var i :| 0 <= i < |t| && t[i] == (x, y, v);
        TriplesAt(keys, data, i);
      }
      if [x, y] in data && data[[x, y]] == v {
        var i :| 0 <= i < |keys| && keys[i] == [x, y];
        TriplesAt(keys, data, i);
        assert t[i] == (x, y, v);
      }
    }
  }

  /**
   A range-based for loop over the matrix: from begin(), dereference and
   increment until the iterator equals end(). It takes exactly size() steps
   and yields the triples of all entries in key order.
   */
  method Traverse<T(==)>(m: Matrix<T>) returns (entries: seq<(nat, nat, T)>, steps: nat)
    requires m.Valid() && m.dims >= 2
    ensures steps == m.Size()
    ensures entries == Triples(m.keys, m.data)
  {
    var it := m.Begin();
    var last := m.End();
    entries, steps := [], 0;
    while !it.Equals(last)
      invariant it.Valid() && it.matrix == m && last.Valid() && last.matrix == m
      invariant last.pos == |m.keys| && it != last
      invariant steps == it.pos
      invariant entries == Triples(m.keys[..it.pos], m.data)
      decreases |m.keys| - it.pos
    {
      var t := it.Deref();
      assert m.keys[..it.pos + 1][..it.pos] == m.keys[..it.pos];
      entries := entries + [t];
      it.Increment();
      steps := steps + 1;
    }
    assert m.keys[..it.pos] == m.keys;
  }
}
