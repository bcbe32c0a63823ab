/**
 The abstract state of the sparse store, a finite map from coordinate tuples
 to values, and the transitions the matrix performs on it: the lookup with a
 fallback to the default value, insert-or-overwrite, erase-if-present, and the
 accessor's write, which erases when the written value is the default.
 */
module Store {
  import opened KeyOrder

  datatype Option<T> = None | Some(value: T)

  /** The stored value at p, or the default when p has no entry. */
  function Lookup<T>(d: map<Coord, T>, dflt: T, p: Coord): (v: T)
  {
    if p in d then d[p] else dflt
  }

  /** No entry records the default value. */
  ghost predicate Sparse<T>(d: map<Coord, T>, dflt: T)
  {
    forall p :: p in d ==> d[p] != dflt
  }

  /** insert_or_assign: p is mapped to v, whether or not it had an entry. */
  function Put<T>(d: map<Coord, T>, p: Coord, v: T): (r: map<Coord, T>)
    ensures p in r && r[p] == v
    ensures forall q :: q != p ==> (q in r <==> q in d)
    ensures forall q :: q != p && q in d ==> r[q] == d[q]
    ensures |r| == if p in d then |d| else |d| + 1
  {
    d[p := v]
  }

  /** find-then-erase: p loses its entry if it has one; otherwise nothing changes. */
  function Remove<T>(d: map<Coord, T>, p: Coord): (r: map<Coord, T>)
    ensures p !in r
    ensures forall q :: q in r <==> q in d && q != p
    ensures forall q :: q in r ==> r[q] == d[q]
    ensures |r| == if p in d then |d| - 1 else |d|
    ensures p !in d ==> r == d
  {
    if p in d then
      assert (d - {p}).Keys == d.Keys - {p};
      d - {p}
    else
      d
  }

  /**
   An assignment through an accessor: writing the default deletes the entry,
   any other value is inserted or overwritten. Afterwards the position reads
   back exactly what was written, every other position reads as before, and a
   store with no default-valued entry keeps that property.
   */
  function Write<T(==)>(d: map<Coord, T>, dflt: T, p: Coord, v: T): (r: map<Coord, T>)
    ensures Lookup(r, dflt, p) == v
    ensures p in r <==> v != dflt
    ensures forall q :: q != p ==> (q in r <==> q in d)
    ensures forall q :: q != p && q in d ==> r[q] == d[q]
    ensures Sparse(d, dflt) ==> Sparse(r, dflt)
    ensures |r| == if v == dflt then (if p in d then |d| - 1 else |d|)
                   else (if p in d then |d| else |d| + 1)
  {
    if v == dflt then Remove(d, p) else Put(d, p, v)
  }

  /** One assignment through an accessor: a position and the value written to it. */
  datatype Assignment<T> = Assignment(position: Coord, value: T)

  /** The store after the assignments ws, in order, starting from d. */
  function WriteAll<T(==)>(d: map<Coord, T>, dflt: T, ws: seq<Assignment<T>>): (r: map<Coord, T>)
    decreases |ws|
  {
    if ws == [] then d
    else
      var w := ws[|ws| - 1];
      Write(WriteAll(d, dflt, ws[..|ws| - 1]), dflt, w.position, w.value)
  }

  /** The value of the last assignment to p in ws, if any. */
  function LastWritten<T>(ws: seq<Assignment<T>>, p: Coord): (last: Option<T>)
    decreases |ws|
  {
    if ws == [] then None
    else if ws[|ws| - 1].position == p then Some(ws[|ws| - 1].value)
    else LastWritten(ws[..|ws| - 1], p)
  }

  /**
   After any sequence of accessor writes, each position reads its last written
   value (or what it read before, if it was never written), and a store that
   held no default-valued entry still holds none.
   */
  lemma {:induction false} WriteAllLastWins<T>(d: map<Coord, T>, dflt: T, ws: seq<Assignment<T>>, p: Coord)
    ensures Lookup(WriteAll(d, dflt, ws), dflt, p) ==
              match LastWritten(ws, p)
              case Some(v) => v
              case None => Lookup(d, dflt, p)
    ensures Sparse(d, dflt) ==> Sparse(WriteAll(d, dflt, ws), dflt)
    decreases |ws|
  {
    if ws != [] {
      WriteAllLastWins(d, dflt, ws[..|ws| - 1], p);
    }
  }

  /**
   The sparsity law: starting from an empty store and writing only through
   accessors, a position has an entry exactly when the value last written to
   it is not the default, and the store's size counts exactly those positions.
   */
  lemma EntriesAreLastNonDefaultWrites<T>(dflt: T, ws: seq<Assignment<T>>)
    ensures var d := WriteAll(map[], dflt, ws);
            && Sparse(d, dflt)
            && (forall p :: p in d <==> LastWritten(ws, p).Some? && LastWritten(ws, p).value != dflt)
            && |d| == |NonDefault(d, dflt)|
  {
    var d := WriteAll(map[], dflt, ws);
    forall p
      ensures p in d <==> LastWritten(ws, p).Some? && LastWritten(ws, p).value != dflt
    {
      WriteAllLastWins(map[], dflt, ws, p);
    }
    WriteAllLastWins(map[], dflt, ws, []);
    SparseSize(d, dflt);
  }

  /** The positions that read as something other than the default. */
  function NonDefault<T(==)>(d: map<Coord, T>, dflt: T): (ps: set<Coord>)
  {
    set p | p in d && Lookup(d, dflt, p) != dflt
  }

  /** In a sparse store, size() counts the positions holding a non-default value. */
  lemma SparseSize<T>(d: map<Coord, T>, dflt: T)
    requires Sparse(d, dflt)
    ensures |d| == |NonDefault(d, dflt)|
  {
    assert NonDefault(d, dflt) == d.Keys;
  }
}
