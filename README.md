# Sparse N-dimensional matrix

A model of the `Matrix` class template of `src/matrix.h`: a sparse
N-dimensional matrix that stores only the elements that were assigned a value
other than the compile-time `Default`. Every other coordinate tuple reads as
`Default`. The model has four parts, like the header:

- **the store** (`Matrix::size`, `empty`, `get_or_default`, `set`, `erase`). `set` and `erase` are the only operations that change the backing map.
- **the accessor** (`value_ref`). It is a handle on one full coordinate tuple. It reads the store again on every read. On a write it erases the entry when the value written is `Default`, and otherwise sets it.
- **the builder** (`index_proxy`). It collects coordinates one subscript at a time. The last subscript gives `at(...)`.
- **the iterator** (`matrix_iterator`). It is a bidirectional walk over the stored entries in the store's order. Dereferencing it yields `(x, y, value)` by copy.

The backing store is the default `std::map` keyed by a tuple of `std::size_t`.
The model represents it by two fields of `Matrix`:
- `data: map<Coord, T>` holds its contents.
- `keys: seq<Coord>` is its in-order traversal, strictly increasing in the lexicographic order of `std::tuple`.

The object invariant `Matrix.Valid()` ties the two fields together.
`KeyOrder.SortedUnique` shows that `keys` is then fixed by the keys of `data`.
This holds whatever sequence of `set` and `erase` calls produced the matrix.

Files:
- `key_order.dfy` (module `KeyOrder`): the coordinate tuple `Coord = seq<nat>`, the lexicographic order, and the ordered key sequence's updates under insertion and erasure.
- `store.dfy` (module `Store`): the store's abstract transitions as pure functions on maps. It also holds the sparsity law for assignments made through accessors.
- `matrix.dfy` (module `SparseMatrix`): the `Matrix` class, the `ValueRef` and `IndexProxy` datatypes, the `MatrixIterator` class, and the traversal of all entries.
- `scenarios.dfy` (module `Scenarios`): client methods that use only the contracts above. They restate what `tests/test_matrix.cpp` asserts: default reads, delete-on-default, aliasing, copying between accessors, iteration over one and two entries, and the three-dimensional `at`/`[]` equivalence. One more shows an iterator surviving an overwrite of its entry.

Modelling choices:
- `Dimensions` becomes the field `dims` of subset type `Dimension` (at least 1). `Default` becomes the field `defaultValue`.
- Coordinates are unbounded `nat`s.
- `T`'s `operator==`, used by the delete-on-default test and by `value_ref::operator==`, is taken to be an equivalence: the model uses mathematical equality on `T`. For a type whose `==` is not reflexive this differs. For example, with `Matrix<double, 0.0>` and NaN written through an accessor, `ref == NaN` is false in C++ but `Equals(NaN)` holds in the model.
- Arity is a compile-time property in C++. Here it is the precondition `|pos| == dims` on `set` and `at`, and `WellFormed()` on accessors and builders.
- `operator T` is the same call as `get()`, so it is modelled by `ValueRef.Get`.
- `matrix_iterator::operator!=` is the negation of `MatrixIterator.Equals`.
- `value_ref::operator=` returns `*this`. That is only for chained assignments, so the model's `Assign` returns nothing.
- `Matrix::operator[]` with `Dimensions == 1` returns an `index_proxy` that needs no more coordinates. No further subscript reaches `at`, so a one-dimensional matrix is reachable through `at` only. `Matrix.Index` models that proxy faithfully (order 0), and `ChainedIndexingIsAt` is stated for `dims >= 2`.
- `operator*` always takes coordinates 0 and 1. The model follows the code, not the ideal of a triple with all N coordinates. So `Deref` needs `dims >= 2`, and the statement that a traversal lists every entry once is made for `dims == 2`.
- `set` called directly with `Default` stores an entry holding `Default`, as the code does. Writes through accessors keep the store sparse when the value written is already of type `T`; a value of another type that converts to `Default` (see Left out) is not covered.

## Model

| member | source | states |
|---|---|---|
| `KeyOrder.LessTotal` | src/matrix.h:127-128 | two different coordinate tuples of equal length are ordered one way or the other, so the `std::map` key order is total on the matrix's keys |
| `KeyOrder.LessTransitive` | src/matrix.h:127-128 | the lexicographic key order of the default store is transitive |
| `KeyOrder.InsertKey` | src/matrix.h:439 | `insert_or_assign` keeps the store's key sequence strictly sorted. Its keys become the old keys plus the new one. Its length grows by one exactly when the key was absent |
| `KeyOrder.RemoveKey` | src/matrix.h:473-475 | erasing keeps the key sequence sorted and removes exactly that key. Its length drops by one when the key was present, and the sequence is unchanged when it was absent |
| `KeyOrder.SortedDistinct` | src/matrix.h:127-128 | the ordered store never holds a key twice |
| `KeyOrder.SortedCard` | src/matrix.h:350 | the number of positions in the key sequence equals the number of distinct keys, so iteration positions match `size()` |
| `KeyOrder.SortedUnique` | src/matrix.h:127-128 | two strictly sorted key sequences with the same keys are equal. Iteration order of the ordered store therefore depends only on which keys are stored |
| `Store.Put` | src/matrix.h:437-440 | after `set(val, pos)`, pos maps to val and every other key is unchanged. The size grows by 1 if pos was new and stays the same otherwise |
| `Store.Remove` | src/matrix.h:471-476 | after `erase(pos)`, pos is absent and every other entry is unchanged. The size drops by 1 if pos was present. An absent pos leaves the store identical |
| `Store.Write` | src/matrix.h:203-213 | an accessor write reads back exactly the value written. Pos has an entry iff the value is not `Default`, and other positions are unchanged. A sparse store stays sparse. Size goes +1, 0 or -1 depending on presence and on whether the value is `Default` |
| `Store.WriteAllLastWins` | src/matrix.h:200-213 | after any sequence of accessor writes, each position reads its last written value, or its earlier value if it was never written. Sparsity is preserved |
| `Store.EntriesAreLastNonDefaultWrites` | src/matrix.h:107-108 | from an empty matrix, with writes only through accessors, P has an entry iff the value last written to P is not `Default`. No entry holds `Default`. `size()` counts the non-default positions |
| `Store.SparseSize` | src/matrix.h:350 | in a sparse store, the size equals the number of positions that read something other than `Default` |
| `SparseMatrix.Matrix.constructor` | src/matrix.h:341-343 | a default-constructed matrix is empty and valid |
| `SparseMatrix.Matrix.Size` | src/matrix.h:350 | `size()` equals the number of iterator positions between `begin()` and `end()` |
| `SparseMatrix.Matrix.Empty` | src/matrix.h:357 | `empty()` holds iff `size() == 0` iff the key sequence is empty, i.e. `begin() == end()` |
| `SparseMatrix.Matrix.GetOrDefault` | src/matrix.h:452-458 | returns the stored value for a key of the store and `Default` otherwise, without changing anything. In a sparse store it returns `Default` exactly at absent positions |
| `SparseMatrix.Matrix.Set` | src/matrix.h:437-440 | the new store is `Store.Put` of the old one and the key sequence is `InsertKey` of the old one. The invariant is kept |
| `SparseMatrix.Matrix.Erase` | src/matrix.h:471-476 | the new store is `Store.Remove` of the old one and the key sequence is `RemoveKey` of the old one. The invariant is kept |
| `SparseMatrix.Matrix.At` | src/matrix.h:398-401 | `at(pos...)` gives an accessor bound to this matrix and exactly the tuple pos |
| `SparseMatrix.Matrix.Index` | src/matrix.h:366-369 | `m[i]` gives a builder holding `(i)`, with `Dimensions - 1` coordinates still missing |
| `SparseMatrix.Matrix.CBegin` | src/matrix.h:479-481 | `cbegin()` is the first position of the ordered store |
| `SparseMatrix.Matrix.Begin` | src/matrix.h:478 | `begin()` is the same position as `cbegin()` |
| `SparseMatrix.Matrix.CEnd` | src/matrix.h:484-486 | `cend()` is the one-past-the-last position |
| `SparseMatrix.Matrix.End` | src/matrix.h:483 | `end()` is the same position as `cend()` |
| `SparseMatrix.ValueRef.Get` | src/matrix.h:230-236 | a read returns what the store holds at the position in the current state, or `Default`. Nothing is cached |
| `SparseMatrix.ValueRef.Equals` | src/matrix.h:190 | `ref == rhs` holds iff the position currently reads as rhs, whether stored or defaulted |
| `SparseMatrix.ValueRef.Assign` | src/matrix.h:203-216 | the new store is `Store.Write` of the old one: delete-on-default, otherwise set. Every accessor bound to the same coordinates then reads rhs, and every other position reads as before |
| `SparseMatrix.ValueRef.AssignFrom` | src/matrix.h:203-213 | assigning one accessor to another writes the value the right-hand accessor read before the write |
| `SparseMatrix.IndexProxy.Index` | src/matrix.h:262-277 | a builder with one coordinate left yields the accessor on `prefix + [i]`, any other yields a builder holding `prefix + [i]` with one coordinate fewer to come. The invariant that it holds `Dimensions - Order` coordinates is kept |
| `SparseMatrix.ChainExtendsPrefix` | src/matrix.h:262-280 | subscripting accumulates coordinates left to right. Fewer subscripts than remain give a builder with the extended prefix, and exactly as many give the accessor on the completed tuple |
| `SparseMatrix.ChainedIndexingIsAt` | src/matrix.h:366-369 | `m[i0][i1]...[iN-1]` is the same accessor as `m.at(i0, ..., iN-1)` |
| `SparseMatrix.MatrixIterator.constructor` | src/matrix.h:297 | an iterator wraps a position of the ordered store and belongs to the key sequence it was made from |
| `SparseMatrix.MatrixIterator.Equals` | src/matrix.h:315-318 | two iterators over one store are equal iff they refer to the same entry, or both are at `end()` |
| `SparseMatrix.MatrixIterator.Deref` | src/matrix.h:325-327 | the triple holds the first two coordinates and the value of an entry the store holds. In two dimensions `(x, y, v)` is exactly a stored entry `[x, y] -> v` |
| `SparseMatrix.MatrixIterator.Increment` | src/matrix.h:303-306 | prefix `++` moves to the next entry in key order, or to `end()` from the last entry |
| `SparseMatrix.MatrixIterator.PostIncrement` | src/matrix.h:301 | postfix `++` moves forward and returns an iterator at the old position |
| `SparseMatrix.MatrixIterator.Decrement` | src/matrix.h:310-313 | prefix `--` moves to the previous entry. From `end()` that is the last entry |
| `SparseMatrix.MatrixIterator.PostDecrement` | src/matrix.h:308 | postfix `--` moves back and returns an iterator at the old position |
| `SparseMatrix.TraversalVisitsEachEntryOnce` | src/matrix.h:478-486 | in two dimensions a full traversal yields `size()` triples in strictly increasing key order, so none repeats. `(x, y, v)` occurs iff `[x, y] -> v` is stored |
| `SparseMatrix.Traverse` | tests/test_matrix.cpp:143-152 | a range-based for loop from `begin()` reaches `end()` after exactly `size()` increments and yields the triples of all entries in key order |

## Left out

- `detail::tuple_n` and `tuple_cat_t` (src/matrix.h:23-49) are type-level construction of the key type. The key is a `seq<nat>` whose length is the dimension count.
- `detail::tuple_hasher` and hash-based stores (`std::unordered_map`, src/matrix.h:55-78). The hash is a foreign library function and bucket order is unspecified. Only the default ordered store is modelled.
- Pluggable containers and the forwarding constructor (src/matrix.h:127-128, 341-343). The constructor is modelled for the default store with no arguments, such as a bucket-count hint.
- Iterator trait typedefs and `base()` (src/matrix.h:290-299) are C++ iterator plumbing with no behaviour of their own.
- The `const` overloads of `operator[]` and `at` (src/matrix.h:378-381, 418-421) return read-only accessors. They behave like the others on reads; const-ness has no runtime behaviour.
- Iterators across mutation: a `MatrixIterator` records the key sequence it was made from (`keysAt`). Its `Valid()` holds exactly while the matrix's key sequence equals that one. So overwriting a present key keeps it valid and `Deref` gives the new value, as in C++. Inserting or erasing another key makes it invalid, although `std::map` keeps it valid. Erasing its own key and writing that key again makes it valid again, although C++ invalidated it at the erase.
- Incrementing `end()` or decrementing `begin()` is undefined behaviour in C++. `Increment` and `Decrement` require that it does not happen.
- `std::size_t` wrap-around of coordinates is not modelled. Coordinates are unbounded `nat`s.
- Dangling accessors (one outliving its matrix) are not expressible: Dafny references are always live.
- `src/main.cpp` is console output only and is not part of this model.
- `SparseMatrix.MatrixIterator.Deref`: the triple carries only the first two coordinates, as the code does. For `dims > 2` the remaining coordinates are not in the triple.
- `SparseMatrix.ValueRef.Assign`: `operator=` is a template on the right-hand type `U`. It compares `rhs == Default` before `set` converts `rhs` to `T`. The model takes the value as already converted to `T`. The sparsity law (`Store.Write`, `Store.EntriesAreLastNonDefaultWrites`) therefore assumes that `rhs == Default` holds exactly when `T(rhs) == Default`. In C++, a lossy conversion such as assigning `0.5` to a `Matrix<int, 0>` element stores an entry holding `Default`.
