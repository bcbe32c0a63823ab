/**
 Coordinate tuples and the order in which the default backing store
 (std::map keyed by std::tuple<std::size_t, ...>) keeps them.

 std::map is a search tree: its in-order traversal is the strictly increasing
 sequence of its keys under the key type's operator<, which for std::tuple is
 the lexicographic order. This module defines that order and the two updates
 of the ordered key sequence that insert_or_assign and erase perform.
 */
module KeyOrder {

  /** A coordinate tuple: one unbounded non-negative index per dimension. */
  type Coord = seq<nat>

  /** Lexicographic "a < b" on coordinate tuples, as std::tuple's operator< compares. */
  predicate Less(a: Coord, b: Coord)
    decreases |a|
  {
    |a| > 0 && |b| > 0 && (a[0] < b[0] || (a[0] == b[0] && Less(a[1..], b[1..])))
  }

  lemma {:induction false} LessIrreflexive(a: Coord)
    ensures !Less(a, a)
    decreases |a|
  {
    if |a| > 0 {
      LessIrreflexive(a[1..]);
    }
  }

  lemma {:induction false} LessTransitive(a: Coord, b: Coord, c: Coord)
    requires Less(a, b) && Less(b, c)
    ensures Less(a, c)
    decreases |a|
  {
    if a[0] == b[0] && b[0] == c[0] {
      LessTransitive(a[1..], b[1..], c[1..]);
    }
  }

  /** Two different tuples of the same length are always ordered one way or the other. */
  lemma {:induction false} LessTotal(a: Coord, b: Coord)
    requires |a| == |b| && a != b
    ensures Less(a, b) || Less(b, a)
    decreases |a|
  {
    assert a == [a[0]] + a[1..] && b == [b[0]] + b[1..];
    if a[0] == b[0] {
      LessTotal(a[1..], b[1..]);
    }
  }

  /** A valid in-order key sequence: every key strictly below every later one. */
  ghost predicate StrictlySorted(s: seq<Coord>)
  {
    forall i, j :: 0 <= i < j < |s| ==> Less(s[i], s[j])
  }

  function Elements(s: seq<Coord>): (e: set<Coord>)
  {
    set x | x in s
  }

  lemma HeadBelowTail(s: seq<Coord>)
    requires StrictlySorted(s) && s != []
    ensures forall x :: x in s[1..] ==> Less(s[0], x)
  {
  }

  lemma BelowHead(k: Coord, s: seq<Coord>)
    requires StrictlySorted(s) && s != [] && Less(k, s[0])
    ensures forall x :: x in s ==> Less(k, x)
  {
    HeadBelowTail(s);
    forall x | x in s
      ensures Less(k, x)
    {
      if x != s[0] {
        assert x in s[1..] by {
          var j :| 0 <= j < |s| && s[j] == x;
          assert s[1..][j - 1] == x;
        }
        LessTransitive(k, s[0], x);
      }
    }
  }

  lemma ConsSorted(h: Coord, t: seq<Coord>)
    requires StrictlySorted(t)
    requires forall x :: x in t ==> Less(h, x)
    ensures StrictlySorted([h] + t)
  {
  }

  lemma TailSorted(s: seq<Coord>)
    requires StrictlySorted(s) && s != []
    ensures StrictlySorted(s[1..])
  {
  }

  /**
   The key sequence after insert_or_assign(k, ...): k is placed in order, and
   nothing happens to the sequence when k is already a key.
   */
  function InsertKey(s: seq<Coord>, k: Coord): (r: seq<Coord>)
    requires StrictlySorted(s)
    requires forall x :: x in s ==> |x| == |k|
    ensures StrictlySorted(r)
    ensures forall x :: x in r <==> x in s || x == k
    ensures |r| == if k in s then |s| else |s| + 1
    decreases |s|
  {
    if s == [] then
      [k]
    else if k == s[0] then
      s
    else if Less(k, s[0]) then
      BelowHead(k, s);
      ConsSorted(k, s);
      LessIrreflexive(k);
      [k] + s
    else
      LessTotal(k, s[0]);
      TailSorted(s);
      HeadBelowTail(s);
      var t := InsertKey(s[1..], k);
      assert s == [s[0]] + s[1..];
      ConsSorted(s[0], t);
      [s[0]] + t
  }

  /** The key sequence after erasing k: k is dropped, the rest keeps its order. */
  function RemoveKey(s: seq<Coord>, k: Coord): (r: seq<Coord>)
    requires StrictlySorted(s)
    ensures StrictlySorted(r)
    ensures forall x :: x in r <==> x in s && x != k
    ensures |r| == if k in s then |s| - 1 else |s|
    ensures k !in s ==> r == s
    decreases |s|
  {
    if s == [] then
      []
    else
      TailSorted(s);
      HeadBelowTail(s);
      assert s == [s[0]] + s[1..];
      if s[0] == k then
        LessIrreflexive(k);
        s[1..]
      else
        var t := RemoveKey(s[1..], k);
        ConsSorted(s[0], t);
        [s[0]] + t
  }

  /** A strictly sorted sequence holds no key twice. */
  lemma SortedDistinct(s: seq<Coord>)
    requires StrictlySorted(s)
    ensures forall i, j :: 0 <= i < |s| && 0 <= j < |s| && s[i] == s[j] ==> i == j
  {
    forall i, j | 0 <= i < |s| && 0 <= j < |s| && s[i] == s[j]
      ensures i == j
    {
      LessIrreflexive(s[i]);
    }
  }

  /** A strictly sorted sequence has as many positions as distinct keys. */
  lemma {:induction false} SortedCard(s: seq<Coord>)
    requires StrictlySorted(s)
    ensures |Elements(s)| == |s|
    decreases |s|
  {
    if s != [] {
      TailSorted(s);
      HeadBelowTail(s);
      LessIrreflexive(s[0]);
      SortedCard(s[1..]);
      assert s == [s[0]] + s[1..];
      assert Elements(s) == {s[0]} + Elements(s[1..]);
      assert s[0] !in Elements(s[1..]);
    }
  }

  lemma SameHead(s: seq<Coord>, t: seq<Coord>)
    requires StrictlySorted(s) && StrictlySorted(t)
    requires forall x :: x in s <==> x in t
    requires s != []
    ensures t != [] && s[0] == t[0]
  {
    assert s[0] in t;
    HeadBelowTail(s);
    HeadBelowTail(t);
    assert t[0] in t;
    if s[0] != t[0] {
      assert t[0] in s[1..] by {
        var j :| 0 <= j < |s| && s[j] == t[0];
        assert s[1..][j - 1] == t[0];
      }
      assert s[0] in t[1..] by {
        var j :| 0 <= j < |t| && t[j] == s[0];
        assert t[1..][j - 1] == s[0];
      }
      LessTransitive(s[0], t[0], s[0]);
      LessIrreflexive(s[0]);
    }
  }

  /**
   The in-order key sequence is determined by the set of keys alone: whatever
   history of insertions and erasures produced it, an ordered store iterates
   its keys in increasing lexicographic order.
   */
  lemma {:induction false} SortedUnique(s: seq<Coord>, t: seq<Coord>)
    requires StrictlySorted(s) && StrictlySorted(t)
    requires forall x :: x in s <==> x in t
    ensures s == t
    decreases |s|
  {
    if s != [] {
      SameHead(s, t);
      TailSorted(s);
      TailSorted(t);
      HeadBelowTail(s);
      HeadBelowTail(t);
      LessIrreflexive(s[0]);
      assert s == [s[0]] + s[1..] && t == [t[0]] + t[1..];
      forall x
        ensures x in s[1..] <==> x in t[1..]
      {
        assert x in s[1..] <==> x in s && x != s[0];
        assert x in t[1..] <==> x in t && x != t[0];
      }
      SortedUnique(s[1..], t[1..]);
    } else {
      SortedCard(s);
      SortedCard(t);
      assert Elements(s) == Elements(t);
    }
  }
}
