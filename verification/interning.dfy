/**
 * The axis interner of make_db.cc: bin-edge vectors are kept once each, in the
 * order they were first seen, and a vector's id is its position in that list.
 * This module holds the specification (a pure function on the list) and the
 * linear search the source uses to find an existing id.
 */
module Interning {
  /** A bin-edge vector. Only exact equality of two vectors matters. */
  type Axis = seq<real>

  predicate NoDup(list: seq<Axis>) {
    forall i, j :: 0 <= i < j < |list| ==> list[i] != list[j]
  }

  function Elems(list: seq<Axis>): set<Axis> {
    set x | x in list
  }

  /** A list without duplicates has as many distinct vectors as entries: the set and the list stay the same size. */
  lemma {:induction false} ElemsSize(list: seq<Axis>)
    requires NoDup(list)
    ensures |Elems(list)| == |list|
  {
    if list != [] {
      var init := list[..|list| - 1];
      var last := list[|list| - 1];
      ElemsSize(init);
      assert Elems(list) == Elems(init) + {last};
      assert last !in Elems(init);
    }
  }

  /** Position of the first occurrence of `e` in `list`. */
  function IndexOf(list: seq<Axis>, e: Axis): (i: nat)
    requires e in list
    ensures i < |list| && list[i] == e
    ensures forall j :: 0 <= j < i ==> list[j] != e
  {
    if list[0] == e then 0 else 1 + IndexOf(list[1..], e)
  }

  /** The id handed out for a vector and the axis list afterwards. */
  datatype Interned = Interned(id: nat, list: seq<Axis>)

  /**
   * Interning `e`: a vector already in the list keeps its id and the list is
   * unchanged; a new vector is appended and gets the old length as its id.
   */
  function Intern(list: seq<Axis>, e: Axis): (r: Interned)
    ensures r.id < |r.list| && r.list[r.id] == e
    ensures |list| <= |r.list| <= |list| + 1 && r.list[..|list|] == list
  {
    if e in list then Interned(IndexOf(list, e), list) else Interned(|list|, list + [e])
  }

  /** Interning keeps the list free of duplicates, so ids and vectors are in one-to-one correspondence. */
  lemma InternKeepsNoDup(list: seq<Axis>, e: Axis)
    requires NoDup(list)
    ensures NoDup(Intern(list, e).list)
    ensures Elems(Intern(list, e).list) == Elems(list) + {e}
  {
    var r := Intern(list, e);
    if e !in list {
      forall x | x in r.list ensures x in Elems(list) + {e} {
        var i :| 0 <= i < |r.list| && r.list[i] == x;
        if i < |list| { assert list[i] == x; }
      }
    }
  }

  /** A vector already interned gets its existing id back and the list does not grow. */
  lemma InternExisting(list: seq<Axis>, e: Axis, i: nat)
    requires NoDup(list) && i < |list| && list[i] == e
    ensures Intern(list, e) == Interned(i, list)
  {
  }

  /** A new vector gets the next id, contiguous with those already handed out. */
  lemma InternNew(list: seq<Axis>, e: Axis)
    requires e !in list
    ensures Intern(list, e) == Interned(|list|, list + [e])
  {
  }

  /** Interning the same vector twice gives the same id and leaves the list as the first call left it. */
  lemma InternIdempotent(list: seq<Axis>, e: Axis)
    ensures Intern(Intern(list, e).list, e) == Intern(list, e)
  {
    var r := Intern(list, e);
    if e !in list {
      assert forall j :: 0 <= j < |list| ==> r.list[j] == list[j];
    }
  }

  /** Two unequal vectors interned one after the other receive distinct ids. */
  lemma InternDistinct(list: seq<Axis>, a: Axis, b: Axis)
    requires a != b
    ensures Intern(Intern(list, a).list, b).id != Intern(list, a).id
  {
    var r1 := Intern(list, a);
    var r2 := Intern(r1.list, b);
    assert r2.list[r1.id] == a;
  }

  /**
   * The std::find over the axis list (make_db.cc:159-161): the position of the
   * first entry equal to `e`, which the caller knows to be present.
   */
  method Find(list: seq<Axis>, e: Axis) returns (i: nat)
    requires e in list
    ensures i < |list| && list[i] == e
    ensures forall j :: 0 <= j < i ==> list[j] != e
  {
    i := 0;
    while list[i] != e
      invariant i < |list|
      invariant e in list[i..]
      invariant forall j :: 0 <= j < i ==> list[j] != e
      decreases |list| - i
    {
      i := i + 1;
    }
  }

  /** The distinct vectors of `es` in order of first appearance: a reference for the interner's list. */
  function FirstSeen(es: seq<Axis>): seq<Axis>
  {
    if es == [] then []
    else
      var prefix := es[..|es| - 1];
      FirstSeen(prefix) + (if es[|es| - 1] in prefix then [] else [es[|es| - 1]])
  }

  /** FirstSeen keeps exactly the vectors of `es`, each once. */
  lemma {:induction false} FirstSeenElems(es: seq<Axis>)
    ensures NoDup(FirstSeen(es))
    ensures Elems(FirstSeen(es)) == Elems(es)
  {
    if es != [] {
      var prefix := es[..|es| - 1];
      FirstSeenElems(prefix);
      assert es == prefix + [es[|es| - 1]];
      assert Elems(es) == Elems(prefix) + {es[|es| - 1]};
    }
  }
}
