/**
 * The run-wide state that make_db.cc accumulates over all input files: the
 * axis list `edges_list` and the corpus `hs` of `hist_t` records, and how
 * appending one read histogram changes them.
 */
module Corpus {
  import opened Interning
  import opened Source

  /** `hist_t`: the labels, the stored bins and the id of the edge vector. */
  datatype HistRecord = HistRecord(props: seq<string>, bins: seq<real>, edges: nat)

  /** The axis list and the corpus together. */
  datatype State = State(edgesList: seq<Axis>, hs: seq<HistRecord>)

  const Empty: State := State([], [])

  predicate IdsInRange(c: State) {
    forall k :: 0 <= k < |c.hs| ==> c.hs[k].edges < |c.edgesList|
  }

  /** No vector is listed twice and every record refers to a listed vector. */
  predicate Consistent(c: State) {
    NoDup(c.edgesList) && IdsInRange(c)
  }

  /** Appending one histogram: its edge vector is interned and the id stored with it. */
  function Add(c: State, r: RawHist): (c': State)
    ensures c.edgesList <= c'.edgesList && c.hs <= c'.hs && |c'.hs| == |c.hs| + 1
    ensures c'.hs[|c.hs|].props == r.props && c'.hs[|c.hs|].bins == r.bins
    ensures c'.hs[|c.hs|].edges < |c'.edgesList| && c'.edgesList[c'.hs[|c.hs|].edges] == r.edges
  {
    var i := Intern(c.edgesList, r.edges);
    State(i.list, c.hs + [HistRecord(r.props, r.bins, i.id)])
  }

  /** Appending histograms one after the other. */
  function AddAll(c: State, rs: seq<RawHist>): (c': State)
    ensures c.edgesList <= c'.edgesList && c.hs <= c'.hs && |c'.hs| == |c.hs| + |rs|
  {
    if rs == [] then c else Add(AddAll(c, rs[..|rs| - 1]), rs[|rs| - 1])
  }

  /** The records of `c` with each edge id replaced by the vector it stands for. */
  function Resolve(c: State): seq<RawHist>
    requires IdsInRange(c)
  {
    seq(|c.hs|, k requires 0 <= k < |c.hs| =>
      RawHist(c.hs[k].props, c.edgesList[c.hs[k].edges], c.hs[k].bins))
  }

  /** Appending a sequence in two parts is appending it whole. */
  lemma {:induction false} AddAllAppend(c: State, a: seq<RawHist>, b: seq<RawHist>)
    ensures AddAll(c, a + b) == AddAll(AddAll(c, a), b)
  {
    if b == [] {
      assert a + b == a;
    } else {
      var b' := b[..|b| - 1];
      assert (a + b)[..|a + b| - 1] == a + b';
      AddAllAppend(c, a, b');
    }
  }

  /**
   * Adding one histogram keeps the state consistent, extends the axis list
   * without changing what is there, and leaves a corpus that reads back as the
   * old one followed by exactly that histogram.
   */
  lemma AddFaithful(c: State, r: RawHist)
    requires Consistent(c)
    ensures Consistent(Add(c, r))
    ensures Add(c, r).edgesList[..|c.edgesList|] == c.edgesList
    ensures Resolve(Add(c, r)) == Resolve(c) + [r]
  {
    var c' := Add(c, r);
    InternKeepsNoDup(c.edgesList, r.edges);
    assert forall k :: 0 <= k < |c.hs| ==> c'.edgesList[c.hs[k].edges] == c.edgesList[c.hs[k].edges];
  }

  /**
   * The corpus records every histogram it is given, in order and unchanged,
   * and the axis list only grows.
   */
  lemma {:induction false} AddAllFaithful(c: State, rs: seq<RawHist>)
    requires Consistent(c)
    ensures Consistent(AddAll(c, rs))
    ensures |c.edgesList| <= |AddAll(c, rs).edgesList|
    ensures AddAll(c, rs).edgesList[..|c.edgesList|] == c.edgesList
    ensures Resolve(AddAll(c, rs)) == Resolve(c) + rs
  {
    if rs != [] {
      var prefix := rs[..|rs| - 1];
      AddAllFaithful(c, prefix);
      var mid := AddAll(c, prefix);
      var r := rs[|rs| - 1];
      AddFaithful(mid, r);
      var last := Add(mid, r);
      assert AddAll(c, rs) == last;
      var n := |c.edgesList|;
      assert last.edgesList[..n] == last.edgesList[..|mid.edgesList|][..n];
      SeqSnoc(Resolve(c), rs);
    }
  }

  lemma SeqSnoc(a: seq<RawHist>, rs: seq<RawHist>)
    requires rs != []
    ensures a + rs == (a + rs[..|rs| - 1]) + [rs[|rs| - 1]]
  {
    assert rs == rs[..|rs| - 1] + [rs[|rs| - 1]];
  }

  /** In a consistent state two records share an edge id exactly when their edge vectors are equal. */
  lemma SameIdIffSameEdges(c: State, i: nat, j: nat)
    requires Consistent(c) && i < |c.hs| && j < |c.hs|
    ensures c.hs[i].edges == c.hs[j].edges <==> Resolve(c)[i].edges == Resolve(c)[j].edges
  {
    var a, b := c.hs[i].edges, c.hs[j].edges;
    if a < b {
      assert c.edgesList[a] != c.edgesList[b];
    } else if b < a {
      assert c.edgesList[b] != c.edgesList[a];
    }
  }

  function EdgesOf(rs: seq<RawHist>): seq<Axis> {
    seq(|rs|, k requires 0 <= k < |rs| => rs[k].edges)
  }

  /**
   * Starting from nothing, the axis list is the distinct edge vectors of the
   * histograms in order of first appearance, so ids run 0, 1, 2, ... in that order.
   */
  lemma {:induction false} AxisListIsFirstSeen(rs: seq<RawHist>)
    ensures AddAll(Empty, rs).edgesList == FirstSeen(EdgesOf(rs))
  {
    if rs != [] {
      var prefix := rs[..|rs| - 1];
      var r := rs[|rs| - 1];
      AxisListIsFirstSeen(prefix);
      var es := EdgesOf(rs);
      assert es[..|es| - 1] == EdgesOf(prefix);
      FirstSeenElems(EdgesOf(prefix));
      var list := AddAll(Empty, prefix).edgesList;
      assert r.edges in list <==> r.edges in EdgesOf(prefix) by {
        assert r.edges in list <==> r.edges in Elems(list);
        assert r.edges in EdgesOf(prefix) <==> r.edges in Elems(EdgesOf(prefix));
      }
    }
  }
}
