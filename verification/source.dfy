/**
 * The ROOT file as make_db.cc sees it: a tree of keys, each a directory, a
 * one-dimensional histogram or some other object, and the recursive walk
 * (the y_combinator lambda) that turns every histogram into one record.
 */
module Source {
  import opened Tokenize

  /** The parts of a TH1 that make_db.cc reads. */
  datatype H1 = H1(name: string, nbins: nat, lowEdges: seq<real>, contents: seq<real>)

  /**
   * A histogram whose accessors are defined where make_db.cc calls them:
   * `lowEdges[b - 1]` is the low edge of bin `b` for 1 <= b <= nbins + 1 (the
   * last one is the upper edge of the axis) and `contents[b]` the content of bin
   * `b` for 0 <= b <= nbins + 1, underflow and overflow included.
   */
  type TH1 = h: H1 | |h.lowEdges| == h.nbins + 1 && |h.contents| == h.nbins + 2
    witness H1("h", 0, [0.0], [0.0, 0.0])

  /** A key of a ROOT directory, in the directory's own enumeration order. */
  datatype Key =
    | Directory(name: string, keys: seq<Key>)
    | Histogram(hist: TH1)
    | OtherObject(name: string)

  function GetBinLowEdge(h: TH1, bin: nat): real
    requires 1 <= bin <= h.nbins + 1
  {
    h.lowEdges[bin - 1]
  }

  function GetBinContent(h: TH1, bin: nat): real
    requires bin <= h.nbins + 1
  {
    h.contents[bin]
  }

  /**
   * The edge vector of `h`: the low edges of bins 1 .. nbins + 1, that is all
   * nbins + 1 boundaries of the axis, its upper edge last.
   */
  function EdgeVector(h: TH1): (r: seq<real>)
    ensures r == h.lowEdges
  {
    seq(h.nbins + 1, i requires 0 <= i < h.nbins + 1 => GetBinLowEdge(h, i + 1))
  }

  /** The stored bins of `h`: the contents of bins 0 .. nbins + 1, underflow and overflow included. */
  function BinContents(h: TH1): (r: seq<real>)
    ensures r == h.contents
  {
    seq(h.nbins + 2, i requires 0 <= i < h.nbins + 2 => GetBinContent(h, i))
  }

  /** The loop filling `h_edges` (make_db.cc:150-153). */
  method ReadEdges(h: TH1) returns (e: seq<real>)
    ensures |e| == h.nbins + 1
    ensures forall i :: 0 <= i < |e| ==> e[i] == GetBinLowEdge(h, i + 1)
    ensures e == EdgeVector(h)
  {
    var n := h.nbins + 1;
    e := [];
    for i := 0 to n
      invariant |e| == i
      invariant forall j :: 0 <= j < i ==> e[j] == GetBinLowEdge(h, j + 1)
    {
      e := e + [GetBinLowEdge(h, i + 1)];
    }
  }

  /** The loop filling `hist.bins` (make_db.cc:164-166). */
  method ReadBins(h: TH1) returns (b: seq<real>)
    ensures |b| == h.nbins + 2
    ensures forall i :: 0 <= i < |b| ==> b[i] == GetBinContent(h, i)
    ensures b == BinContents(h)
  {
    var n := h.nbins + 1;
    b := [];
    for i := 0 to n + 1
      invariant |b| == i
      invariant forall j :: 0 <= j < i ==> b[j] == GetBinContent(h, j)
    {
      b := b + [GetBinContent(h, i)];
    }
  }

  /** A histogram as read from the file, before its edge vector is interned. */
  datatype RawHist = RawHist(props: seq<string>, edges: seq<real>, bins: seq<real>)

  /** The name of the normalisation histogram that is skipped at the top level. */
  const NormalisationName: string := "N"

  /** The record of histogram `h` under label prefix `props`: its name adds its pair tokens. */
  function Record(h: TH1, props: seq<string>): (r: RawHist)
    ensures props <= r.props
    ensures forall k :: |props| <= k < |r.props| ==> IsPair(r.props[k])
    ensures |r.edges| == h.nbins + 1 && |r.bins| == |r.edges| + 1
  {
    RawHist(props + SplitPairs(h.name), EdgeVector(h), BinContents(h))
  }

  /** The records produced by walking `keys` at `depth` with label prefix `props`. */
  function Walk(keys: seq<Key>, props: seq<string>, depth: nat): (r: seq<RawHist>)
    ensures forall i :: 0 <= i < |r| ==> props <= r[i].props && |r[i].bins| == |r[i].edges| + 1
    decreases keys
  {
    if keys == [] then []
    else Walk(keys[..|keys| - 1], props, depth) + Visit(keys[|keys| - 1], props, depth)
  }

  /**
   * One key: a directory is walked one level deeper with its raw name appended
   * to the labels; a histogram gives one record unless it is the top-level
   * normalisation histogram; anything else is ignored.
   */
  function Visit(k: Key, props: seq<string>, depth: nat): (r: seq<RawHist>)
    ensures k.OtherObject? ==> r == []
    ensures forall i :: 0 <= i < |r| ==> props <= r[i].props && |r[i].bins| == |r[i].edges| + 1
    decreases k
  {
    match k
    case Directory(name, keys) => Walk(keys, props + [name], depth + 1)
    case Histogram(h) => if depth == 0 && h.name == NormalisationName then [] else [Record(h, props)]
    case OtherObject(_) => []
  }

  // ---------------------------------------------------------------------------
  // Reference: the histograms of a tree with the directories that enclose them

  datatype Leaf = Leaf(dirs: seq<string>, hist: TH1)

  /** Every histogram under `keys`, in enumeration order, with its enclosing directory names. */
  function Leaves(keys: seq<Key>): seq<Leaf>
    decreases keys
  {
    if keys == [] then []
    else Leaves(keys[..|keys| - 1]) + LeavesOf(keys[|keys| - 1])
  }

  function LeavesOf(k: Key): seq<Leaf>
    decreases k
  {
    match k
    case Directory(name, keys) => Under(name, Leaves(keys))
    case Histogram(h) => [Leaf([], h)]
    case OtherObject(_) => []
  }

  function Under(name: string, ls: seq<Leaf>): seq<Leaf> {
    seq(|ls|, i requires 0 <= i < |ls| => Leaf([name] + ls[i].dirs, ls[i].hist))
  }

  /** `keys` without the histograms named N that sit directly in it. */
  function DropNormalisation(keys: seq<Key>): seq<Key> {
    if keys == [] then []
    else
      var k := keys[|keys| - 1];
      DropNormalisation(keys[..|keys| - 1]) +
        (if k.Histogram? && k.hist.name == NormalisationName then [] else [k])
  }

  /**
   * Below the top level nothing is skipped: there is one record per histogram,
   * in enumeration order, labelled with the prefix, the raw names of the
   * enclosing directories and the pair tokens of the histogram's name.
   */
  lemma {:induction false} WalkBelowTop(keys: seq<Key>, props: seq<string>, depth: nat)
    requires depth >= 1
    ensures |Walk(keys, props, depth)| == |Leaves(keys)|
    ensures forall i :: 0 <= i < |Leaves(keys)| ==>
      Walk(keys, props, depth)[i] == Record(Leaves(keys)[i].hist, props + Leaves(keys)[i].dirs)
    decreases keys
  {
    if keys != [] {
      WalkBelowTop(keys[..|keys| - 1], props, depth);
      VisitBelowTop(keys[|keys| - 1], props, depth);
    }
  }

  lemma {:induction false} VisitBelowTop(k: Key, props: seq<string>, depth: nat)
    requires depth >= 1
    ensures |Visit(k, props, depth)| == |LeavesOf(k)|
    ensures forall i :: 0 <= i < |LeavesOf(k)| ==>
      Visit(k, props, depth)[i] == Record(LeavesOf(k)[i].hist, props + LeavesOf(k)[i].dirs)
    decreases k
  {
    match k
    case Directory(name, keys) =>
      WalkBelowTop(keys, props + [name], depth + 1);
      var ls := Leaves(keys);
      forall i | 0 <= i < |ls|
        ensures props + LeavesOf(k)[i].dirs == props + [name] + ls[i].dirs
      {
        assert LeavesOf(k)[i].dirs == [name] + ls[i].dirs;
      }
    case Histogram(h) =>
      assert props + [] == props;
    case OtherObject(_) =>
  }

  /** Below the top level the depth does not matter. */
  lemma DepthIrrelevantBelowTop(keys: seq<Key>, props: seq<string>, d1: nat, d2: nat)
    requires d1 >= 1 && d2 >= 1
    ensures Walk(keys, props, d1) == Walk(keys, props, d2)
  {
    WalkBelowTop(keys, props, d1);
    WalkBelowTop(keys, props, d2);
  }

  /**
   * At the top level the walk is the walk below the top of the same keys with
   * the histograms named N removed: they, and only they, are skipped.
   */
  lemma {:induction false} WalkAtTop(keys: seq<Key>, props: seq<string>)
    ensures Walk(keys, props, 0) == Walk(DropNormalisation(keys), props, 1)
  {
    if keys != [] {
      var prefix := keys[..|keys| - 1];
      var k := keys[|keys| - 1];
      var d := DropNormalisation(prefix);
      WalkAtTop(prefix, props);
      if !(k.Histogram? && k.hist.name == NormalisationName) {
        assert (d + [k])[..|d + [k]| - 1] == d;
        match k
        case Directory(name, ks) =>
          DepthIrrelevantBelowTop(ks, props + [name], 1, 2);
        case Histogram(h) =>
        case OtherObject(_) =>
      } else {
        assert DropNormalisation(keys) == d + [];
        assert d + [] == d;
        assert Visit(k, props, 0) == [];
        assert Walk(keys, props, 0) == Walk(prefix, props, 0) + [];
      }
    }
  }
}
