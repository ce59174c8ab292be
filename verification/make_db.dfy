/**
 * The driver of make_db.cc: the run-wide session that owns the axis set, the
 * axis list and the corpus, the recursive walk over each input file, and the
 * whole run from input files to the rows of table `hist`.
 */
module MakeDb {
  import opened Wrappers
  import opened Tokenize
  import opened Interning
  import opened Source
  import opened Corpus
  import opened Schema

  /** Why a run stops before writing anything. */
  datatype Error =
    | FileNameMismatch(fileName: string)  // the name does not match `.*\/(.+)\.root$`
    | CannotOpen(fileName: string)        // TFile reports the file as a zombie

  /** An input file: its name and, unless it cannot be opened, its top-level keys. */
  datatype InputFile = InputFile(name: string, contents: Option<seq<Key>>)

  /** The histograms read from one file: its root labels are the `[^_]+` tokens of its base name. */
  function ExtractFile(f: InputFile): (r: Result<seq<RawHist>, Error>)
    ensures r.Success? <==> MatchFileName(f.name).Some? && f.contents.Some?
    ensures MatchFileName(f.name).None? ==> r == Failure(FileNameMismatch(f.name))
    ensures MatchFileName(f.name).Some? && f.contents.None? ==> r == Failure(CannotOpen(f.name))
    ensures r.Success? ==> forall i :: 0 <= i < |r.value| ==>
      SplitRuns(MatchFileName(f.name).value) <= r.value[i].props
  {
    match MatchFileName(f.name)
    case None => Failure(FileNameMismatch(f.name))
    case Some(base) =>
      match f.contents
      case None => Failure(CannotOpen(f.name))
      case Some(keys) => Success(Walk(keys, SplitRuns(base), 0))
  }

  /** The histograms read from all files in order, or the error of the first file that fails. */
  function Extract(files: seq<InputFile>): (r: Result<seq<RawHist>, Error>)
    ensures r.Success? <==> forall i :: 0 <= i < |files| ==> ExtractFile(files[i]).Success?
    ensures r.Failure? ==>
      exists i :: 0 <= i < |files| && ExtractFile(files[i]) == Failure(r.error) &&
                  forall j :: 0 <= j < i ==> ExtractFile(files[j]).Success?
  {
    if files == [] then Success([])
    else
      var front := files[..|files| - 1];
      assert forall i :: 0 <= i < |front| ==> front[i] == files[i];
      match Extract(front)
      case Failure(e) => Failure(e)
      case Success(done) =>
        match ExtractFile(files[|files| - 1])
        case Failure(e) => Failure(e)
        case Success(more) => Success(done + more)
  }

  /** Once a prefix of the files fails, the whole run fails with the same error. */
  lemma {:induction false} ExtractStopsAtError(files: seq<InputFile>, i: nat)
    requires i <= |files| && Extract(files[..i]).Failure?
    ensures Extract(files) == Extract(files[..i])
    decreases |files| - i
  {
    if i < |files| {
      assert files[..i + 1][..i] == files[..i];
      ExtractStopsAtError(files, i + 1);
    } else {
      assert files[..i] == files;
    }
  }

  /** The global state of make_db.cc (lines 93-101) as one object. */
  class Session {
    var edges: set<Axis>
    var edgesList: seq<Axis>
    var hs: seq<HistRecord>

    function Model(): State
      reads this
    {
      State(edgesList, hs)
    }

    /** The set holds exactly the listed vectors, none listed twice, and every record's id is valid. */
    ghost predicate Valid()
      reads this
    {
      Consistent(Model()) && edges == Elems(edgesList)
    }

    constructor ()
      ensures Valid() && Model() == Empty && edges == {}
    {
      edges := {};
      edgesList := [];
      hs := [];
    }

    /**
     * `edges.emplace` and the id assignment (make_db.cc:154-162): a new vector
     * enters the set and the end of the list, an old one is looked up by
     * position in the list.
     */
    method InternEdges(e: Axis) returns (id: nat)
      requires Valid()
      modifies this`edges, this`edgesList
      ensures Valid() && hs == old(hs)
      ensures Interned(id, edgesList) == Intern(old(edgesList), e)
      ensures |edges| == |edgesList|
    {
      if e !in edges {
        edges := edges + {e};
        edgesList := edgesList + [e];
        id := |edgesList| - 1;
        InternKeepsNoDup(old(edgesList), e);
      } else {
        id := Find(edgesList, e);
        assert id == IndexOf(edgesList, e);
      }
      ElemsSize(edgesList);
    }

    /**
     * One histogram key (make_db.cc:147-168): read its edges and intern them,
     * read its bins, and append the record with the labels `props` followed by
     * the pair tokens of its name.
     */
    method AddHistogram(h: TH1, props: seq<string>)
      requires Valid()
      modifies this
      ensures Valid()
      ensures Model() == Add(old(Model()), Record(h, props))
    {
      var e := ReadEdges(h);
      var id := InternEdges(e);
      var bins := ReadBins(h);
      hs := hs + [HistRecord(props + SplitPairs(h.name), bins, id)];
      InternKeepsNoDup(old(edgesList), e);
    }

    /** The recursive walk over the keys of a directory (make_db.cc:136-170). */
    method WalkKeys(keys: seq<Key>, props: seq<string>, depth: nat)
      requires Valid()
      modifies this
      ensures Valid()
      ensures Model() == AddAll(old(Model()), Walk(keys, props, depth))
      decreases keys
    {
      for i := 0 to |keys|
        invariant Valid()
        invariant Model() == AddAll(old(Model()), Walk(keys[..i], props, depth))
      {
        ghost var before := Walk(keys[..i], props, depth);
        ghost var step := Visit(keys[i], props, depth);
        assert keys[..i + 1][..i] == keys[..i];
        assert Walk(keys[..i + 1], props, depth) == before + step;
        AddAllAppend(old(Model()), before, step);
        match keys[i]
        case Directory(name, sub) =>
          WalkKeys(sub, props + [name], depth + 1);
        case Histogram(h) =>
          if !(depth == 0 && h.name == NormalisationName) {
            AddHistogram(h, props);
            assert step == [Record(h, props)];
          }
        case OtherObject(_) =>
      }
      assert keys[..|keys|] == keys;
    }

    /** One input file (make_db.cc:123-171): check its name, open it and walk it. */
    method AddFile(f: InputFile) returns (r: Outcome<Error>)
      requires Valid()
      modifies this
      ensures Valid()
      ensures ExtractFile(f).Failure? ==> r == Fail(ExtractFile(f).error) && Model() == old(Model())
      ensures ExtractFile(f).Success? ==> r == Pass && Model() == AddAll(old(Model()), ExtractFile(f).value)
    {
      var base := MatchFileName(f.name);
      if base.None? {
        return Fail(FileNameMismatch(f.name));
      }
      if f.contents.None? {
        return Fail(CannotOpen(f.name));
      }
      WalkKeys(f.contents.value, SplitRuns(base.value), 0);
      r := Pass;
    }

    /** The loop computing nprops (make_db.cc:177-179). */
    method NProps() returns (n: nat)
      ensures n == MaxProps(hs)
    {
      n := 0;
      for k := 0 to |hs|
        invariant n == MaxProps(hs[..k])
      {
        assert hs[..k + 1][..k] == hs[..k];
        n := if n < |hs[k].props| then |hs[k].props| else n;
      }
      assert hs[..|hs|] == hs;
    }

    /** The row-building loop (make_db.cc:195-201): each record's labels padded with '' up to `nprops`. */
    method BuildRows(nprops: nat) returns (rows: seq<Row>)
      ensures rows == Rows(hs, nprops)
    {
      rows := [];
      for k := 0 to |hs|
        invariant |rows| == k
        invariant forall j :: 0 <= j < k ==> rows[j] == RowOf(hs[j], nprops)
      {
        var h := hs[k];
        var labels := h.props;
        var i := |h.props|;
        while i < nprops
          invariant |h.props| <= i
          invariant i <= nprops || i == |h.props|
          invariant labels == h.props + seq(i - |h.props|, _ => "")
          decreases nprops - i
        {
          labels := labels + [""];
          i := i + 1;
        }
        assert labels == Padded(h.props, nprops);
        rows := rows + [Row(labels, h.edges, h.bins)];
      }
      assert rows == Rows(hs, nprops);
    }
  }

  /**
   * A whole run (make_db.cc:103-212 without the database I/O): every input
   * file in order into one session, then the schema and the rows of `hist`.
   * The first bad file stops the run before anything is written.
   */
  method Run(files: seq<InputFile>, given: seq<string>) returns (r: Result<Database, Error>)
    ensures Extract(files).Failure? ==> r == Failure(Extract(files).error)
    ensures Extract(files).Success? ==> r == Success(Output(AddAll(Empty, Extract(files).value), given))
  {
    var s := new Session();
    for i := 0 to |files|
      invariant s.Valid()
      invariant Extract(files[..i]).Success?
      invariant s.Model() == AddAll(Empty, Extract(files[..i]).value)
    {
      ghost var done := Extract(files[..i]).value;
      assert files[..i + 1][..i] == files[..i];
      var outcome := s.AddFile(files[i]);
      if outcome.Fail? {
        ExtractStopsAtError(files, i + 1);
        return Failure(outcome.error);
      }
      AddAllAppend(Empty, done, ExtractFile(files[i]).value);
    }
    assert files[..|files|] == files;
    var nprops := s.NProps();
    var names := ExtendNames(given, nprops);
    var rows := s.BuildRows(nprops);
    r := Success(Database(names + [EdgesColumn, BinsColumn], rows));
  }
}
