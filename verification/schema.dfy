/**
 * Schema reconciliation and row building (make_db.cc:177-201): the number of
 * label columns is the longest label vector of the corpus, the user's column
 * names are completed with synthetic `prop<i>` names, and every row's labels
 * are padded on the right with empty strings.
 */
module Schema {
  import opened Corpus

  /** nprops: the largest label count in the corpus, 0 for an empty corpus. */
  function MaxProps(hs: seq<HistRecord>): (n: nat)
    ensures forall k :: 0 <= k < |hs| ==> |hs[k].props| <= n
    ensures hs == [] ==> n == 0
    ensures hs != [] ==> exists k :: 0 <= k < |hs| && |hs[k].props| == n
  {
    if hs == [] then 0
    else
      var m := MaxProps(hs[..|hs| - 1]);
      var w := |hs[|hs| - 1].props|;
      if m < w then w else m
  }

  // ---------------------------------------------------------------------------
  // Synthetic column names

  function Digit(d: nat): char
    requires d < 10
  {
    ('0' as int + d) as char
  }

  /** The decimal text of `n`, as `cat` writes a size_t. */
  function Decimal(n: nat): (s: string)
    ensures |s| >= 1
    ensures forall i :: 0 <= i < |s| ==> '0' <= s[i] <= '9'
  {
    if n < 10 then [Digit(n)] else Decimal(n / 10) + [Digit(n % 10)]
  }

  /** The value of a string of decimal digits. */
  function ParseDecimal(s: string): nat
    requires forall i :: 0 <= i < |s| ==> '0' <= s[i] <= '9'
  {
    if s == [] then 0 else 10 * ParseDecimal(s[..|s| - 1]) + (s[|s| - 1] - '0') as nat
  }

  /** Reading back the decimal text of a number gives the number. */
  lemma {:induction false} DecimalRoundTrip(n: nat)
    ensures ParseDecimal(Decimal(n)) == n
  {
    if n >= 10 {
      var q, d := n / 10, n % 10;
      DecimalRoundTrip(q);
      var s := Decimal(n);
      assert s == Decimal(q) + [Digit(d)];
      assert s[..|s| - 1] == Decimal(q);
      assert (s[|s| - 1] - '0') as nat == d;
      assert n == 10 * q + d;
    }
  }

  const SyntheticPrefix: string := "prop"

  /** The name make_db.cc gives to label column `i` when the user named fewer columns. */
  function SyntheticName(i: nat): string {
    SyntheticPrefix + Decimal(i)
  }

  /** Different label columns receive different synthetic names. */
  lemma SyntheticNamesDistinct(i: nat, j: nat)
    requires i != j
    ensures SyntheticName(i) != SyntheticName(j)
  {
    if SyntheticName(i) == SyntheticName(j) {
      var p := |SyntheticPrefix|;
      assert Decimal(i) == SyntheticName(i)[p..];
      assert Decimal(j) == SyntheticName(j)[p..];
      DecimalRoundTrip(i);
      DecimalRoundTrip(j);
    }
  }

  /**
   * The label column names: the user's names unchanged, followed by synthetic
   * names for the remaining columns up to `nprops`.
   */
  function PropsNames(given: seq<string>, nprops: nat): (names: seq<string>)
    ensures |names| == if |given| < nprops then nprops else |given|
    ensures names[..|given|] == given
    ensures forall i :: |given| <= i < |names| ==> names[i] == SyntheticName(i)
  {
    if |given| < nprops then
      given + seq(nprops - |given|, j requires 0 <= j < nprops - |given| => SyntheticName(|given| + j))
    else given
  }

  /** The loop completing `props_names` (make_db.cc:181-182). */
  method ExtendNames(given: seq<string>, nprops: nat) returns (names: seq<string>)
    ensures names == PropsNames(given, nprops)
  {
    names := given;
    var i := |given|;
    while i < nprops
      invariant |given| <= i
      invariant i <= nprops || i == |given|
      invariant |names| == i && names[..|given|] == given
      invariant forall j :: |given| <= j < i ==> names[j] == SyntheticName(j)
      decreases nprops - i
    {
      names := names + [SyntheticName(i)];
      i := i + 1;
    }
  }

  // ---------------------------------------------------------------------------
  // Rows of the hist table

  /** One row of table `hist`: the label values, the edge id and the bins. */
  datatype Row = Row(labels: seq<string>, edges: nat, bins: seq<real>)

  /**
   * `props` followed by empty strings up to `nprops` values: the labels are
   * kept in order and only empty strings are added.
   */
  function Padded(props: seq<string>, nprops: nat): (r: seq<string>)
    ensures |r| == if |props| < nprops then nprops else |props|
    ensures r[..|props|] == props
    ensures forall i :: |props| <= i < |r| ==> r[i] == ""
  {
    if |props| < nprops then props + seq(nprops - |props|, _ => "") else props
  }

  function RowOf(h: HistRecord, nprops: nat): Row {
    Row(Padded(h.props, nprops), h.edges, h.bins)
  }

  /** The rows of table `hist` for a corpus, in corpus order. */
  function Rows(hs: seq<HistRecord>, nprops: nat): (rows: seq<Row>)
    ensures |rows| == |hs|
    ensures forall k :: 0 <= k < |hs| && |hs[k].props| <= nprops ==> |rows[k].labels| == nprops
    ensures forall k :: 0 <= k < |hs| ==>
      hs[k].props <= rows[k].labels &&
      rows[k].edges == hs[k].edges && rows[k].bins == hs[k].bins
    ensures forall k, i :: 0 <= k < |hs| && |hs[k].props| <= i < |rows[k].labels| ==> rows[k].labels[i] == ""
  {
    seq(|hs|, k requires 0 <= k < |hs| => RowOf(hs[k], nprops))
  }

  /** The two fixed columns of table `hist` that follow the label columns. */
  const EdgesColumn: string := "edges"
  const BinsColumn: string := "bins"

  /** The table `hist` as make_db.cc would write it: its columns and its rows. */
  datatype Database = Database(columns: seq<string>, rows: seq<Row>)

  /** What the run writes for a completed corpus and the user's column names. */
  function Output(c: State, given: seq<string>): (out: Database)
    ensures |out.columns| == 2 + if |given| < MaxProps(c.hs) then MaxProps(c.hs) else |given|
    ensures out.columns[..|given|] == given
    ensures out.columns[|out.columns| - 2..] == [EdgesColumn, BinsColumn]
    ensures |out.rows| == |c.hs|
    ensures forall k :: 0 <= k < |out.rows| ==> |out.rows[k].labels| == MaxProps(c.hs)
  {
    var nprops := MaxProps(c.hs);
    Database(PropsNames(given, nprops) + [EdgesColumn, BinsColumn], Rows(c.hs, nprops))
  }

  /**
   * Every row of the output carries exactly nprops label values: the record's
   * labels in order and then empty strings, followed by its edge id and bins.
   * Each row has one value per column exactly when the user named no more
   * label columns than nprops.
   */
  lemma OutputRows(c: State, given: seq<string>, k: nat)
    requires k < |c.hs|
    ensures var out, n := Output(c, given), MaxProps(c.hs);
      |out.rows| == |c.hs| &&
      |out.rows[k].labels| == n &&
      out.rows[k].labels[..|c.hs[k].props|] == c.hs[k].props &&
      (forall i :: |c.hs[k].props| <= i < n ==> out.rows[k].labels[i] == "") &&
      out.rows[k].edges == c.hs[k].edges && out.rows[k].bins == c.hs[k].bins &&
      (|out.columns| == |out.rows[k].labels| + 2 <==> |given| <= n)
  {
  }
}
