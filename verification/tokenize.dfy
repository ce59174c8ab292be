/**
 * The three fixed regular expressions of make_db.cc, written out as string
 * functions: the input file-name pattern `.*\/(.+)\.root$`, the root-label
 * tokens `[^_]+` and the leaf-name tokens `[^_]+_[^_]+`.  The tokenisers follow
 * the search loop of a regex token iterator (try to match at the current
 * position, otherwise advance by one character) and are proved equal to
 * reference definitions built on the underscore-separated fields of the name.
 */
module Tokenize {
  import opened Wrappers

  predicate NoUnderscore(s: string) {
    forall i :: 0 <= i < |s| ==> s[i] != '_'
  }

  /** Length of the longest underscore-free prefix of `s`. */
  function RunLength(s: string): (n: nat)
    ensures n <= |s|
  {
    if s == [] || s[0] == '_' then 0 else 1 + RunLength(s[1..])
  }

  /** The run is free of underscores and, unless it reaches the end, stops at one. */
  lemma {:induction false} RunLengthSpec(s: string)
    ensures forall i :: 0 <= i < RunLength(s) ==> s[i] != '_'
    ensures RunLength(s) < |s| ==> s[RunLength(s)] == '_'
  {
    var n := RunLength(s);
    if s != [] && s[0] != '_' {
      RunLengthSpec(s[1..]);
      assert forall i :: 1 <= i < n ==> s[i] == s[1..][i - 1];
    }
  }

  /** Any prefix length with those two properties is the run length. */
  lemma RunLengthUnique(s: string, k: nat)
    requires k <= |s| && (forall i :: 0 <= i < k ==> s[i] != '_') && (k < |s| ==> s[k] == '_')
    ensures RunLength(s) == k
  {
    RunLengthSpec(s);
  }

  // ---------------------------------------------------------------------------
  // Reference: underscore-separated fields

  /** The fields of `s` between underscores, empty ones included. */
  function Fields(s: string): (fs: seq<string>)
    ensures |fs| >= 1
    decreases |s|
  {
    var n := RunLength(s);
    if n == |s| then [s] else [s[..n]] + Fields(s[n + 1..])
  }

  /** Fields joined back with one underscore between neighbours. */
  function Join(fs: seq<string>): string
    requires |fs| >= 1
  {
    if |fs| == 1 then fs[0] else fs[0] + "_" + Join(fs[1..])
  }

  lemma Decompose(s: string, n: nat)
    requires n < |s|
    ensures s == s[..n] + [s[n]] + s[n + 1..]
  {
  }

  lemma DecomposePrefix(s: string, n: nat, m: nat)
    requires n < m <= |s|
    ensures s[..m] == s[..n] + [s[n]] + s[n + 1..m]
  {
    Decompose(s[..m], n);
  }

  /** A string with an underscore is its first run, that underscore and the rest. */
  lemma SplitAtRun(s: string)
    requires RunLength(s) < |s|
    ensures NoUnderscore(s[..RunLength(s)])
    ensures s == s[..RunLength(s)] + "_" + s[RunLength(s) + 1..]
  {
    RunLengthSpec(s);
    assert forall i :: 0 <= i < RunLength(s) ==> s[..RunLength(s)][i] == s[i];
    Decompose(s, RunLength(s));
  }

  /** No field holds an underscore. */
  lemma {:induction false} FieldsShape(s: string)
    ensures forall k :: 0 <= k < |Fields(s)| ==> NoUnderscore(Fields(s)[k])
    decreases |s|
  {
    var n := RunLength(s);
    RunLengthSpec(s);
    if n < |s| {
      FieldsShape(s[n + 1..]);
    } else {
      assert s[..n] == s;
    }
  }

  lemma RunLengthOfJoin(a: string, rest: string)
    requires NoUnderscore(a)
    ensures RunLength(a) == |a|
    ensures RunLength(a + "_" + rest) == |a|
  {
    var t := a + "_" + rest;
    RunLengthUnique(a, |a|);
    assert forall i :: 0 <= i < |a| ==> t[i] == a[i];
    RunLengthUnique(t, |a|);
  }

  /** An underscore-free first field is split off at the first underscore. */
  lemma FieldsCons(a: string, rest: string)
    requires NoUnderscore(a)
    ensures Fields(a + "_" + rest) == [a] + Fields(rest)
  {
    var t := a + "_" + rest;
    RunLengthOfJoin(a, rest);
    assert t[..|a|] == a;
    assert t[|a| + 1..] == rest;
  }

  /** A leading underscore gives an empty first field. */
  lemma FieldsAfterUnderscore(w: string)
    requires w != [] && w[0] == '_'
    ensures Fields(w) == [""] + Fields(w[1..])
  {
    assert w == "" + "_" + w[1..];
    FieldsCons("", w[1..]);
  }

  /** A string without underscores is a single field. */
  lemma FieldsOfRun(a: string)
    requires NoUnderscore(a)
    ensures Fields(a) == [a]
  {
    RunLengthOfJoin(a, "");
  }

  lemma JoinCons(a: string, fs: seq<string>)
    requires |fs| >= 1
    ensures Join([a] + fs) == a + "_" + Join(fs)
  {
    assert ([a] + fs)[1..] == fs;
  }

  /** Joining the fields of a string gives the string back. */
  lemma {:induction false} JoinFields(s: string)
    ensures |Fields(s)| >= 1 && Join(Fields(s)) == s
    decreases |s|
  {
    var n := RunLength(s);
    if n < |s| {
      var a, rest := s[..n], s[n + 1..];
      SplitAtRun(s);
      FieldsCons(a, rest);
      JoinFields(rest);
      JoinCons(a, Fields(rest));
    }
  }

  /** Splitting a join of underscore-free fields gives the fields back. */
  lemma {:induction false} FieldsJoin(fs: seq<string>)
    requires |fs| >= 1
    requires forall k :: 0 <= k < |fs| ==> NoUnderscore(fs[k])
    ensures Fields(Join(fs)) == fs
  {
    if |fs| == 1 {
      FieldsOfRun(fs[0]);
    } else {
      FieldsCons(fs[0], Join(fs[1..]));
      FieldsJoin(fs[1..]);
      assert fs == [fs[0]] + fs[1..];
    }
  }

  // ---------------------------------------------------------------------------
  // `[^_]+`: maximal runs of non-underscore characters

  /**
   * The tokens of `[^_]+` in `s`, left to right: a match starts at any
   * non-underscore character and, being greedy, takes the whole run.
   */
  function SplitRuns(s: string): (r: seq<string>)
    ensures forall k :: 0 <= k < |r| ==> r[k] != "" && NoUnderscore(r[k])
    decreases |s|
  {
    if s == [] then []
    else if s[0] == '_' then SplitRuns(s[1..])
    else
      var n := RunLength(s);
      RunLengthSpec(s);
      assert forall i :: 0 <= i < n ==> s[..n][i] == s[i];
      [s[..n]] + SplitRuns(s[n..])
  }

  /** The non-empty members of `fs`, in order. */
  function NonEmpty(fs: seq<string>): (r: seq<string>)
  {
    if fs == [] then []
    else if fs[0] == "" then NonEmpty(fs[1..])
    else [fs[0]] + NonEmpty(fs[1..])
  }

  /** The runs of a string are exactly its non-empty underscore-separated fields. */
  lemma {:induction false} SplitRunsIsNonEmptyFields(s: string)
    ensures SplitRuns(s) == NonEmpty(Fields(s))
    decreases |s|
  {
    if s == [] {
      assert Fields(s) == [""];
    } else if s[0] == '_' {
      SplitRunsIsNonEmptyFields(s[1..]);
      FieldsAfterUnderscore(s);
    } else {
      var n := RunLength(s);
      RunLengthSpec(s);
      if n == |s| {
        assert s[..n] == s;
        FieldsOfRun(s);
      } else {
        var a, t := s[..n], s[n..];
        SplitAtRun(s);
        FieldsCons(a, s[n + 1..]);
        assert t[0] == '_' && t[1..] == s[n + 1..];
        SplitRunsIsNonEmptyFields(s[n + 1..]);
        assert SplitRuns(t) == SplitRuns(s[n + 1..]);
      }
    }
  }

  lemma {:induction false} NonEmptyKeeps(fs: seq<string>)
    requires forall k :: 0 <= k < |fs| ==> fs[k] != ""
    ensures NonEmpty(fs) == fs
  {
    if fs != [] {
      NonEmptyKeeps(fs[1..]);
    }
  }

  /** A name made of non-empty underscore-free parts joined by `_` splits back into those parts. */
  lemma SplitRunsJoin(fs: seq<string>)
    requires |fs| >= 1
    requires forall k :: 0 <= k < |fs| ==> fs[k] != "" && NoUnderscore(fs[k])
    ensures SplitRuns(Join(fs)) == fs
  {
    SplitRunsIsNonEmptyFields(Join(fs));
    FieldsJoin(fs);
    NonEmptyKeeps(fs);
  }

  // ---------------------------------------------------------------------------
  // `[^_]+_[^_]+`: underscore-joined pairs

  /** `t` is one match of `[^_]+_[^_]+`: one underscore with non-empty sides. */
  ghost predicate IsPair(t: string) {
    exists k :: 0 < k < |t| - 1 && t[k] == '_' && NoUnderscore(t[..k]) && NoUnderscore(t[k + 1..])
  }

  /** Length of the greedy match of `[^_]+_[^_]+` anchored at the start of `s`; 0 when none. */
  function PairMatch(s: string): (m: nat)
    ensures m <= |s|
    ensures m == 0 || 3 <= m
  {
    var n := RunLength(s);
    if 0 < n && n + 1 < |s| && s[n + 1] != '_' then n + 1 + RunLength(s[n + 1..]) else 0
  }

  lemma SubSlice(s: string, i: nat, j: nat)
    requires i <= j <= |s|
    ensures s[i..j] == s[i..][..j - i]
  {
  }

  /** A match at the start of `s` is a non-empty run, an underscore and another non-empty run. */
  lemma MatchParts(s: string, n: nat, m: nat)
    requires m == PairMatch(s) > 0 && n == RunLength(s)
    ensures 0 < n && n + 1 < m <= |s| && s[n] == '_'
    ensures NoUnderscore(s[..n]) && NoUnderscore(s[n + 1..m])
    ensures m < |s| ==> s[m] == '_'
  {
    RunLengthSpec(s);
    var u := s[n + 1..];
    RunLengthSpec(u);
    SubSlice(s, n + 1, m);
    if m < |s| {
      assert s[m] == u[m - n - 1];
    }
  }

  /** A pair with its underscore at `k` spanning `s[..j]` is no longer than the greedy match. */
  lemma PairMatchCovers(s: string, j: nat, k: nat)
    requires j <= |s| && 0 < k < j - 1 && s[k] == '_'
    requires forall i :: 0 <= i < k ==> s[i] != '_'
    requires forall i :: k < i < j ==> s[i] != '_'
    ensures j <= PairMatch(s)
  {
    RunLengthUnique(s, k);
    var u := s[k + 1..];
    RunLengthSpec(u);
    assert forall i :: 0 <= i < j - k - 1 ==> u[i] == s[k + 1 + i];
  }

  /** PairMatch finds the longest prefix matching the pattern, or reports that none does. */
  lemma PairMatchIsLongest(s: string)
    ensures PairMatch(s) > 0 ==> IsPair(s[..PairMatch(s)])
    ensures forall j :: PairMatch(s) < j <= |s| ==> !IsPair(s[..j])
  {
    var n := RunLength(s);
    var m := PairMatch(s);
    if m > 0 {
      MatchParts(s, n, m);
      var t := s[..m];
      assert t[n] == '_' && t[..n] == s[..n] && t[n + 1..] == s[n + 1..m];
    }
    forall j | m < j <= |s|
      ensures !IsPair(s[..j])
    {
      if IsPair(s[..j]) {
        var t := s[..j];
        var k :| 0 < k < |t| - 1 && t[k] == '_' && NoUnderscore(t[..k]) && NoUnderscore(t[k + 1..]);
        assert forall i :: 0 <= i < k ==> s[i] == t[..k][i];
        assert forall i :: k < i < j ==> s[i] == t[k + 1..][i - k - 1];
        PairMatchCovers(s, j, k);
        assert false;
      }
    }
  }

  /**
   * The tokens of `[^_]+_[^_]+` in `s`, left to right and non-overlapping: where a
   * match starts it is taken whole, otherwise the search moves on by one character.
   */
  function SplitPairs(s: string): (r: seq<string>)
    ensures forall k :: 0 <= k < |r| ==> IsPair(r[k])
    decreases |s|
  {
    if s == [] then []
    else
      var m := PairMatch(s);
      PairMatchIsLongest(s);
      if m > 0 then [s[..m]] + SplitPairs(s[m..]) else SplitPairs(s[1..])
  }

  /** Adjacent non-empty fields, paired from the left; an empty field breaks a pair. */
  function PairFields(fs: seq<string>): seq<string>
  {
    if |fs| < 2 then []
    else if fs[0] != "" && fs[1] != "" then [fs[0] + "_" + fs[1]] + PairFields(fs[2..])
    else PairFields(fs[1..])
  }

  /** An empty field, or a field followed by an empty one, pairs with nothing. */
  lemma PairFieldsSkip(a: string, rest: seq<string>)
    requires a == "" || (|rest| >= 1 && rest[0] == "")
    ensures PairFields([a] + rest) == PairFields(rest)
  {
    assert ([a] + rest)[1..] == rest;
  }

  /** The fields of the text after a run that no pair continues start with an empty one. */
  lemma EmptyFieldNext(w: string)
    requires w == [] || w[0] == '_'
    ensures Fields(w)[0] == ""
  {
    if w != [] {
      FieldsAfterUnderscore(w);
    }
  }

  lemma DropFirst(a: string, w: string)
    requires a != []
    ensures (a + "_" + w)[1..] == a[1..] + "_" + w
  {
  }

  /** Shortening a first field that no pair can follow does not change the pairs. */
  lemma PairFieldsDropFirstChar(a: string, w: string)
    requires a != "" && NoUnderscore(a) && (w == [] || w[0] == '_')
    ensures PairFields(Fields(a[1..] + "_" + w)) == PairFields(Fields(a + "_" + w))
  {
    assert NoUnderscore(a[1..]) by {
      assert forall i :: 0 <= i < |a| - 1 ==> a[1..][i] == a[i + 1];
    }
    FieldsCons(a, w);
    FieldsCons(a[1..], w);
    EmptyFieldNext(w);
    PairFieldsSkip(a, Fields(w));
    PairFieldsSkip(a[1..], Fields(w));
  }

  /** Shortening a string without underscores leaves it without pairs. */
  lemma PairFieldsOfRun(s: string)
    requires s != [] && NoUnderscore(s)
    ensures PairFields(Fields(s[1..])) == PairFields(Fields(s)) == []
  {
    assert NoUnderscore(s[1..]) by {
      assert forall i :: 0 <= i < |s| - 1 ==> s[1..][i] == s[i + 1];
    }
    FieldsOfRun(s);
    FieldsOfRun(s[1..]);
  }

  /** Skipping an unmatched character does not change how the remaining fields pair up. */
  lemma SkipUnmatched(s: string)
    requires s != [] && s[0] != '_' && PairMatch(s) == 0
    ensures PairFields(Fields(s[1..])) == PairFields(Fields(s))
  {
    var n := RunLength(s);
    if n < |s| {
      var a, w := s[..n], s[n + 1..];
      SplitAtRun(s);
      DropFirst(a, w);
      PairFieldsDropFirstChar(a, w);
    } else {
      RunLengthSpec(s);
      assert s[..n] == s;
      PairFieldsOfRun(s);
    }
  }

  /** Two non-empty leading fields form the first pair. */
  lemma PairFieldsHead(a: string, b: string, rest: seq<string>)
    requires a != "" && b != ""
    ensures PairFields([a] + ([b] + rest)) == [a + "_" + b] + PairFields(rest)
  {
    var fs := [a] + ([b] + rest);
    assert fs[0] == a && fs[1] == b && fs[2..] == rest;
  }

  /** Two non-empty underscore-free fields followed by an underscore pair up. */
  lemma PairFieldsOfParts(a: string, b: string, rest: string)
    requires a != "" && b != "" && NoUnderscore(a) && NoUnderscore(b)
    ensures PairFields(Fields(a + "_" + b + "_" + rest)) == [a + "_" + b] + PairFields(Fields(rest))
  {
    var fs := Fields(rest);
    assert a + "_" + b + "_" + rest == a + "_" + (b + "_" + rest);
    assert Fields(a + "_" + (b + "_" + rest)) == [a] + ([b] + fs) by {
      FieldsCons(a, b + "_" + rest);
      FieldsCons(b, rest);
    }
    PairFieldsHead(a, b, fs);
  }

  /** Two non-empty underscore-free fields ending the string pair up. */
  lemma PairFieldsOfLastParts(a: string, b: string)
    requires a != "" && b != "" && NoUnderscore(a) && NoUnderscore(b)
    ensures PairFields(Fields(a + "_" + b)) == [a + "_" + b]
  {
    FieldsCons(a, b);
    FieldsOfRun(b);
    assert PairFields([a] + [b]) == [a + "_" + b] + PairFields([]);
  }

  /** A match at the start of `s` is the pairing of its first two fields. */
  lemma PairFieldsAfterMatch(s: string)
    requires PairMatch(s) > 0
    ensures PairFields(Fields(s)) == [s[..PairMatch(s)]] + PairFields(Fields(s[PairMatch(s)..]))
  {
    var n := RunLength(s);
    var m := PairMatch(s);
    var a, b := s[..n], s[n + 1..m];
    MatchParts(s, n, m);
    DecomposePrefix(s, n, m);
    if m < |s| {
      var w, rest := s[m..], s[m + 1..];
      Decompose(s, m);
      PairFieldsOfParts(a, b, rest);
      assert w[1..] == rest;
      FieldsAfterUnderscore(w);
      PairFieldsSkip("", Fields(rest));
    } else {
      assert s == a + "_" + b;
      PairFieldsOfLastParts(a, b);
      assert s[m..] == "";
      assert Fields("") == [""];
    }
  }

  /** The pair tokens are exactly the pairs of adjacent non-empty fields. */
  lemma {:induction false} SplitPairsIsPairFields(s: string)
    ensures SplitPairs(s) == PairFields(Fields(s))
    decreases |s|
  {
    if s == [] {
    } else if s[0] == '_' {
      SplitPairsIsPairFields(s[1..]);
      FieldsAfterUnderscore(s);
      PairFieldsSkip("", Fields(s[1..]));
    } else if PairMatch(s) == 0 {
      SplitPairsIsPairFields(s[1..]);
      SkipUnmatched(s);
    } else {
      SplitPairsIsPairFields(s[PairMatch(s)..]);
      PairFieldsAfterMatch(s);
    }
  }

  /** Pairing fields that are all non-empty: `f0_f1`, `f2_f3`, ... with an odd last field dropped. */
  lemma {:induction false} PairFieldsOfNonEmpty(fs: seq<string>)
    requires forall k :: 0 <= k < |fs| ==> fs[k] != ""
    ensures |PairFields(fs)| == |fs| / 2
    ensures forall i :: 0 <= i < |fs| / 2 ==> PairFields(fs)[i] == fs[2 * i] + "_" + fs[2 * i + 1]
  {
    if |fs| >= 2 {
      PairFieldsOfNonEmpty(fs[2..]);
      var rest := PairFields(fs[2..]);
      assert PairFields(fs) == [fs[0] + "_" + fs[1]] + rest;
      forall i | 1 <= i < |fs| / 2
        ensures PairFields(fs)[i] == fs[2 * i] + "_" + fs[2 * i + 1]
      {
        assert rest[i - 1] == fs[2..][2 * (i - 1)] + "_" + fs[2..][2 * (i - 1) + 1];
      }
    }
  }

  /**
   * A leaf name made of non-empty underscore-free fields splits into the fields
   * paired from the left; an odd last field is dropped.
   */
  lemma SplitPairsJoin(fs: seq<string>)
    requires |fs| >= 1
    requires forall k :: 0 <= k < |fs| ==> fs[k] != "" && NoUnderscore(fs[k])
    ensures |SplitPairs(Join(fs))| == |fs| / 2
    ensures forall i :: 0 <= i < |fs| / 2 ==> SplitPairs(Join(fs))[i] == fs[2 * i] + "_" + fs[2 * i + 1]
  {
    SplitPairsIsPairFields(Join(fs));
    FieldsJoin(fs);
    PairFieldsOfNonEmpty(fs);
  }

  lemma JoinOfFour(a: string, b: string, c: string, d: string)
    ensures Join([a, b, c, d]) == a + "_" + b + "_" + c + "_" + d
  {
    var fs := [a, b, c, d];
    assert Join(fs[3..]) == d;
    assert Join(fs[2..]) == c + "_" + d;
    assert Join(fs[1..]) == b + "_" + (c + "_" + d);
  }

  lemma JoinOfThree(a: string, b: string, c: string)
    ensures Join([a, b, c]) == a + "_" + b + "_" + c
  {
    var fs := [a, b, c];
    assert Join(fs[2..]) == c;
    assert Join(fs[1..]) == b + "_" + c;
  }

  /** A leaf name of four fields, such as `abc_def_ghi_jkl`, splits into `abc_def` and `ghi_jkl`. */
  lemma SplitPairsFourFields(a: string, b: string, c: string, d: string)
    requires a != "" && b != "" && c != "" && d != ""
    requires NoUnderscore(a) && NoUnderscore(b) && NoUnderscore(c) && NoUnderscore(d)
    ensures SplitPairs(a + "_" + b + "_" + c + "_" + d) == [a + "_" + b, c + "_" + d]
  {
    JoinOfFour(a, b, c, d);
    SplitPairsJoin([a, b, c, d]);
  }

  /** In a leaf name of three fields, such as `a_b_c`, the trailing unpaired field is dropped. */
  lemma SplitPairsDropsUnpaired(a: string, b: string, c: string)
    requires a != "" && b != "" && c != ""
    requires NoUnderscore(a) && NoUnderscore(b) && NoUnderscore(c)
    ensures SplitPairs(a + "_" + b + "_" + c) == [a + "_" + b]
  {
    JoinOfThree(a, b, c);
    SplitPairsJoin([a, b, c]);
  }

  // ---------------------------------------------------------------------------
  // Input file name `.*\/(.+)\.root$`, matched against the whole name

  const Extension: string := ".root"

  /** The largest index below `bound` holding a '/', if any. */
  function LastSlashBelow(s: string, bound: nat): (r: Option<nat>)
    requires bound <= |s|
    ensures r.Some? ==> r.value < bound && s[r.value] == '/'
    ensures r.Some? ==> forall j :: r.value < j < bound ==> s[j] != '/'
    ensures r.None? ==> forall j :: 0 <= j < bound ==> s[j] != '/'
  {
    if bound == 0 then None
    else if s[bound - 1] == '/' then Some(bound - 1)
    else LastSlashBelow(s, bound - 1)
  }

  /**
   * `s` matches the file pattern with the `/` before the captured name at index
   * `k`: it ends in ".root" and at least one character lies between them.
   */
  predicate SlashAt(s: string, k: int) {
    |s| >= |Extension| && s[|s| - |Extension|..] == Extension &&
    0 <= k < |s| - |Extension| - 1 && s[k] == '/'
  }

  /**
   * The name captured by `.*\/(.+)\.root$`. The pattern matches iff some `/`
   * leaves a non-empty name before the final ".root"; the greedy `.*` then picks
   * the last such `/`.
   */
  function MatchFileName(s: string): (r: Option<string>)
    ensures r.Some? <==> exists k :: SlashAt(s, k)
    ensures r.Some? ==>
      exists k :: SlashAt(s, k) && r.value == s[k + 1..|s| - |Extension|] && (forall j :: k < j ==> !SlashAt(s, j))
  {
    if |s| < |Extension| + 1 || s[|s| - |Extension|..] != Extension then None
    else
      var slash := LastSlashBelow(s, |s| - |Extension| - 1);
      match slash
      case None => None
      case Some(k) =>
        assert SlashAt(s, k);
        Some(s[k + 1..|s| - |Extension|])
  }

  /**
   * A path `d/b.root` yields `b` whenever no '/' occurs in `b` except possibly
   * as its last character; so `a/b/.root` yields `b/`.
   */
  lemma MatchFileNameOf(d: string, b: string)
    requires b != [] && forall i :: 0 <= i < |b| - 1 ==> b[i] != '/'
    ensures MatchFileName(d + "/" + b + Extension) == Some(b)
  {
    var s := d + "/" + b + Extension;
    var e := |s| - |Extension|;
    assert s[e..] == Extension;
    assert s[|d|] == '/';
    assert SlashAt(s, |d|);
    var r := MatchFileName(s);
    var k :| SlashAt(s, k) && r.value == s[k + 1..e] && (forall j :: k < j ==> !SlashAt(s, j));
    assert k == |d|;
    assert s[k + 1..e] == b;
  }
}
