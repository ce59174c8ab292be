# make_db: a verified model of the histogram extraction core

`make_db` (root_hist_db, `src/make_db.cc`) reads ROOT files of one-dimensional
histograms and writes one row per histogram into table `hist` of an SQLite
database. A row holds the histogram's labels, the id of its bin-edge vector and
its bin contents. This project models, in Dafny, the part of the program that
decides what goes into that table:

- **the file name**: `.*/(.+)\.root$` is matched against the whole input name. The
  captured base name is split into the `[^_]+` tokens that become the root labels.
  A name that does not match, or a file that cannot be opened, stops the run
  before anything is written (`Tokenize.MatchFileName`, `MakeDb.ExtractFile`).
- **the tree walk**: the recursive `y_combinator` lambda is modelled by
  `Source.Walk`/`Source.Visit` (the specification) and `MakeDb.Session.WalkKeys`
  (the method). A directory appends its raw name as one label and is walked one
  level deeper. A top-level histogram named `N` is skipped. Every other histogram
  appends one record: the current labels followed by the `[^_]+_[^_]+` tokens of
  its name, its interned edge vector and its `nbins + 2` bin contents. Any other
  object is ignored.
- **the axis interner**: the global `edges` set and the `edges_list` vector. A new
  edge vector is appended and gets the next id. A known one gets the index that
  the linear `std::find` returns (`Interning.Intern`, `MakeDb.Session.InternEdges`).
- **the schema**:
  - `nprops` is the longest label vector;
  - the user's property names are completed with `prop<i>`;
  - every row's labels are padded with `''` up to `nprops`;
  - the id column is named `edges` and the bins column `bins`.

The global state of the program (`edges`, `edges_list`, `hs`) is the class
`MakeDb.Session`. Its methods are proved against pure specification functions:
`Interning.Intern`, `Corpus.Add`/`Corpus.AddAll`, `Source.Walk`,
`Schema.MaxProps`, `Schema.PropsNames` and `Schema.Rows`. The properties of the
program are proved as lemmas about those functions:

- the session never lists a vector twice;
- ids and vectors correspond one to one;
- the corpus reads back as exactly the histograms of the tree, in order;
- the tokenisers equal independent definitions over the underscore-separated
  fields of a name.

The two tokenisers follow the search loop of a regex token iterator. At the
current position the greedy match is tried; if there is none, the search moves
on by one character.

Some facts about `src/make_db.cc` that shape the model:

- The file pattern requires a `/` before the base name (line 120).
- A directory's name is appended raw, as one label, without being split (line 142).
- The base name is split into `[^_]+` runs, so no root label holds an underscore (line 171).
- A synthetic column name is `prop` followed by the column index (line 182).
- A histogram's bin contents are the only per-bin values stored (lines 164-166).
- The only table created is `hist`. Its edge-id column is named `edges` and is followed by `bins` (lines 189-191).

Because `.*` is greedy, the captured base name comes after the last `/` that
still leaves at least one character before the final `.root`. That name can
itself end in `/`: `a/b/.root` gives `b/` (`Tokenize.MatchFileNameOf`).

Files:

| file | contents |
|---|---|
| `wrappers.dfy` | `Option`, `Result`, `Outcome` |
| `tokenize.dfy` | the three regular expressions |
| `interning.dfy` | the axis interner |
| `source.dfy` | the ROOT tree, the edge and bin loops, the walk |
| `corpus.dfy` | the axis list and the corpus as one value |
| `schema.dfy` | `nprops`, property names, row padding |
| `make_db.dfy` | the session class and the whole run |

## Model

| member | source | states |
|---|---|---|
| Tokenize.RunLengthSpec | src/make_db.cc:42-50 | the greedy `[^_]+` run at the start of a string holds no underscore and stops at an underscore or at the end |
| Tokenize.RunLengthUnique | src/make_db.cc:42-50 | any prefix length with those two properties is the run length, so the run is the longest match |
| Tokenize.FieldsShape | src/make_db.cc:171 | no underscore-separated field contains an underscore |
| Tokenize.JoinFields | src/make_db.cc:171 | joining the fields of a string with `_` gives the string back |
| Tokenize.FieldsJoin | src/make_db.cc:171 | splitting a join of underscore-free parts gives the parts back |
| Tokenize.SplitRuns | src/make_db.cc:171 | the `[^_]+` tokens of a name, left to right, each match taking a whole run: every root label is non-empty and free of underscores |
| Tokenize.SplitRunsIsNonEmptyFields | src/make_db.cc:171 | the `[^_]+` tokens of a name are exactly its non-empty underscore-separated fields, in order: underscores are discarded and never yield an empty token |
| Tokenize.SplitRunsJoin | src/make_db.cc:171 | a name made of non-empty underscore-free parts joined by `_` splits back into exactly those parts |
| Tokenize.PairMatch | src/make_db.cc:168 | the length of the `[^_]+_[^_]+` match at the start of a string, 0 when there is none; a match is at least three characters long (`PairMatchIsLongest` shows it is the longest one) |
| Tokenize.MatchParts | src/make_db.cc:168 | a `[^_]+_[^_]+` match at the start of a string is a non-empty run, one underscore, another non-empty run, followed by an underscore or the end |
| Tokenize.PairMatchCovers | src/make_db.cc:168 | any pair-shaped prefix is no longer than the match found |
| Tokenize.PairMatchIsLongest | src/make_db.cc:168 | the match found at a position is a `[^_]+_[^_]+` string, and no longer prefix matches the pattern (leftmost, greedy) |
| Tokenize.SplitPairsIsPairFields | src/make_db.cc:168 | the leaf tokens of a name are its adjacent non-empty fields paired from the left, an empty field breaking a pair |
| Tokenize.SplitPairs | src/make_db.cc:168 | the `[^_]+_[^_]+` tokens of a histogram name, non-overlapping, left to right: every leaf token has exactly one underscore, with non-empty underscore-free text on both sides |
| Tokenize.SplitPairsJoin | src/make_db.cc:168 | a leaf name of k non-empty underscore-free fields gives k/2 tokens: `f0_f1`, `f2_f3`, ...; an odd last field is dropped |
| Tokenize.SplitPairsFourFields | src/make_db.cc:168 | a name such as `abc_def_ghi_jkl` gives `[abc_def, ghi_jkl]` |
| Tokenize.SplitPairsDropsUnpaired | src/make_db.cc:168 | a name such as `a_b_c` gives `[a_b]`: the trailing unpaired field is dropped |
| Tokenize.LastSlashBelow | src/make_db.cc:120 | returns the last `/` below a bound, or reports that there is none |
| Tokenize.MatchFileName | src/make_db.cc:120-128 | a name is accepted iff it ends in `.root` and has a `/` with at least one character between it and that suffix; the captured name lies between the last such `/` and `.root` |
| Tokenize.MatchFileNameOf | src/make_db.cc:120-128 | `d/b.root` captures `b` whenever `b` has no `/` before its last character |
| Interning.ElemsSize | src/make_db.cc:93-94 | a duplicate-free list has exactly as many distinct vectors as entries, so the set and the list stay the same size |
| Interning.IndexOf | src/make_db.cc:159-161 | the first position holding the vector |
| Interning.Intern | src/make_db.cc:154-162 | the id indexes the vector in the new list; the list keeps the old entries as a prefix and grows by at most one |
| Interning.InternKeepsNoDup | src/make_db.cc:154-157 | interning keeps the list free of duplicates and adds exactly the new vector to its elements |
| Interning.InternExisting | src/make_db.cc:158-161 | a vector already listed at position i gets id i and the list does not grow |
| Interning.InternNew | src/make_db.cc:155-157 | a new vector gets id equal to the old list length and is appended |
| Interning.InternIdempotent | src/make_db.cc:154-162 | interning the same vector again returns the same id and leaves the list unchanged |
| Interning.InternDistinct | src/make_db.cc:154-162 | two unequal vectors interned one after the other receive distinct ids (for any two records of a corpus, see `Corpus.SameIdIffSameEdges`) |
| Interning.Find | src/make_db.cc:159-161 | the linear search returns the first position of a vector known to be listed |
| Interning.FirstSeenElems | src/make_db.cc:93-94 | the first-seen order of a sequence of vectors lists each of its vectors exactly once |
| Source.EdgeVector | src/make_db.cc:150-153 | the edge vector of a histogram is its whole list of nbins + 1 axis boundaries, the upper edge of the axis last |
| Source.BinContents | src/make_db.cc:164-166 | the stored bins are all nbins + 2 bin contents, underflow and overflow included |
| Source.ReadEdges | src/make_db.cc:150-153 | the edge vector has nbins + 1 entries, entry i being the low edge of bin i + 1 |
| Source.ReadBins | src/make_db.cc:164-166 | the bins vector has nbins + 2 entries: the contents of bins 0 through nbins + 1, in order |
| Source.Record | src/make_db.cc:147-168 | a histogram's record keeps the current labels as a prefix and adds only leaf tokens; it has nbins + 1 edges and one bin more than edges |
| Source.Walk | src/make_db.cc:136-170 | every record produced under a label prefix starts with that prefix and has one bin more than edges |
| Source.Visit | src/make_db.cc:139-168 | the same for one key; an object that is neither a directory nor a histogram yields nothing |
| Source.WalkBelowTop | src/make_db.cc:136-170 | below the top level the walk yields one record per histogram, in key order, whose labels are the prefix, the raw names of the enclosing directories, then the leaf tokens |
| Source.VisitBelowTop | src/make_db.cc:139-168 | the same for one key: a directory contributes its histograms under its raw name, a histogram one record, anything else nothing |
| Source.DepthIrrelevantBelowTop | src/make_db.cc:142-145 | below the top level the depth does not change the result |
| Source.WalkAtTop | src/make_db.cc:145 | at the top level the walk equals the walk of the same keys with the histograms named `N` removed, so those and only those are skipped |
| Corpus.Add | src/make_db.cc:147-168 | one histogram keeps the axis list and the corpus as prefixes and appends one record with the histogram's labels and bins, whose id names the histogram's edge vector in the new list |
| Corpus.AddAll | src/make_db.cc:136-171 | histograms added in order keep the axis list and the corpus as prefixes and add exactly one record each |
| Corpus.AddAllAppend | src/make_db.cc:147 | adding two batches of histograms one after the other is adding them together |
| Corpus.AddFaithful | src/make_db.cc:147-168 | adding one histogram keeps the state consistent, keeps the axis list as a prefix, and the corpus reads back as before followed by that histogram |
| Corpus.AddAllFaithful | src/make_db.cc:136-171 | after any sequence of histograms the state is consistent, the axis list only grew, and the corpus reads back as the old corpus followed by exactly those histograms |
| Corpus.SameIdIffSameEdges | src/make_db.cc:154-162 | in a consistent state two records share an edge id iff their edge vectors are equal |
| Corpus.AxisListIsFirstSeen | src/make_db.cc:154-157 | from an empty start the axis list is the distinct edge vectors in first-seen order, so ids run 0, 1, 2, ... |
| Schema.MaxProps | src/make_db.cc:177-179 | nprops bounds every label count, is attained by some record, and is 0 for an empty corpus |
| Schema.Decimal | src/make_db.cc:182 | the decimal text of a number is non-empty and made of digits |
| Schema.DecimalRoundTrip | src/make_db.cc:182 | reading the decimal text back gives the number |
| Schema.SyntheticNamesDistinct | src/make_db.cc:181-182 | different column positions receive different `prop<i>` names |
| Schema.PropsNames | src/make_db.cc:181-182 | the names have length max(given, nprops); the given names are an unchanged prefix; the name at each later index i is `prop` followed by i |
| Schema.ExtendNames | src/make_db.cc:181-182 | the loop builds exactly those names |
| Schema.Padded | src/make_db.cc:199-200 | padding gives max(own count, nprops) labels: the record's labels unchanged, then only empty strings |
| Schema.Rows | src/make_db.cc:195-201 | one row per record, in corpus order: the record's labels followed by `''` (nprops values whenever the record has at most nprops labels), then its edge id and its bins |
| Schema.Output | src/make_db.cc:177-201 | table `hist` has max(given, nprops) label columns, the given names first, then `edges` and `bins`; it has one row per record, each with nprops label values |
| Schema.OutputRows | src/make_db.cc:189-201 | every row has nprops labels (the record's own, then `''`), then the record's edge id and bins; a row has one value per column iff no more than nprops names were given |
| MakeDb.ExtractFile | src/make_db.cc:120-171 | a file yields records iff its name matches and it opens; otherwise the error names the failed check, the name being checked first; every record's labels start with the `[^_]+` tokens of the base name |
| MakeDb.Extract | src/make_db.cc:123-171 | all files are read iff each of them succeeds; otherwise the run fails with the error of the first file that fails |
| MakeDb.ExtractStopsAtError | src/make_db.cc:123-134 | once a file fails, the whole run fails with that file's error |
| MakeDb.Session.constructor | src/make_db.cc:93-101 | the set, the axis list and the corpus start empty |
| MakeDb.Session.InternEdges | src/make_db.cc:154-162 | the set and list update computes `Intern` of the old list, keeps the set equal to the list's elements with no duplicates, keeps both the same size and leaves the corpus alone |
| MakeDb.Session.AddHistogram | src/make_db.cc:147-168 | the state after one histogram is `Add` of the old state and that histogram's record |
| MakeDb.Session.WalkKeys | src/make_db.cc:136-170 | walking a directory adds exactly the records of `Walk`, in order |
| MakeDb.Session.AddFile | src/make_db.cc:123-171 | a bad name or an unopenable file is reported and changes nothing; otherwise the file's records are added, with the `[^_]+` tokens of its base name as root labels |
| MakeDb.Session.NProps | src/make_db.cc:177-179 | the loop computes `MaxProps` of the corpus |
| MakeDb.Session.BuildRows | src/make_db.cc:195-201 | the loop builds exactly the padded rows, in corpus order |
| MakeDb.Run | src/make_db.cc:103-212 | a run fails with the first failing file's error, or yields the columns and rows of `Output` for all histograms of all files in order |

## Left out

- ROOT I/O (`TFile`, `get_keys`, `safe_key_cast`, `GetBinLowEdge`, `GetBinContent`) is modelled by the `Source.Key` tree and the `Source.TH1` accessors. A file that `IsZombie` reports is an input whose contents are `None`.
- Objects that derive from `TH1` (for example two-dimensional histograms) are read as histograms by the source through their x axis. The model only distinguishes histograms from other objects.
- The SQLite wrapper is not modelled: opening the database, `CREATE TABLE`, `BEGIN`/`END`, the insert statements, `remove(ofname)` and the error printing. The run's result is the column list and the rows that would be inserted.
- The labels are inserted unescaped into the SQL text. That quoting is I/O-level and is not modelled.
- `%.6g` formatting of the bin values is left out. Bins and edges are `real` values, and only their exact equality matters.
- The ordering of doubles inside `std::set`, including NaN and signed zero, is left out. Edge vectors are compared for exact equality only.
- Command-line parsing, `timed_counter` progress output and `TEST`/`cout` logging are left out: they are user interface only.
- `test.py` is left out: it is an ad hoc query against an `axes` table and a `hist.axis` column that this code never creates.
- MakeDb.Run: when more property names are given than nprops, the source's inserts fail in SQLite (fewer values than columns). The model returns the rows anyway, and `Schema.OutputRows` states when the counts match.
- MakeDb.Session.InternEdges: `edges_list` holds pointers into the set, and `std::find` compares those pointers. The model stores the vectors themselves and compares them by value. Because the set holds each vector once, this finds the same index.
- Corpus.Add: edge ids are unbounded naturals. The source stores them in an `unsigned`, which would wrap after 2^32 distinct vectors.
- MakeDb.Session.AddHistogram: the source creates the record with `hs.emplace_back()` and then fills it in place. The model appends the finished record. No reader can observe the difference.
