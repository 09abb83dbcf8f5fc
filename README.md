# Isnad windows of al-Kafi, modelled in Dafny

This project models the analysis core of a study of the chains of transmission
(*isnads*) of the hadith collection al-Kafi. An isnad is a chain of transmitters
(integer ids) attached to one hadith; the corpus is an ordered list of isnads
grouped by hadith. Two research questions measure, over windows of consecutive
hadiths, the share of "ghali-influenced" hadiths (RQ1: every chain of the hadith
passes through an accused transmitter) and the share of ghali-to-ghali links
(RQ2: both ends of a distinct edge are accused). A baseline distribution over all
sliding windows is compared, hadith by hadith, with the distribution of the
windows overlapping that hadith; a hadith is reported when a rank-sum test is
significant (p < 0.05) and Cliff's delta is large (d >= 0.474). The reports are
ranked by delta and counted per book of al-Kafi, normalised by book length.

Modules:

- `Outcomes` — the exceptions the code raises (`Error`), `Option`, `Result`, and
  `Collect`, the common shape of "loop that adds nothing, one value, or raises".
- `Sequences` — Python list idioms: `if x not in l: l.append(x)` (`Dedup`), list
  comprehension filters (`Filter`), `defaultdict(list)` appends (`Buckets`),
  slicing (`PySlice`), `Counter.most_common()[0][0]` (`Mode`), and the stable
  `sorted(..., reverse=True)` (`SortDesc`).
- `Text` — `str.strip`, `str.split` and `int()` on text.
- `Chains` — `Isnad` and its constructor.
- `Corpus` — `IsnadSet`, its constructor, range selection and set difference.
- `Indexes` — the edge and node indexes and the generation estimate.
- `Curation` — `get_curated`.
- `Loading` — `read_commented_plain_text` and the row parse of `get_full_isnadset`.
- `Metrics` — `RQ1.get_p` and `RQ2.get_p`.
- `Histograms`, `Windows` — `get_hist_all` and `get_hist_by_hadith`.
- `Ranking` — `f` and the gather/filter/sort of `load_hists`.
- `Books` — the counting of `get_books_bars`.

Every loop of the source is a `method` proved against a specification function
(`ensures r == Spec(...)`); the properties are lemmas about those functions.
Isnads and isnad sets are never changed after construction, so they are datatypes.

In these places the model follows the code's behaviour:

- A `ZeroDivisionError` inside one hadith's windows is not caught per hadith
  (rqs.py:31-41, 107-109); it ends `load_hists`, so `Ranking.LoadHists` is a
  `Failure`.
- `get_hist_by_hadith` reads the hadith id from the module-level full corpus
  (rqs.py:77), which is the set `f` passes in (rqs.py:32, 108); the
  model reads it from that set.

## Model

| member | source | states |
|---|---|---|
| Chains.MakeIsnad | utils.py:31-46 | an empty edge list raises (EmptyChain); otherwise the isnad keeps sid, hid and edges and its node list is the first-occurrence list of the edge endpoints |
| Chains.EndpointsAt | utils.py:43-45 | the endpoints visited by the node loop are u then v of each edge in order, twice as many as edges |
| Chains.NodesOfSpec | utils.py:42-46 | the node list has no duplicates, holds exactly the endpoints of the edges, and lists them in order of first appearance |
| Corpus.NewIsnadSet | utils.py:54-63 | the constructed set is the grouping of the list and satisfies the set invariant (hadith list and per-hadith buckets agree with the isnads) |
| Corpus.GroupStep | utils.py:59-62 | one loop step appends the isnad to its hadith's bucket and adds the hadith id only if new |
| Corpus.BuildGrouping | utils.py:54-63 | hadith ids are distinct, are exactly the hids of the isnads, in first-appearance order; each bucket is a subsequence of the isnads holding every isnad of that hadith, with its multiplicity |
| Corpus.BucketShape | utils.py:58-60 | every bucket of a consistent set is non-empty and holds only isnads of that hadith taken from the set |
| Corpus.HadithListed | utils.py:59-62 | every isnad's hadith is listed and has a bucket |
| Corpus.GetByRangeSpec | utils.py:121-124 | the result holds the isnads of the Python slice [max(a,0):b], in order, and is a consistent set on the same database |
| Corpus.GetByRangeHadith | utils.py:126-132 | the loop yields the range-by-hadith set |
| Corpus.RangeHadithSpec | utils.py:126-132 | the result's hadith list is the Python slice of the hadith list from max(a,0) to b, each listed hadith keeps its full bucket, and the result is a consistent set on the same database |
| Corpus.GatherSpec | utils.py:130-131 | concatenating the buckets of distinct listed hadiths yields isnads whose first-appearance hadith list is exactly those hadiths |
| Corpus.GatherMembers | utils.py:130-131 | every gathered isnad belongs to one of the requested hadiths and to the set |
| Corpus.GatherFilter | utils.py:130-131 | the gathered isnads of one requested hadith are exactly its bucket |
| Corpus.SidMapValues | utils.py:56 | the sid dictionary maps each sid to an isnad of the list with that sid |
| Corpus.DictItemsMembers | utils.py:56 | iterating the sid dictionary only yields isnads of the list |
| Corpus.DictItemsUnique | utils.py:56 | with distinct sids, iterating the sid dictionary yields the list itself |
| Corpus.Difference | utils.py:186-193 | different databases raise (MismatchedSource); otherwise the result is the set built from the isnads whose sid is not in the other set |
| Corpus.DifferenceSpec | utils.py:189-192 | the kept isnads are exactly those of the set whose sid is absent from the other, in their original order |
| Indexes.EdgesSids | utils.py:144-153 | the keys are exactly the edges of the corpus, and a sid is listed under an edge iff an isnad with that sid contains the edge |
| Indexes.NodesSids | utils.py:155-165 | an empty corpus raises (EmptyCorpus); otherwise the keys are exactly the transmitters, and a sid is listed under a node iff an isnad with that sid contains the node |
| Indexes.EdgeIndexSpec | utils.py:146-153 | the edge index built from the pair list has exactly the corpus edges as keys and the containing sids as values |
| Indexes.NodeIndexSpec | utils.py:158-165 | the node index built from the pair list has exactly the corpus nodes as keys and the containing sids as values |
| Indexes.GensDict | utils.py:167-174 | the loop yields the generation map |
| Indexes.GensSpec | utils.py:167-174 | every transmitter gets a generation; it is a position at which the transmitter occurs in some chain, no position occurs more often, and among equally frequent positions it is the first encountered |
| Indexes.PositionsNonEmpty | utils.py:169-172 | every transmitter has at least one recorded position, so the mode is defined |
| Curation.KeepSynchronic | utils.py:101-103 | keeps, in order, exactly the edges whose ends both have generations at most two apart |
| Curation.KeepDefinite | utils.py:106-111 | a synchronic edge whose end has no name raises (KeyError); otherwise keeps, in order, the edges with no indefinite or Imam end |
| Curation.CurateOne | utils.py:98-118 | one isnad raises iff one of its synchronic edges has an unnamed end; otherwise it is dropped or rebuilt from the kept edges |
| Curation.CurateAll | utils.py:97-118 | the loop raises iff some isnad has a synchronic edge with an unnamed end; otherwise it yields the curated list |
| Curation.Curate | utils.py:83-119 | the method computes the curated set, with the generation map estimated from the chains when none is given |
| Curation.KeptEdgesSpec | utils.py:101-111 | the kept edges are a subsequence of the chain holding exactly its synchronic, definite edges |
| Curation.CurateListOrigin | utils.py:113-118 | every curated isnad comes from an input isnad with a non-empty kept edge list |
| Curation.CurateListKeeps | utils.py:113-118 | every input isnad with kept edges appears, rebuilt, in the result |
| Curation.CurateListShrinks | utils.py:101-118 | curation never adds edges |
| Curation.CurateSurvivor | utils.py:113-118 | each curated isnad is well formed, has the sid and hid of an input isnad, its edges are a subsequence of that isnad's, and all of them are synchronic and definite |
| Curation.CurateDropped | utils.py:113-116 | with distinct sids, an isnad survives iff it keeps at least one edge |
| Curation.NamesFoundIff | utils.py:106-107 | the name lookup succeeds iff every synchronic edge has both ends named |
| Curation.CurateFailure | utils.py:96-107 | curation raises iff some isnad of the dictionary has a synchronic edge with an unnamed end, and then raises KeyError |
| Curation.CurateSpec | utils.py:83-119 | a successful curation is a consistent set on the same database whose isnads are well formed, trace back to an input isnad by sid and hid with a subsequence of its edges, and hold no more edges in total |
| Curation.CurateUnique | utils.py:97-118 | with distinct sids the curated list follows list order, and an isnad survives iff it keeps an edge |
| Text.StripTrims | utils.py:13 | a stripped line starts and ends with a non-space |
| Text.StripParts | utils.py:13 | stripping removes only whitespace from both ends |
| Text.StripUnique | utils.py:13 | a trimmed text padded with whitespace strips back to itself |
| Text.StripIdempotent | utils.py:13 | stripping twice is stripping once |
| Text.SplitSpec | utils.py:16 | splitting yields one more piece than separators, no piece holds the separator, and joining the pieces gives back the text |
| Text.JoinSplit | utils.py:16 | splitting the join of separator-free pieces gives back the pieces |
| Text.PyIntShowInt | utils.py:19 | `int()` reads back the decimal text of every integer |
| Text.PyIntBlank | utils.py:19 | `int()` of a blank text raises |
| Loading.ReadOne | utils.py:13-20 | a line whose stripped text starts with '#' adds nothing; a line without '#' adds its converted stripped text; a line with one '#' adds the converted, stripped text before it; a line with two or more '#' raises (UnpackError); a failed conversion raises its error |
| Loading.ReadCommentedPlainText | utils.py:9-21 | the loop yields the data of the non-comment lines in order, or the first error |
| Loading.LineDataComment | utils.py:14 | a line is skipped iff its stripped text starts with '#' |
| Loading.LineDataWhole | utils.py:17-18 | a line with no '#' contributes its whole stripped text |
| Loading.LineDataOneHash | utils.py:15-16 | a line with one '#' contributes the text before it |
| Loading.LineDataManyHashes | utils.py:16 | a non-comment line with two or more '#' raises (UnpackError) |
| Loading.LineDataNoHash | utils.py:15-18 | the data kept from a line never holds '#' |
| Loading.BlankLine | utils.py:19 | a blank line reads as the empty text, and raises (ValueError) when integers are read |
| Loading.NumberLine | utils.py:13-19 | an integer followed by a comment reads back as that integer |
| Loading.NumberOnlyLine | utils.py:13-19 | a line holding only an integer reads back as that integer |
| Loading.ReadLineInt | utils.py:19 | integer data is the `int()` of the stripped data part |
| Loading.GetFullIsnadSet | utils.py:66-81 | the loop yields the parsed set, or the first row error |
| Loading.PairsSpec | utils.py:74 | `zip(nodes, nodes[1:])` has one edge fewer than nodes, edge i joining nodes i and i+1 |
| Loading.PairsNodes | utils.py:74-79 | the node list of a chain built from at least two ids is their first-occurrence list |
| Loading.ParseRowSpec | utils.py:71-79 | a parsed row is a well-formed isnad with the row's sid and hid and the consecutive pairs of its ids as edges |
| Loading.IdsRoundTrip | utils.py:73 | reading the decimal texts of ids gives back the ids |
| Loading.ParseRowRoundTrip | utils.py:71-79 | a row written from at least two ids parses back to the isnad of their consecutive pairs |
| Loading.FullIsnadSetFailure | utils.py:71-79 | loading raises iff some row has an id that is not an integer, and then raises ValueError |
| Loading.FullIsnadSetSuccess | utils.py:66-81 | a loaded set is consistent, on the given database, no larger than the rows, and holds well-formed isnads each matching a row's sid and hid |
| Metrics.RatioSpec | rqs.py:202 | a ratio fails (ZeroDivision) iff its denominator is zero; otherwise it times the denominator is the numerator and it lies in [0,1] when the numerator is at most the denominator |
| Metrics.ChainsScan | rqs.py:192-201 | the for/else loop counts a hadith iff every one of its chains meets an accused transmitter |
| Metrics.InfluenceP | rqs.py:188-202 | the RQ1 loop yields the influence share |
| Metrics.InfluenceSpec | rqs.py:188-202 | the RQ1 share fails (ZeroDivision) iff the set has no hadith; otherwise it lies in [0,1] |
| Metrics.InfluenceNoneAccused | rqs.py:188-202 | with no accused transmitter the RQ1 share of a non-empty set is 0 |
| Metrics.InfluenceAllAccused | rqs.py:188-202 | when every transmitter is accused the RQ1 share of a non-empty set is 1 |
| Metrics.MutualP | rqs.py:208-212 | the RQ2 computation yields the ghali-to-ghali share |
| Metrics.MutualSpec | rqs.py:208-212 | the RQ2 share fails (ZeroDivision) iff no chain has an edge; otherwise it lies in [0,1] |
| Metrics.MutualNoneAccused | rqs.py:208-212 | with no accused transmitter the RQ2 share is 0 |
| Metrics.MutualAllAccused | rqs.py:208-212 | when every edge joins two accused transmitters the RQ2 share is 1 |
| Metrics.GetP | rqs.py:49-51 | dispatches to the metric of the research question |
| Metrics.MetricSpec | rqs.py:188-212 | a metric value lies in [0,1], and the only error is ZeroDivision |
| Metrics.MetricDefined | rqs.py:188-212 | on a consistent set with at least one edge both metrics succeed |
| Histograms.HistSpec | rqs.py:58-63 | a histogram loop succeeds iff every window's metric does; it then has one value per window, value k being window k's metric; a failure carries some window's error |
| Histograms.HistFractions | rqs.py:58-63 | when each window's metric is a fraction or ZeroDivision, so is the histogram |
| Windows.GetHistAll | rqs.py:53-63 | the baseline loop yields the baseline histogram |
| Windows.HistAllSpec | rqs.py:58-63 | the baseline has exactly max(0, N-W) values, value k being the metric of the hadiths indexed [k, k+W) |
| Windows.HistAllFractions | rqs.py:58-63 | every baseline value lies in [0,1], and the only error is ZeroDivision |
| Windows.WindowDefined | rqs.py:61-62 | the metric of a window that holds a hadith of a well-formed consistent set succeeds |
| Windows.BaselineDefined | rqs.py:60-62 | the metric of each baseline window of a well-formed consistent set with W >= 1 succeeds |
| Windows.HistAllDefined | rqs.py:58-63 | the baseline of a well-formed consistent set with W >= 1 never raises |
| Windows.GetHistByHadith | rqs.py:65-79 | the overlap loop yields the overlap histogram, raising IndexError for an index outside the hadith list |
| Windows.HistByHadithSpec | rqs.py:72-79 | W <= 0 gives no values; W > 0 with a hadith index out of range raises IndexError; otherwise there are exactly W values, value k being the metric of the hadiths indexed [hi+k-W+1, hi+k+1) with the start clamped at 0 |
| Windows.HistByHadithFractions | rqs.py:72-79 | for an index in range every overlap value lies in [0,1], and the only error is ZeroDivision |
| Windows.OverlapContains | rqs.py:75 | for 0 <= hi, overlap window k is the slice of the hadith list from max(hi+k-W+1, 0) to min(hi+k+1, N), and it contains hadith hi |
| Windows.OverlapDefined | rqs.py:75-78 | every overlap window of a well-formed consistent set around a hadith of the set has a defined metric |
| Windows.HistByHadithDefined | rqs.py:72-79 | the overlap histogram of a hadith of a well-formed consistent set never raises |
| Ranking.Gate | rqs.py:31-41 | the gate yields a tuple iff the hadith's windows succeed, the index is valid and p < 0.05 and d >= 0.474; it yields None iff the windows succeed and that test fails; the tuple carries the hadith id, delta, category, p, statistic and the windows' values |
| Ranking.F | rqs.py:31-41 | the method computes the gate |
| Ranking.StarMap | rqs.py:107-109 | the pool map yields one gate result per hadith index in order, or ends with the gated list's error |
| Ranking.ComputeHists | rqs.py:103-113 | the computation yields the ranked list of reported hadiths |
| Ranking.LoadHistsRanked | rqs.py:112-113 | the ranked list is a permutation of the non-None gate results and is sorted by delta, highest first |
| Ranking.LoadHistsMembers | rqs.py:108-112 | a tuple is reported iff the gate of some hadith index yields it |
| Ranking.LoadHistsSignificant | rqs.py:34-40 | every reported tuple is significant (p < 0.05, d >= 0.474) and names a hadith of the corpus |
| Ranking.GateAt | rqs.py:31-41 | the gate of a hadith index only raises ZeroDivision, and never raises on a well-formed consistent set |
| Ranking.LoadHistsErrors | rqs.py:103-113 | the ranked list only fails with ZeroDivision |
| Ranking.LoadHistsDefined | rqs.py:103-113 | on a well-formed consistent set with W >= 1 the ranked list never fails |
| Books.BookNames | rqs.py:143-145 | the book lookup raises KeyError iff a reported hadith has no book; otherwise it gives each report's book in order |
| Books.BookLens | rqs.py:136-139 | the lengths are keyed by exactly the books of the hadith-to-book map, each being the number of hadiths of that book |
| Books.BookLenPositive | rqs.py:136-139 | the book of every hadith has positive length |
| Books.CountBooks | rqs.py:142-145 | counting raises KeyError iff a book lookup fails; otherwise each book's count is its multiplicity among the reports' books, with the books in first-appearance order |
| Books.GetBooksBars | rqs.py:134-149 | the computation yields the normalised, ranked per-book shares |
| Books.SharesSpec | rqs.py:147 | every share names a counted book and is its count over its length; every counted book has a share |
| Books.BooksBarsRanked | rqs.py:148-149 | the bars are a permutation of the normalised shares sorted by share, highest first |
| Books.BooksBarsShares | rqs.py:143-147 | every bar names the book of a reported hadith, is its count over its length, and is positive |
| Books.BooksBarsCover | rqs.py:143-147 | the book of every reported hadith has a bar |
| Books.CountAmong | rqs.py:136-145 | with distinct reported hadiths, a book's count is the number of reported hadiths of that book |
| Books.BooksBarsBounded | rqs.py:136-147 | with distinct reported hadiths every share is at most 1 |
| Sequences.DedupSpec | utils.py:42-46 | the first-occurrence list has no duplicates, holds exactly the members of the input, and keeps them in order of first appearance |
| Sequences.ModeSpec | utils.py:174 | `most_common()[0][0]` is a member of maximal count, the first encountered among ties |
| Sequences.SortDescSpec | rqs.py:113 | the stable descending sort is a permutation sorted highest first |
| Sequences.FilterSpec | rqs.py:112 | a comprehension filter keeps exactly the satisfying elements with their multiplicities, in order |
| Outcomes.CollectSuccess | rqs.py:58-63 | a loop of steps that may raise completes iff no step raises, with at most one value per step |
| Outcomes.CollectFailure | rqs.py:58-63 | a loop that raises raises the error of its first raising step |
| Outcomes.CollectMembers | rqs.py:112 | every collected value is the value of some step |
| Outcomes.DropNones | rqs.py:112 | dropping the Nones of a completed map gives the collected values |
| Outcomes.MapAllSpec | utils.py:73 | `list(map(int, ...))` raises iff one input does, and otherwise maps each input to its result |

## Left out

- Database and file I/O (`read_sql_table`, `open`, `pickle`, the CSV of English book names) are outside the model: rows, lines, transmitter names and the hadith-to-book map are parameters.
- The accused-transmitter lists are a parameter `accused` rather than the module-level constants read from files.
- `get_yes_no` and the pickle cache of `load_hists` are interactive I/O and are left out; the model always computes the lists.
- The plotting methods (`draw_books_hist`, `draw_time_series_plot`, `run`) and `get_nx_graph` (a networkx graph) are left out.
- The `ABLATION` branch of `RQ1.get_p` is left out: the flag is constant false in the source.
- The `verbose` diagnostic prints and the `__str__` methods are left out.
- `mannwhitneyu` and `cliffs_delta` are foreign library calls, taken as function parameters; the model proves nothing about their values.
- `Pool.starmap` runs the gates in parallel; the model runs them in index order, and a raising gate ends the run with the first error by index.
- Floating point is modelled by exact reals; NaN and rounding are not modelled.
- `list(set(v))` in the edge and node indexes has an unspecified order; the model keeps the sids as a set.
- Books.GetBooksBars: the renaming of book names to English (rqs.py:151-153) is left out; the bars keep the Arabic names.
- Windows.HistByHadithDefined: proved only for 0 <= hi; with a negative hi the windows start before the list and can be empty, so the metric can raise.
- Books.BooksBarsBounded: requires distinct reported hadiths; with a repeated hadith a share can exceed 1.
- Loading.ParseRowSpec: states the chain in terms of the parsed ids; the per-token `int()` behaviour is stated by Outcomes.MapAllSpec.
- Text.PyInt: Python's `int()` also accepts non-ASCII decimal digits, which the model rejects.
- Text.PyInt: CPython's `int()` skips, among code points below 127, only ASCII space and `\t\n\v\f\r`, so `int('\x1c5')` raises; the model strips U+001C to U+001F as `str.strip` does. This matters only for the unstripped tokens of utils.py:73, since utils.py:19 strips before converting.
- Ranking.GateAt, Ranking.LoadHistsErrors, Ranking.LoadHistsDefined: `mannwhitneyu` and `cliffs_delta` are modelled as total functions, so these lemmas assume the two library calls never raise. That includes an empty baseline: with N <= W, `range(NUM_H-W)` is empty (rqs.py:60), so `ys_all == []`, where SciPy may raise or return NaN at rqs.py:33.
