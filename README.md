# dnase shard store, modelled in Dafny

`DnaseTools` in `dnase.py` makes range queries over a genome-wide DNase signal track
(a bedGraph-style WIG file) fast by cutting the track into small shard files, one per
section, each named after the region its section header declares. It has four parts:

- the **shard-name codec**, `get_file_name`. It turns a header such as
  `#bedGraph section chr1:0-723230` into
  `/data/gflas-knockout-efficiency/data/WIG/dnase_hek293t_1_0_723230.pk`.
  `load_data` splits such a name back into five `_`-separated fields.
- the **section writer**, `get_data`. It walks the track's lines with an accumulator
  `chromosome -> "start-end" -> fold`. A header line saves the accumulator under the
  previous shard name when it is non-empty, then empties it. A data row stores its fold.
  The end of input always saves once more.
- **shard selection and merge**, `load_data`. It picks the shard files whose chromosome
  field occurs in the query chromosome and whose range holds the query start or end,
  bounds included. It merges their contents with a top-level `dict.update`.
- **interval expansion**, `dnase_finder`. It checks the two `chrom:pos` endpoints and
  looks up `"chr" + chrom` in the merged data. Only an interval that holds the query
  start (`ks <= start < ke`) or the query end (`ks <= end <= ke`) is turned into copies
  of its value: one run for the start test and one for the end test. Every other
  interval, including one lying strictly inside the query, adds nothing.

The model is organised as follows:

- `results.dfy`: `Option`, `Result`, and one `Error` constructor per kind of failure.
- `text.dfy`: the Python string operations the code relies on (`strip`, `split`, `in`,
  `replace("chr", "")`, `str(int)`, `int(str)`), with their laws.
- `dicts.dfy`: Python dicts as insertion-ordered association lists. `d[k] = v` keeps an
  existing key's place. `d.update(e)` is a series of such assignments.
- `shard_names.dfy`: `get_file_name`, the name decoder, and the interval-key codec.
- `shard_writer.dfy`: `get_data`. It is a method with a loop, proved against the
  specification function `WriteTrack`.
- `shard_store.dfy`: `load_data`. It is a method with a loop, proved against `Load`.
- `range_query.dfy`: `dnase_finder`. It is a method proved against `Find`, with the
  expansion loops in `ExpandData` and `AppendBlock`.

The model follows the code, which in several places does not do what its own docstrings
say. `dnase_finder` promises a value for each position of the query (dnase.py:132), and
`load_data` promises a mapping that covers the whole range from start to end
(dnase.py:102). The code does otherwise:

- An interval lying strictly inside the query (`start < ks` and `ke < end`) holds
  neither endpoint, so it adds nothing, and its positions are missing from the answer
  (`SilentInterval`, `InteriorIntervalLost`). Over three adjacent intervals holding a, b
  and c, a query from the first to the third gets a and c only.
- Positions that no interval covers are never filled, with 0 or anything else.
- A query wholly inside one interval of `[ks, ke)` returns `(end - start) + (end - ks)`
  values, not `end - start` (`CoveringInterval`).
- The merge replaces whole per-chromosome mappings rather than joining them
  (`MergeLastWins`). A query spanning two shards of one chromosome therefore sees only
  the last loaded shard's intervals.

## Model

| member | source | states |
|---|---|---|
| Text.Split | dnase.py:45 | `str.split` with a one-character separator always yields at least one piece |
| Text.JoinSplit | dnase.py:110 | joining the pieces of a split with the separator rebuilds the string |
| Text.SplitJoin | dnase.py:110 | splitting a join of separator-free pieces gives back exactly those pieces |
| Text.SplitPieces | dnase.py:110 | no piece of a split holds the separator |
| Text.SplitCons | dnase.py:45 | splitting a string by its first character: a separator starts a new empty piece, anything else extends the first piece |
| Text.SplitChars | dnase.py:110 | every character of a piece of a split is a character of the string split |
| Text.SplitLast | dnase.py:45 | `split(" ")[-1]` is whatever follows the last space |
| Text.StripRightTrailing | dnase.py:45 | stripping removes exactly a trailing run of whitespace, such as a line break |
| Text.StripLeftKeeps | dnase.py:45 | left stripping drops a whitespace-only prefix and keeps a suffix not starting with whitespace |
| Text.StripRightKeeps | dnase.py:45 | right stripping drops a whitespace-only suffix and keeps a prefix not ending with whitespace |
| Text.IsSubstringAt | dnase.py:114 | Python's `in` on strings holds exactly when the needle occurs at some offset |
| Text.RemoveChr | dnase.py:47 | `replace("chr", "")` never lengthens the name and introduces no character |
| Text.RemoveChrPrefix | dnase.py:47 | a `chr`-prefixed chromosome loses exactly that prefix |
| Text.NatToString | dnase.py:53 | `str(n)` is a non-empty run of digits with no leading zero |
| Text.ParseNat | dnase.py:50-51 | `int(s)` succeeds exactly on non-empty digit strings |
| Text.ParseNatToString | dnase.py:153-154 | `int(str(n)) == n` |
| Dicts.Get | dnase.py:148 | a lookup finds a value exactly when the key is present, and the item is in the dict |
| Dicts.Set | dnase.py:88 | `d[k] = v` makes k give v and leaves every other key alone |
| Dicts.SetKeys | dnase.py:88 | an assigned key keeps its place in iteration order, and a new key goes last |
| Dicts.SetValid | dnase.py:88 | assignment keeps the keys distinct |
| Dicts.Update | dnase.py:117 | `update` keeps the old keys first and in order, and keeps keys distinct |
| Dicts.UpdateGet | dnase.py:117 | after `d.update(e)`, e's keys give e's values and every other key gives d's |
| Dicts.UpdateTwice | dnase.py:115-120 | updating twice with the same mapping equals updating once |
| ShardNames.ParseSection | dnase.py:45-51 | the header's range token must unpack into `chrom:start-end` with integer bounds, and every failure is `MalformedHeader`; the chromosome holds no `:` and only characters of the token |
| ShardNames.GetFileName | dnase.py:32-54 | get_file_name succeeds exactly when the header parses, fails only with `MalformedHeader`, and its name starts with the store prefix and is longer than it |
| ShardNames.DecodeName | dnase.py:110-113 | a file name load_data accepts has five fields, none holding `_` or `.` |
| ShardNames.DecodeKey | dnase.py:151-154 | a decodable interval key is exactly `s-e` for two integer strings s and e, decoded to their values; every failure is `MalformedIntervalKey` |
| ShardNames.GetFileNameNonEmpty | dnase.py:43-54 | a name that get_file_name returns is never the empty string |
| ShardNames.GetFileNameDecodes | dnase.py:45-53 | get_file_name fails exactly when the header does not parse; its name decodes back to the prefix fields, the chromosome and the decimal bounds |
| ShardNames.FixedFieldsSafe | dnase.py:20-22 | the prefix's two fixed fields contain neither `_` nor `.` |
| ShardNames.ShardFileNameFields | dnase.py:53 | a shard name is the five fields joined with `_`, followed by `.pk` |
| ShardNames.DecodeShardFileName | dnase.py:110-113 | a name built from a chromosome without `_` or `.` decodes into exactly its five fields |
| ShardNames.UnderscoreChromosomeSkipped | dnase.py:110-112 | a chromosome containing `_` yields a name that load_data skips because it has more than five fields |
| ShardNames.ParseHeader | dnase.py:45-51 | a header `#... chrom:start-end`, even with trailing whitespace, declares (chrom without `chr`, start, end) |
| ShardNames.LastField | dnase.py:45 | after stripping, the header's last space-separated field is its range token |
| ShardNames.TokenFields | dnase.py:46-49 | `chrom:s-e` unpacks at `:` into chrom and `s-e`, and `s-e` at `-` into s and e |
| ShardNames.HeaderNameRoundTrip | dnase.py:45-53 | the name get_file_name builds for a header decodes to the header's chromosome (with `chr` removed) and its integer bounds |
| ShardNames.DecodeIntervalKey | dnase.py:151-154 | a key made of two digit strings decodes into their values |
| ShardNames.IntervalKeyRoundTrip | dnase.py:87 | encoding naturals as `f"{s}-{e}"` and decoding by split and int gives `(s, e)` back |
| ShardWriter.Feed | dnase.py:77-88 | one line either stops the pass with an error or moves on; it never drops a save and saves at most once; a save made on moving on is the non-empty accumulator under the current name; a data row keeps the name |
| ShardWriter.Run | dnase.py:77-90 | the rest of a pass keeps every earlier save; one that ends without error saves at least once more, and from the empty name it needs a header line |
| ShardWriter.WriteTrack | dnase.py:66-90 | a whole pass that ends without error has saved at least one shard and has seen a header line |
| ShardWriter.Insert | dnase.py:85-88 | `res[chrom][pos] = fold` makes that pair hold fold, overwriting a duplicate, and changes no other pair |
| ShardWriter.GetData | dnase.py:66-90 | the loop's saved shards and error are those of `WriteTrack`, the pass over all lines |
| ShardWriter.HeaderFlush | dnase.py:78-83 | a header saves the accumulator under the previous name only if it is non-empty, then empties it and takes the header's name |
| ShardWriter.DataRowInserts | dnase.py:85-88 | a data row only inserts its fold under its chromosome and `start-end` key |
| ShardWriter.RunRows | dnase.py:77-88 | a run of data rows fills the accumulator and saves nothing |
| ShardWriter.FeedShape | dnase.py:77-88 | per line: a header flushes and renames, a row only fills, and an error keeps every earlier save |
| ShardWriter.RunNext | dnase.py:77 | a line that does not stop the pass hands the remaining lines to the new state |
| ShardWriter.HeaderStep | dnase.py:78-83 | a header followed by more lines takes the header's step and then continues with the rest |
| ShardWriter.OneSection | dnase.py:73-90 | one header plus its rows gives exactly one shard under the header's name, even with no rows |
| ShardWriter.LastSection | dnase.py:78-90 | a final header flushes what came before, and the end of input saves its rows under its name |
| ShardWriter.FirstSection | dnase.py:78-88 | a first section followed by more lines leaves its rows in the accumulator under its name, with nothing saved yet |
| ShardWriter.TwoSections | dnase.py:78-90 | two sections give two shards when the first has rows; a first section without rows is never saved |
| ShardWriter.AccumulateNonEmpty | dnase.py:79 | the accumulator is non-empty exactly when it started non-empty or a row was added |
| ShardWriter.SavedShardsNonEmpty | dnase.py:79-90 | every save a header makes holds data; a pass that ends normally saves at least once, and only its last save may be empty |
| ShardWriter.SavedNamesFromHeaders | dnase.py:82 | every save from any point of the pass uses a name get_file_name made from a header line |
| ShardWriter.FeedKeepsNames | dnase.py:78-88 | one line keeps every held or saved name tied to a header line of the input |
| ShardWriter.WriteTrackNames | dnase.py:74-90 | every shard of a whole pass is saved under a header's name |
| ShardStore.Within | dnase.py:115 | the chained comparison is true exactly when both fields are integers and the point lies between them, bounds included; the upper field is not read when the point is below the lower one; a bad field is `BadShardField` |
| ShardStore.Selected | dnase.py:110-118 | a selected file has five fields, a chromosome field occurring in the query chromosome, integer bounds, and a range holding the start or the end |
| ShardStore.LoadFile | dnase.py:109-120 | one file either leaves the result alone when it is not selected, or fails with `BadShardField` on a file whose chromosome field matched |
| ShardStore.Load | dnase.py:104-122 | load_data fails only with `BadShardField`, and with no selected file its result is empty |
| ShardStore.LoadData | dnase.py:92-122 | the loop's result is `Load`, the fold of the per-file step over the files in order |
| ShardStore.LoadStopsAtError | dnase.py:115-118 | the first failing int() ends the load with that error |
| ShardStore.LoadFileMerges | dnase.py:114-120 | a file that loads without error is merged in exactly when it is selected, and loading it twice equals loading it once |
| ShardStore.ForeignFileSkipped | dnase.py:110-112 | a file whose name does not split into five fields is passed over |
| ShardStore.MergeLastWins | dnase.py:117-120 | after loading, chromosome c maps to exactly the c mapping of the last selected file that holds c |
| ShardStore.ContainmentOvermatches | dnase.py:110-118 | the shard get_data names for chromosome c over `[lo, hi]` is selected for any query chromosome `chr` + c + suffix, such as `1` for `chr10`, whenever the query start or end lies in `[lo, hi]` |
| ShardStore.InclusiveBounds | dnase.py:115-118 | the range tests include both ends of the shard's range |
| ShardStore.ShardOfChromosomeLoaded | dnase.py:108-120 | a shard written for c is merged into every query on `chr` + c whose start or end lies in its range |
| RangeQuery.StartCount | dnase.py:158-161 | the start test appends something exactly when `ks <= start < ke` and `start < end`, and then reaches `min(ke, end)` from start |
| RangeQuery.EndCount | dnase.py:163-165 | the end test appends something exactly when `ks < end <= ke`, and then covers `[ks, end)` |
| RangeQuery.Block | dnase.py:151-165 | an item fails exactly when its key does not decode, with `MalformedIntervalKey`; otherwise every value it adds is its own |
| RangeQuery.Expand | dnase.py:150-165 | the expansion succeeds exactly when every key of the mapping decodes, and fails only with `MalformedIntervalKey` |
| RangeQuery.Find | dnase.py:124-167 | an answer is only given for two endpoints that each unpack at `:`, name one chromosome, and have integer positions with start below end |
| RangeQuery.Repeat | dnase.py:161 | n appends of one value give n copies of it |
| RangeQuery.DnaseFinder | dnase.py:124-167 | the method's result is `Find`: every check in source order, then the expansion of the chromosome's merged mapping |
| RangeQuery.ExpandData | dnase.py:150-165 | the loop over the mapping's items yields `Expand`, and it stops at the first bad key |
| RangeQuery.AppendBlock | dnase.py:158-165 | an interval's two loops append exactly StartCount and then EndCount copies of its value |
| RangeQuery.ExpandStopsAtError | dnase.py:151-154 | a key that does not decode ends the query with that error |
| RangeQuery.ExpandAppend | dnase.py:150 | the expansion of a concatenated mapping is the two expansions concatenated, in key order, and a bad key in either part ends it |
| RangeQuery.ExpandSnoc | dnase.py:150-165 | one more item in the mapping appends that item's block to the answer, or ends it at a bad key |
| RangeQuery.ThenAssociative | dnase.py:150-165 | answering three runs of items in sequence does not depend on how they are grouped |
| RangeQuery.ExpandOne | dnase.py:150-165 | a mapping with one item expands into that item's block |
| RangeQuery.RepeatJoin | dnase.py:159-165 | consecutive runs of one value join into a single run |
| RangeQuery.ExpandValues | dnase.py:150-165 | every value in the answer is the value of some interval of the mapping |
| RangeQuery.StartBlockIsOverlap | dnase.py:158-161 | the start block of an interval beginning at or before the query start holds one value per position shared with `[start, end)` |
| RangeQuery.EndBlockExceedsOverlap | dnase.py:163-165 | the end block exceeds the shared positions by exactly the interval's positions before the query start |
| RangeQuery.SilentInterval | dnase.py:158-165 | an interval that holds neither the query start (`ks <= start < ke`) nor the query end (`ks <= end <= ke`) contributes nothing, whether it lies outside the query or strictly inside it |
| RangeQuery.InteriorIntervalLost | dnase.py:150-165 | over three adjacent intervals holding a, b and c, a query from the first to the third answers `a` for `[start, m1)` and `c` for `[m2, end)`; the `m2 - m1` middle positions are missing, and b does not occur when it differs from a and c |
| RangeQuery.CoveringInterval | dnase.py:158-165 | a query inside one interval gets `(end - start) + (end - ks)` copies of its value, more than `end - start` |
| RangeQuery.AdjacentIntervals | dnase.py:150-165 | two adjacent intervals, one holding the start and one the end, give exactly one value per query position |
| RangeQuery.SampleFind | test_dnase.py:53-58 | the query `1:10180`, `1:10190` over one shard whose intervals are 10180-10182 = 0.24601 and 10182-10190 = 0 gives two copies of 0.24601 and then eight of 0 |
| RangeQuery.PositionSplits | dnase.py:136-137 | `chrom:pos` unpacks into the chromosome and the digits |
| RangeQuery.FindWellFormed | dnase.py:136-148 | a well-formed query on one chromosome passes every check and looks up `"chr" + chrom`; a missing chromosome is an error |
| RangeQuery.CrossChromosomeRefused | dnase.py:139 | endpoints on two chromosomes are refused |
| RangeQuery.InvertedRangeRefused | dnase.py:145 | a start that is not below the end is refused |
| RangeQuery.MalformedPositionRefused | dnase.py:136 | a start endpoint that does not split at `:` into exactly two parts, with no colon or with two or more, is refused |
| RangeQuery.MalformedEndRefused | dnase.py:136-137 | after a well-formed start endpoint, an end endpoint that does not split at `:` into exactly two parts is refused |
| RangeQuery.MalformedPositionExamples | dnase.py:136-137 | the start endpoint `c` (no colon) and the end endpoint `c:n:m` (two colons) are both refused |
| RangeQuery.QueryOneShard | dnase.py:124-167 | a query answered from one shard of its chromosome is the expansion of that shard's mapping for `"chr" + chrom` |

## Left out

- File and pickle I/O are not modelled. `open` and `pickle.dump` in `save_res` (dnase.py:56-64) become an append to a sequence of (name, mapping) pairs. The track file becomes a sequence of lines. `glob.glob` and `pickle.load` (dnase.py:106, 116-120) become a sequence of (file name, mapping) pairs in glob's order. Saving before any header, which opens the empty file name, is the `NoShardName` error.
- `float(value)` (dnase.py:156) is not modelled. Values stay the strings the shards store, so a value `float` would reject does not fail here.
- The `__init__` default paths and the `parsing_wig` wrapper (dnase.py:8-30) are configuration. Only the shard prefix is kept, as `ShardNames.FilePath`.
- Text.ParseNat: models `int()` on non-empty ASCII digit strings only. Signs, surrounding whitespace, underscores and non-ASCII digits, which Python's `int` accepts, are errors here. Negative coordinates are therefore not modelled.
- ShardWriter.DataRowInserts: a data row is taken as having at least four tab-separated fields, and only the first four are used, as `zip` truncates. A shorter row is the `MissingColumn` error.
- test_dnase.py's timing test and its shard-count test rely on files on a fixed disk path and on wall-clock time, and are not modelled. The expected list of its query test relies on data that is not in the repository. `SampleFind` takes the two intervals it implies as a fixture: 10180-10182 holds 0.24601 and 10182-10190 holds 0.
- Writing and querying are assumed never to run at the same time, as the source assumes; concurrency is not modelled.
