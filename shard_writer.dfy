/** The section writer, get_data: it walks the track's lines keeping an accumulator
    (chromosome -> "start-end" -> fold) and the current shard name. A header line saves
    the accumulator under the previous name when it holds anything, then starts a new
    section; a data line is stored in the accumulator; the end of input always saves.
    Saving a shard (save_res, a pickle file) is modelled as appending it to `saved`. */
module ShardWriter {
  import opened Results
  import opened Text
  import opened Dicts
  import opened ShardNames

  /** One section's data, as get_data's `res`: chromosome -> (interval key -> fold). */
  type Shard = Dict<Dict<string>>

  /** A persisted shard: its file name and its contents. */
  datatype Saved = Saved(name: string, shard: Shard)

  /** The loop's state: the accumulator, the current shard name ("" before the first
      header) and the shards saved so far. */
  datatype Writer = Writer(acc: Shard, name: string, saved: seq<Saved>)

  /** What a write pass leaves behind: every shard it saved, and the error that cut it
      short, if one did. Shards saved before an error stay saved. */
  datatype Outcome = Outcome(saved: seq<Saved>, error: Option<Error>)

  /** The outcome of feeding one line: go on, or stop with an error. */
  datatype Step = Next(w: Writer) | Stop(outcome: Outcome)

  const Start := Writer([], "", [])

  predicate IsHeader(line: string) {
    |line| > 0 && line[0] == '#'
  }

  /** A line get_data stores: not a header, with at least the four columns
      chrom, start, end and fold. */
  predicate IsDataRow(line: string) {
    |line| > 0 && line[0] != '#' && |Split(Strip(line), '\t')| >= 4
  }

  /** Every line of rows is a data row. */
  predicate DataRows(rows: seq<string>) {
    |rows| == 0 || (IsDataRow(rows[0]) && DataRows(rows[1..]))
  }

  /** What a chromosome holds in the accumulator; absent reads as empty, as with a
      defaultdict(dict). */
  function Inner(acc: Shard, chrom: string): Dict<string> {
    match Get(acc, chrom)
    case Some(m) => m
    case None => []
  }

  /** The fold stored for (chrom, pos), if any. */
  function Lookup(acc: Shard, chrom: string, pos: string): Option<string> {
    match Get(acc, chrom)
    case Some(m) => Get(m, pos)
    case None => None
  }

  /** `res[chrom][pos] = fold`: that pair now holds fold (a duplicate key is
      overwritten), and every other (chromosome, key) pair is unchanged. */
  function Insert(acc: Shard, chrom: string, pos: string, fold: string): (r: Shard)
    ensures Lookup(r, chrom, pos) == Some(fold)
    ensures forall c, p :: (c, p) != (chrom, pos) ==> Lookup(r, c, p) == Lookup(acc, c, p)
    ensures |r| > 0
  {
    Set(acc, chrom, Set(Inner(acc, chrom), pos, fold))
  }

  /** The accumulator after a run of data rows. */
  function Accumulate(acc: Shard, rows: seq<string>): Shard
    requires DataRows(rows)
    decreases |rows|
  {
    if |rows| == 0 then acc
    else
      var row := Split(Strip(rows[0]), '\t');
      Accumulate(Insert(acc, row[0], IntervalKey(row[1], row[2]), row[3]), rows[1..])
  }

  /** One iteration of get_data's loop. */
  function Feed(w: Writer, line: string): (r: Step)
    ensures r.Stop? ==> r.outcome.error.Some? && w.saved <= r.outcome.saved
    ensures r.Next? ==> w.saved <= r.w.saved && |r.w.saved| <= |w.saved| + 1
    ensures r.Next? && |r.w.saved| > |w.saved| ==> r.w.saved[|w.saved|] == Saved(w.name, w.acc) && |w.acc| > 0
    ensures r.Next? && !IsHeader(line) ==> r.w.name == w.name
  {
    if |line| == 0 then Stop(Outcome(w.saved, Some(EmptyLine)))
    else if line[0] == '#' then
      if |w.acc| > 0 && w.name == "" then Stop(Outcome(w.saved, Some(NoShardName)))
      else
        var saved := if |w.acc| > 0 then w.saved + [Saved(w.name, w.acc)] else w.saved;
        match GetFileName(line)
        case Err(e) => Stop(Outcome(saved, Some(e)))
        case Ok(name) => Next(Writer([], name, saved))
    else
      var row := Split(Strip(line), '\t');
      if |row| < 4 then Stop(Outcome(w.saved, Some(MissingColumn)))
      else Next(w.(acc := Insert(w.acc, row[0], IntervalKey(row[1], row[2]), row[3])))
  }

  /** The save after the loop, which happens whatever the accumulator holds. */
  function Finish(w: Writer): Outcome {
    if w.name == "" then Outcome(w.saved, Some(NoShardName))
    else Outcome(w.saved + [Saved(w.name, w.acc)], None)
  }

  /** The rest of a write pass from state w. */
  function Run(w: Writer, lines: seq<string>): (r: Outcome)
    ensures w.saved <= r.saved
    ensures r.error.None? ==> |r.saved| > |w.saved|
    ensures r.error.None? && w.name == "" ==> exists i :: 0 <= i < |lines| && IsHeader(lines[i])
    decreases |lines|
  {
    if |lines| == 0 then Finish(w)
    else
      match Feed(w, lines[0])
      case Stop(o) => o
      case Next(w') => Run(w', lines[1..])
  }

  /** A whole write pass over the track's lines. */
  function WriteTrack(lines: seq<string>): (r: Outcome)
    ensures r.error.None? ==> |r.saved| >= 1
    ensures r.error.None? ==> exists i :: 0 <= i < |lines| && IsHeader(lines[i])
  {
    Run(Start, lines)
  }

  /** get_data, with the track file given as its lines and save_res as an append. */
  method GetData(lines: seq<string>) returns (saved: seq<Saved>, error: Option<Error>)
    ensures Outcome(saved, error) == WriteTrack(lines)
  {
    var res: Shard := [];
    var fileName := "";
    saved := [];
    for i := 0 to |lines|
      invariant Run(Writer(res, fileName, saved), lines[i..]) == WriteTrack(lines)
    {
      var line := lines[i];
      assert lines[i..][0] == line && lines[i..][1..] == lines[i + 1..];
      if |line| == 0 {
        return saved, Some(EmptyLine);
      }
      if line[0] == '#' {
        if |res| > 0 {
          if fileName == "" {
            return saved, Some(NoShardName);
          }
          saved := saved + [Saved(fileName, res)];
          res := [];
        }
        var name := GetFileName(line);
        if name.Err? {
          return saved, Some(name.error);
        }
        fileName := name.value;
      } else {
        var row := Split(Strip(line), '\t');
        if |row| < 4 {
          return saved, Some(MissingColumn);
        }
        var pos := IntervalKey(row[1], row[2]);
        res := Set(res, row[0], Set(Inner(res, row[0]), pos, row[3]));
      }
    }
    assert lines[|lines|..] == [];
    if fileName == "" {
      return saved, Some(NoShardName);
    }
    saved := saved + [Saved(fileName, res)];
    error := None;
  }

  /** A header line closes the section before it: the accumulator is saved under the
      previous name only when it holds something, then it is emptied and the name
      becomes the header's. Nothing is stored for the header line itself. */
  lemma HeaderFlush(w: Writer, line: string, name: string)
    requires IsHeader(line) && GetFileName(line) == Ok(name)
    requires w.name != "" || |w.acc| == 0
    ensures Feed(w, line) == Next(Writer([], name, if |w.acc| > 0 then w.saved + [Saved(w.name, w.acc)] else w.saved))
  {
  }

  /** A data row only changes the accumulator, through Insert. */
  lemma DataRowInserts(w: Writer, line: string)
    requires IsDataRow(line)
    ensures var row := Split(Strip(line), '\t');
            Feed(w, line) == Next(w.(acc := Insert(w.acc, row[0], IntervalKey(row[1], row[2]), row[3])))
  {
  }

  /** A run of data rows fills the accumulator and saves nothing. */
  lemma {:induction false} RunRows(w: Writer, rows: seq<string>, rest: seq<string>)
    requires DataRows(rows)
    ensures Run(w, rows + rest) == Run(w.(acc := Accumulate(w.acc, rows)), rest)
    decreases |rows|
  {
    if |rows| > 0 {
      var row := Split(Strip(rows[0]), '\t');
      assert (rows + rest)[0] == rows[0] && (rows + rest)[1..] == rows[1..] + rest;
      DataRowInserts(w, rows[0]);
      RunRows(w.(acc := Insert(w.acc, row[0], IntervalKey(row[1], row[2]), row[3])), rows[1..], rest);
    } else {
      assert rows + rest == rest;
    }
  }

  /** What one line can do to the state: a header saves the non-empty accumulator
      under a non-empty name, empties the accumulator and takes its own name; a data row
      only fills the accumulator; an error keeps what was saved, including a save the
      header had already made. */
  lemma FeedShape(w: Writer, line: string)
    ensures match Feed(w, line)
            case Next(w') =>
              if IsHeader(line) then
                GetFileName(line) == Ok(w'.name) && w'.acc == [] &&
                (|w.acc| > 0 ==> w.name != "") &&
                w'.saved == (if |w.acc| > 0 then w.saved + [Saved(w.name, w.acc)] else w.saved)
              else
                w'.name == w.name && w'.saved == w.saved && |w'.acc| > 0
            case Stop(o) =>
              o.error.Some? &&
              (o.saved == w.saved ||
               (IsHeader(line) && |w.acc| > 0 && w.name != "" && o.saved == w.saved + [Saved(w.name, w.acc)]))
  {
  }

  /** A line that does not stop the pass hands the rest of the lines to the new state. */
  lemma RunNext(w: Writer, lines: seq<string>, w': Writer)
    requires |lines| > 0 && Feed(w, lines[0]) == Next(w')
    ensures Run(w, lines) == Run(w', lines[1..])
  {
  }

  /** A header followed by more lines: the header's step, then the rest. */
  lemma HeaderStep(w: Writer, header: string, name: string, rest: seq<string>)
    requires IsHeader(header) && GetFileName(header) == Ok(name)
    requires w.name != "" || |w.acc| == 0
    ensures Run(w, [header] + rest)
            == Run(Writer([], name, if |w.acc| > 0 then w.saved + [Saved(w.name, w.acc)] else w.saved), rest)
  {
    var lines := [header] + rest;
    assert lines[0] == header;
    assert lines[1..] == rest;
    HeaderFlush(w, header, name);
    RunNext(w, lines, Writer([], name, if |w.acc| > 0 then w.saved + [Saved(w.name, w.acc)] else w.saved));
  }

  /** The last section of a track: its header flushes what came before, and the end of
      input saves its rows under its name. */
  lemma LastSection(w: Writer, header: string, name: string, rows: seq<string>)
    requires IsHeader(header) && GetFileName(header) == Ok(name)
    requires w.name != "" || |w.acc| == 0
    requires DataRows(rows)
    ensures Run(w, [header] + rows)
            == Outcome((if |w.acc| > 0 then w.saved + [Saved(w.name, w.acc)] else w.saved)
                       + [Saved(name, Accumulate([], rows))], None)
  {
    var w' := Writer([], name, if |w.acc| > 0 then w.saved + [Saved(w.name, w.acc)] else w.saved);
    HeaderStep(w, header, name, rows);
    RunRows(w', rows, []);
    assert rows + [] == rows;
    GetFileNameNonEmpty(header);
  }

  /** A track of one section, a header and its rows, is saved as exactly one shard
      holding those rows, under the header's name. */
  lemma OneSection(header: string, name: string, rows: seq<string>)
    requires IsHeader(header) && GetFileName(header) == Ok(name)
    requires DataRows(rows)
    ensures WriteTrack([header] + rows) == Outcome([Saved(name, Accumulate([], rows))], None)
  {
    LastSection(Start, header, name, rows);
    assert [] + [Saved(name, Accumulate([], rows))] == [Saved(name, Accumulate([], rows))];
  }

  /** A section that is followed by more lines leaves its rows in the accumulator. */
  lemma FirstSection(header: string, name: string, rows: seq<string>, rest: seq<string>)
    requires IsHeader(header) && GetFileName(header) == Ok(name)
    requires DataRows(rows)
    ensures Run(Start, [header] + rows + rest) == Run(Writer(Accumulate([], rows), name, []), rest)
  {
    assert [header] + rows + rest == [header] + (rows + rest);
    HeaderStep(Start, header, name, rows + rest);
    RunRows(Writer([], name, []), rows, rest);
  }

  /** In a track of two sections, the first section's rows are in the accumulator when
      the second header is reached. */
  lemma FirstOfTwo(h1: string, n1: string, rows1: seq<string>, h2: string, rows2: seq<string>)
    requires IsHeader(h1) && GetFileName(h1) == Ok(n1)
    requires DataRows(rows1)
    ensures WriteTrack([h1] + rows1 + [h2] + rows2) == Run(Writer(Accumulate([], rows1), n1, []), [h2] + rows2)
  {
    Regroup([h1], rows1, [h2], rows2);
    FirstSection(h1, n1, rows1, [h2] + rows2);
  }

  /** The two sections' lines, grouped as the first section and the rest. */
  lemma Regroup(a: seq<string>, b: seq<string>, c: seq<string>, d: seq<string>)
    ensures a + b + c + d == a + b + (c + d)
  {
  }

  /** Two sections give two shards when the first has rows; a first section without
      rows is not saved at all. */
  lemma TwoSections(h1: string, n1: string, rows1: seq<string>, h2: string, n2: string, rows2: seq<string>)
    requires IsHeader(h1) && GetFileName(h1) == Ok(n1)
    requires IsHeader(h2) && GetFileName(h2) == Ok(n2)
    requires DataRows(rows1)
    requires DataRows(rows2)
    ensures WriteTrack([h1] + rows1 + [h2] + rows2) ==
            Outcome((if |rows1| > 0 then [Saved(n1, Accumulate([], rows1))] else [])
                    + [Saved(n2, Accumulate([], rows2))], None)
  {
    var acc1 := Accumulate([], rows1);
    FirstOfTwo(h1, n1, rows1, h2, rows2);
    AccumulateNonEmpty([], rows1);
    GetFileNameNonEmpty(h1);
    LastSection(Writer(acc1, n1, []), h2, n2, rows2);
    assert [] + [Saved(n1, acc1)] == [Saved(n1, acc1)];
  }

  /** The accumulator is empty exactly when it started empty and no row was added. */
  lemma {:induction false} AccumulateNonEmpty(acc: Shard, rows: seq<string>)
    requires DataRows(rows)
    ensures |Accumulate(acc, rows)| > 0 <==> |acc| > 0 || |rows| > 0
    decreases |rows|
  {
    if |rows| > 0 {
      var row := Split(Strip(rows[0]), '\t');
      var acc' := Insert(acc, row[0], IntervalKey(row[1], row[2]), row[3]);
      AccumulateNonEmpty(acc', rows[1..]);
    }
  }

  /** Every shard saved while reading lines holds data; only the one saved at the end of
      input may be empty. A pass that ends without error saves at least that one. */
  lemma {:induction false} SavedShardsNonEmpty(w: Writer, lines: seq<string>)
    requires forall i :: 0 <= i < |w.saved| ==> |w.saved[i].shard| > 0
    ensures var o := Run(w, lines);
            (o.error.Some? ==> forall i :: 0 <= i < |o.saved| ==> |o.saved[i].shard| > 0) &&
            (o.error.None? ==> |o.saved| > 0 && forall i :: 0 <= i < |o.saved| - 1 ==> |o.saved[i].shard| > 0)
    decreases |lines|
  {
    if |lines| > 0 {
      FeedShape(w, lines[0]);
      match Feed(w, lines[0])
      case Stop(o) =>
      case Next(w') =>
        RunNext(w, lines, w');
        SavedShardsNonEmpty(w', lines[1..]);
    }
  }

  /** The name was produced by get_file_name from one of the header lines. */
  ghost predicate FromHeader(name: string, lines: seq<string>) {
    exists j :: 0 <= j < |lines| && IsHeader(lines[j]) && GetFileName(lines[j]) == Ok(name)
  }

  /** Every name the state holds, current or saved, comes from a header of lines. */
  ghost predicate NamesFrom(w: Writer, lines: seq<string>) {
    (w.name == "" || FromHeader(w.name, lines)) &&
    forall i :: 0 <= i < |w.saved| ==> FromHeader(w.saved[i].name, lines)
  }

  /** Every shard of an outcome is saved under a header's name. */
  ghost predicate SavedFrom(o: Outcome, lines: seq<string>) {
    forall i :: 0 <= i < |o.saved| ==> FromHeader(o.saved[i].name, lines)
  }

  /** One line of the input keeps every name the state holds tied to a header. */
  lemma FeedKeepsNames(w: Writer, lines: seq<string>, k: nat)
    requires k < |lines| && NamesFrom(w, lines)
    ensures match Feed(w, lines[k])
            case Next(w') => NamesFrom(w', lines)
            case Stop(o) => SavedFrom(o, lines)
  {
    var line := lines[k];
    FeedShape(w, line);
    match Feed(w, line)
    case Next(w') =>
      if IsHeader(line) {
        assert FromHeader(w'.name, lines);
        if |w.acc| > 0 {
          SavedSnoc(w.saved, Saved(w.name, w.acc), lines);
        }
      }
    case Stop(o) =>
      if o.saved != w.saved {
        SavedSnoc(w.saved, Saved(w.name, w.acc), lines);
      }
  }

  /** Saving one more shard under a header's name keeps every saved name a header's. */
  lemma SavedSnoc(saved: seq<Saved>, s: Saved, lines: seq<string>)
    requires forall i :: 0 <= i < |saved| ==> FromHeader(saved[i].name, lines)
    requires FromHeader(s.name, lines)
    ensures forall i :: 0 <= i < |saved + [s]| ==> FromHeader((saved + [s])[i].name, lines)
  {
  }

  /** Every shard is saved under the name of a header line of the input: no name is
      made up, and nothing is ever saved under the empty name. */
  lemma {:induction false} SavedNamesFromHeaders(lines: seq<string>, k: nat, w: Writer)
    requires k <= |lines| && NamesFrom(w, lines)
    ensures SavedFrom(Run(w, lines[k..]), lines)
    decreases |lines| - k
  {
    if k < |lines| {
      var rest := lines[k..];
      assert rest[0] == lines[k] && rest[1..] == lines[k + 1..];
      FeedKeepsNames(w, lines, k);
      match Feed(w, lines[k])
      case Stop(o) =>
      case Next(w') =>
        RunNext(w, rest, w');
        SavedNamesFromHeaders(lines, k + 1, w');
    } else {
      assert lines[k..] == [];
    }
  }

  /** The whole pass: every saved shard carries a header's name. */
  lemma WriteTrackNames(lines: seq<string>)
    ensures forall i :: 0 <= i < |WriteTrack(lines).saved| ==> FromHeader(WriteTrack(lines).saved[i].name, lines)
  {
    assert lines[0..] == lines;
    assert WriteTrack(lines) == Run(Start, lines[0..]);
    SavedNamesFromHeaders(lines, 0, Start);
  }
}
