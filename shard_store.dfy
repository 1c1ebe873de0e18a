/** Shard selection and merge, load_data: every shard file whose name decodes into five
    fields, whose chromosome field occurs in the query chromosome, and whose range holds
    the query start or the query end (both bounds inclusive) is loaded, and its contents
    are merged into the result with a top-level dict.update. The files are given as the
    (file name, contents) pairs that glob and pickle.load produce, in glob's order. */
module ShardStore {
  import opened Results
  import opened Text
  import opened Dicts
  import opened ShardNames
  import opened ShardWriter

  /** One shard file: its name and the mapping pickled in it. */
  datatype ShardFile = ShardFile(filename: string, content: Shard)

  /** `int(lo) <= x <= int(hi)` as Python evaluates it: int(hi) is only computed when
      int(lo) <= x holds, and a failing int() raises. */
  function Within(lo: string, hi: string, x: nat): (r: Result<bool>)
    ensures r.Err? ==> r.error == BadShardField
    ensures r == Ok(true) <==> ParseNat(lo).Some? && ParseNat(hi).Some? && ParseNat(lo).value <= x <= ParseNat(hi).value
    ensures ParseNat(lo).Some? && x < ParseNat(lo).value ==> r == Ok(false)
  {
    match ParseNat(lo)
    case None => Err(BadShardField)
    case Some(l) =>
      if l <= x then
        match ParseNat(hi)
        case None => Err(BadShardField)
        case Some(h) => Ok(x <= h)
      else Ok(false)
  }

  /** The test each file goes through: five fields, the chromosome field a substring of
      the query chromosome, and the start or the end inside the file's range. */
  predicate Selected(f: ShardFile, chrom: string, start: nat, end: nat)
    ensures Selected(f, chrom, start, end) ==>
              DecodeName(f.filename).Some? &&
              var n := DecodeName(f.filename).value;
              IsSubstring(n.chrom, chrom)
              && ParseNat(n.start).Some? && ParseNat(n.end).Some?
              && (ParseNat(n.start).value <= start <= ParseNat(n.end).value
                  || ParseNat(n.start).value <= end <= ParseNat(n.end).value)
  {
    match DecodeName(f.filename)
    case None => false
    case Some(fields) =>
      IsSubstring(fields.chrom, chrom) &&
      (Within(fields.start, fields.end, start) == Ok(true) || Within(fields.start, fields.end, end) == Ok(true))
  }

  /** One iteration of load_data's loop: the file is loaded once for the start test and
      once more for the end test. */
  function LoadFile(res: Shard, f: ShardFile, chrom: string, start: nat, end: nat): (r: Result<Shard>)
    ensures r.Err? ==> r.error == BadShardField && DecodeName(f.filename).Some?
                       && IsSubstring(DecodeName(f.filename).value.chrom, chrom)
    ensures r.Ok? && !Selected(f, chrom, start, end) ==> r.value == res
  {
    match DecodeName(f.filename)
    case None => Ok(res)
    case Some(fields) =>
      if !IsSubstring(fields.chrom, chrom) then Ok(res)
      else
        match Within(fields.start, fields.end, start)
        case Err(e) => Err(e)
        case Ok(atStart) =>
          var res1 := if atStart then Update(res, f.content) else res;
          match Within(fields.start, fields.end, end)
          case Err(e) => Err(e)
          case Ok(atEnd) => Ok(if atEnd then Update(res1, f.content) else res1)
  }

  /** The merged mapping after the loop has seen every file of files. */
  function Load(files: seq<ShardFile>, chrom: string, start: nat, end: nat): (r: Result<Shard>)
    ensures r.Err? ==> r.error == BadShardField
    ensures (forall i :: 0 <= i < |files| ==> !Selected(files[i], chrom, start, end)) && r.Ok? ==> r.value == []
    decreases |files|
  {
    if |files| == 0 then Ok([])
    else
      match Load(files[..|files| - 1], chrom, start, end)
      case Err(e) => Err(e)
      case Ok(res) => LoadFile(res, files[|files| - 1], chrom, start, end)
  }

  /** load_data, with glob's list and each file's unpickled contents given as files. */
  method LoadData(files: seq<ShardFile>, chrom: string, start: nat, end: nat) returns (r: Result<Shard>)
    ensures r == Load(files, chrom, start, end)
  {
    var res: Shard := [];
    for i := 0 to |files|
      invariant Load(files[..i], chrom, start, end) == Ok(res)
    {
      assert files[..i + 1][..i] == files[..i];
      var f := files[i];
      var fields := DecodeName(f.filename);
      if fields.None? {
        continue;
      }
      var data := fields.value;
      if IsSubstring(data.chrom, chrom) {
        var atStart := Within(data.start, data.end, start);
        if atStart.Err? {
          LoadStopsAtError(files, i + 1, chrom, start, end);
          return Err(atStart.error);
        }
        if atStart.value {
          res := Update(res, f.content);
        }
        var atEnd := Within(data.start, data.end, end);
        if atEnd.Err? {
          LoadStopsAtError(files, i + 1, chrom, start, end);
          return Err(atEnd.error);
        }
        if atEnd.value {
          res := Update(res, f.content);
        }
      }
    }
    assert files[..|files|] == files;
    return Ok(res);
  }

  /** The first error ends the loop: once a prefix of the files fails, so do all of them,
      with the same error. */
  lemma {:induction false} LoadStopsAtError(files: seq<ShardFile>, k: nat, chrom: string, start: nat, end: nat)
    requires k <= |files|
    requires Load(files[..k], chrom, start, end).Err?
    ensures Load(files, chrom, start, end) == Load(files[..k], chrom, start, end)
    decreases |files| - k
  {
    if k < |files| {
      var prefix := files[..|files| - 1];
      assert prefix[..k] == files[..k];
      LoadStopsAtError(prefix, k, chrom, start, end);
    } else {
      assert files[..k] == files;
    }
  }

  /** A file that loads without error is merged in exactly when it is selected, and a
      file that passes both endpoint tests, so is loaded twice, leaves the same result
      as loading it once. */
  lemma LoadFileMerges(res: Shard, f: ShardFile, chrom: string, start: nat, end: nat)
    requires Valid(f.content)
    requires LoadFile(res, f, chrom, start, end).Ok?
    ensures LoadFile(res, f, chrom, start, end)
            == Ok(if Selected(f, chrom, start, end) then Update(res, f.content) else res)
  {
    match DecodeName(f.filename)
    case None =>
    case Some(fields) =>
      if IsSubstring(fields.chrom, chrom) {
        if Within(fields.start, fields.end, start) == Ok(true) && Within(fields.start, fields.end, end) == Ok(true) {
          UpdateTwice(res, f.content);
        }
      }
  }

  /** A file load_data cannot split into five fields is passed over. */
  lemma ForeignFileSkipped(res: Shard, f: ShardFile, chrom: string, start: nat, end: nat)
    requires DecodeName(f.filename).None?
    ensures LoadFile(res, f, chrom, start, end) == Ok(res) && !Selected(f, chrom, start, end)
  {
  }

  /** The contents of the last selected file that holds chromosome c, if any. */
  function LastHolding(files: seq<ShardFile>, c: string, chrom: string, start: nat, end: nat): Option<Dict<string>>
    decreases |files|
  {
    if |files| == 0 then None
    else
      var f := files[|files| - 1];
      if Selected(f, chrom, start, end) && Get(f.content, c).Some? then Get(f.content, c)
      else LastHolding(files[..|files| - 1], c, chrom, start, end)
  }

  /** The merge replaces whole per-chromosome mappings: after loading, chromosome c maps
      to exactly what the last selected file holding c has for it, not to a union of the
      shards that hold c. */
  lemma {:induction false} MergeLastWins(files: seq<ShardFile>, c: string, chrom: string, start: nat, end: nat)
    requires forall i :: 0 <= i < |files| ==> Valid(files[i].content)
    requires Load(files, chrom, start, end).Ok?
    ensures Get(Load(files, chrom, start, end).value, c) == LastHolding(files, c, chrom, start, end)
    decreases |files|
  {
    if |files| > 0 {
      var prefix := files[..|files| - 1];
      var f := files[|files| - 1];
      MergeLastWins(prefix, c, chrom, start, end);
      var res := Load(prefix, chrom, start, end).value;
      LoadFileMerges(res, f, chrom, start, end);
      if Selected(f, chrom, start, end) {
        UpdateGet(res, f.content, c);
      }
    }
  }

  /** c occurs in "chr" + c + suffix, right after the "chr". */
  lemma ChromosomeInQuery(c: string, suffix: string)
    ensures IsSubstring(c, "chr" + c + suffix)
  {
    var hay := "chr" + c + suffix;
    assert hay[3..3 + |c|] == c;
    assert OccursAt(c, hay, 3);
    IsSubstringAt(c, hay);
  }

  /** A shard of chromosome c is selected for every query chromosome whose name, after
      "chr", extends c, as long as its range holds the query start or end: the shard of
      "1" is selected for a query on "chr10" or "chr12". */
  lemma ContainmentOvermatches(c: string, suffix: string, lo: nat, hi: nat, content: Shard, start: nat, end: nat)
    requires NameSafe(c) && (lo <= start <= hi || lo <= end <= hi)
    ensures Selected(ShardFile(ShardFileName(c, lo, hi), content), "chr" + c + suffix, start, end)
  {
    DecodeShardFileName(c, lo, hi);
    ChromosomeInQuery(c, suffix);
    ParseNatToString(lo);
    ParseNatToString(hi);
  }

  /** The range tests are inclusive at both ends: a file whose name decodes to the
      range [lo, hi] passes when the query start or end is exactly lo or hi. */
  lemma InclusiveBounds(lo: nat, hi: nat, x: nat)
    requires lo <= x <= hi
    ensures Within(NatToString(lo), NatToString(hi), x) == Ok(true)
  {
    ParseNatToString(lo);
    ParseNatToString(hi);
  }

  /** A shard get_data wrote for chromosome c over [lo, hi] is merged into every query
      on "chr" + c whose start or end falls in [lo, hi]. */
  lemma ShardOfChromosomeLoaded(res: Shard, c: string, lo: nat, hi: nat, content: Shard, start: nat, end: nat)
    requires NameSafe(c) && Valid(content)
    requires lo <= start <= hi || lo <= end <= hi
    ensures var f := ShardFile(ShardFileName(c, lo, hi), content);
            Selected(f, "chr" + c, start, end)
            && LoadFile(res, f, "chr" + c, start, end) == Ok(Update(res, content))
  {
    var f := ShardFile(ShardFileName(c, lo, hi), content);
    DecodeShardFileName(c, lo, hi);
    assert "chr" + c + "" == "chr" + c;
    ChromosomeInQuery(c, "");
    ParseNatToString(lo);
    ParseNatToString(hi);
    LoadFileMerges(res, f, "chr" + c, start, end);
  }
}
