/** Shard file names. get_file_name turns a section header such as
    "#bedGraph section chr1:0-723230" into the name of the shard that holds the
    section; load_data splits a name back into its five fields. */
module ShardNames {
  import opened Results
  import opened Text

  /** The first two '_'-separated fields of every shard name. Tag is the literal
      "/data/gflas-knockout-efficiency/data/WIG/dnase", written as three shorter
      literals so that FixedFieldsSafe can check each of them for separators. */
  const Tag := "/data/gflas-knockout" + "-efficiency/data/WIG" + "/dnase"
  const CellLine := "hek293t"

  /** The store prefix every shard name starts with (self.file_path):
      "/data/gflas-knockout-efficiency/data/WIG/dnase_hek293t_". */
  const FilePath := Tag + "_" + CellLine + "_"

  /** The region a header line declares; the chromosome has had every "chr" removed. */
  datatype Section = Section(chrom: string, start: nat, end: nat)

  /** The five '_'-separated fields of a shard name, still as text:
      ["dnase", "cellline", "chr", "start", "end"] in the source's column names. */
  datatype NameFields = NameFields(tag: string, cellLine: string, chrom: string, start: string, end: string)

  /** f"{file_path}{chrom}_{start}_{end}.pk" */
  function ShardFileName(chrom: string, start: nat, end: nat): string {
    FilePath + chrom + "_" + NatToString(start) + "_" + NatToString(end) + ".pk"
  }

  /** The header's range token: the last ' '-separated field of the stripped line. */
  function SectionToken(line: string): string {
    Last(Split(Strip(line), ' '))
  }

  /** The parsing half of get_file_name: "chrom:start-end" must unpack into exactly two
      parts at ':' and two at '-', and both bounds must be integers. */
  function ParseSection(line: string): (r: Result<Section>)
    ensures r.Err? ==> r.error == MalformedHeader
    ensures r.Ok? ==> ':' !in r.value.chrom && forall ch :: ch in r.value.chrom ==> ch in SectionToken(line)
  {
    SplitPieces(SectionToken(line), ':');
    SplitChars(SectionToken(line), ':');
    var parts := Split(SectionToken(line), ':');
    if |parts| != 2 then Err(MalformedHeader)
    else
      var pos := Split(parts[1], '-');
      if |pos| != 2 then Err(MalformedHeader)
      else
        match (ParseNat(pos[0]), ParseNat(pos[1]))
        case (Some(start), Some(end)) => Ok(Section(RemoveChr(parts[0]), start, end))
        case _ => Err(MalformedHeader)
  }

  /** The way load_data reads a file name: the part before the first '.', split at '_',
      is only used when it has exactly five fields. */
  function DecodeName(filename: string): (r: Option<NameFields>)
    ensures r.Some? ==> NameSafe(r.value.tag) && NameSafe(r.value.cellLine) && NameSafe(r.value.chrom)
                        && NameSafe(r.value.start) && NameSafe(r.value.end)
  {
    var stem := Split(filename, '.')[0];
    SplitPieces(filename, '.');
    SplitPieces(stem, '_');
    SplitChars(stem, '_');
    var parts := Split(stem, '_');
    if |parts| != 5 then None else Some(NameFields(parts[0], parts[1], parts[2], parts[3], parts[4]))
  }

  /** A chromosome name that survives the trip through a shard name. */
  predicate NameSafe(chrom: string) {
    '_' !in chrom && '.' !in chrom
  }

  /** get_file_name: the name of the shard of the section the header declares. */
  function GetFileName(line: string): (r: Result<string>)
    ensures r.Ok? <==> ParseSection(line).Ok?
    ensures r.Err? ==> r.error == MalformedHeader
    ensures r.Ok? ==> |r.value| > |FilePath| && r.value[..|FilePath|] == FilePath
  {
    match ParseSection(line)
    case Err(e) => Err(e)
    case Ok(sec) => Ok(ShardFileName(sec.chrom, sec.start, sec.end))
  }

  /** A shard name is never empty. */
  lemma GetFileNameNonEmpty(line: string)
    requires GetFileName(line).Ok?
    ensures GetFileName(line).value != ""
  {
    var sec := ParseSection(line).value;
    assert |ShardFileName(sec.chrom, sec.start, sec.end)| >= |FilePath| > 0;
  }

  /** get_file_name fails exactly when the header does not parse, and the name it builds
      decodes back into the section's chromosome and decimal bounds. */
  lemma GetFileNameDecodes(line: string)
    ensures ParseSection(line).Err? <==> GetFileName(line) == Err(MalformedHeader)
    ensures ParseSection(line).Ok? && NameSafe(ParseSection(line).value.chrom) ==>
              var sec := ParseSection(line).value;
              DecodeName(GetFileName(line).value)
                == Some(NameFields(Tag, CellLine, sec.chrom, NatToString(sec.start), NatToString(sec.end)))
  {
    match ParseSection(line)
    case Err(e) =>
    case Ok(sec) =>
      if NameSafe(sec.chrom) {
        DecodeShardFileName(sec.chrom, sec.start, sec.end);
      }
  }

  /** The fixed fields hold neither separator. */
  lemma FixedFieldsSafe()
    ensures NameSafe(Tag) && NameSafe(CellLine)
  {
    assert NameSafe("/data/gflas-knockout");
    assert NameSafe("-efficiency/data/WIG");
    assert NameSafe("/dnase");
  }

  /** The five fields joined with '_', followed by the ".pk" extension. */
  function JoinedName(tag: string, cell: string, chrom: string, s: string, e: string): string {
    tag + "_" + cell + "_" + chrom + "_" + s + "_" + e + ".pk"
  }

  lemma ShardFileNameFields(chrom: string, start: nat, end: nat)
    ensures ShardFileName(chrom, start, end)
              == JoinedName(Tag, CellLine, chrom, NatToString(start), NatToString(end))
  {
  }

  /** The '_'-join of five fields, written out. */
  lemma JoinFive(a: string, b: string, c: string, d: string, e: string)
    ensures Join([a, b, c, d, e], '_') == a + "_" + b + "_" + c + "_" + d + "_" + e
  {
    var parts := [a, b, c, d, e];
    assert Join(parts[4..], '_') == e;
    assert Join(parts[3..], '_') == d + "_" + e;
    assert Join(parts[2..], '_') == c + "_" + (d + "_" + e);
    assert Join(parts[1..], '_') == b + "_" + (c + "_" + (d + "_" + e));
  }

  /** The part of a joined name before its extension is the '_'-join of its fields. */
  lemma StemOfJoinedName(tag: string, cell: string, chrom: string, s: string, e: string)
    requires NameSafe(tag) && NameSafe(cell) && '.' !in chrom && NameSafe(s) && NameSafe(e)
    ensures Split(JoinedName(tag, cell, chrom, s, e), '.')[0] == Join([tag, cell, chrom, s, e], '_')
  {
    var stem := tag + "_" + cell + "_" + chrom + "_" + s + "_" + e;
    assert JoinedName(tag, cell, chrom, s, e) == stem + ['.'] + "pk";
    assert '.' !in stem by {
      assert '.' !in tag + "_" + cell;
      assert '.' !in tag + "_" + cell + "_" + chrom;
    }
    SplitConcat(stem, "pk", '.');
    SplitNoSeparator(stem, '.');
    JoinFive(tag, cell, chrom, s, e);
  }

  /** Decoding a name built from a chromosome without '_' or '.' gives back the five
      fields it was built from. */
  lemma DecodeShardFileName(chrom: string, start: nat, end: nat)
    requires NameSafe(chrom)
    ensures DecodeName(ShardFileName(chrom, start, end))
              == Some(NameFields(Tag, CellLine, chrom, NatToString(start), NatToString(end)))
  {
    var s, e := NatToString(start), NatToString(end);
    DigitsHaveNoSeparators(s);
    DigitsHaveNoSeparators(e);
    FixedFieldsSafe();
    ShardFileNameFields(chrom, start, end);
    StemOfJoinedName(Tag, CellLine, chrom, s, e);
    SplitJoin([Tag, CellLine, chrom, s, e], '_');
  }

  /** A '_'-join of five fields, one of them holding '_' itself, splits into more than five. */
  lemma JoinedWithUnderscore(tag: string, cell: string, chrom: string, s: string, e: string)
    requires '_' !in tag && '_' !in cell && '_' !in s && '_' !in e && '_' in chrom
    ensures |Split(Join([tag, cell, chrom, s, e], '_'), '_')| > 5
  {
    SplitNoSeparator(tag, '_');
    SplitNoSeparator(cell, '_');
    var rest := s + "_" + e;
    SplitSeparated(chrom, '_');
    SplitSeparated(rest, '_');
    var tail := chrom + ['_'] + rest;
    var mid := cell + ['_'] + tail;
    var parts := [tag, cell, chrom, s, e];
    assert Join(parts[3..], '_') == rest;
    assert Join(parts[2..], '_') == tail;
    assert Join(parts[1..], '_') == mid;
    SplitConcat(chrom, rest, '_');
    SplitConcat(cell, tail, '_');
    SplitConcat(tag, mid, '_');
  }

  /** A shard whose chromosome holds '_' is written under a name load_data skips: it
      splits into more than five fields. */
  lemma UnderscoreChromosomeSkipped(chrom: string, start: nat, end: nat)
    requires '_' in chrom && '.' !in chrom
    ensures DecodeName(ShardFileName(chrom, start, end)) == None
  {
    var s, e := NatToString(start), NatToString(end);
    DigitsHaveNoSeparators(s);
    DigitsHaveNoSeparators(e);
    FixedFieldsSafe();
    ShardFileNameFields(chrom, start, end);
    StemOfJoinedName(Tag, CellLine, chrom, s, e);
    JoinedWithUnderscore(Tag, CellLine, chrom, s, e);
  }

  /** A header line "#... chrom:start-end", with any trailing whitespace such as its line
      break, declares the section (chrom with "chr" removed, start, end). */
  lemma ParseHeader(rest: string, chrom: string, start: nat, end: nat, ws: string)
    requires ' ' !in chrom && ':' !in chrom
    requires forall i :: 0 <= i < |ws| ==> IsWhitespace(ws[i])
    ensures ParseSection("#" + rest + " " + chrom + ":" + NatToString(start) + "-" + NatToString(end) + ws)
              == Ok(Section(RemoveChr(chrom), start, end))
  {
    var s, e := NatToString(start), NatToString(end);
    var token := chrom + ":" + s + "-" + e;
    HeaderRegroup("#", rest, " ", chrom, ":", s, "-", e, ws);
    DigitsHaveNoSeparators(s);
    DigitsHaveNoSeparators(e);
    NoSpaceInDigits(s);
    NoSpaceInDigits(e);
    assert !IsWhitespace(token[|token| - 1]) by {
      assert token[|token| - 1] == e[|e| - 1];
    }
    LastField("#" + rest, token, ws);
    TokenFields(chrom, s, e);
    ParseNatToString(start);
    ParseNatToString(end);
  }

  /** The header line, regrouped as its head, a space, its range token and its tail. */
  lemma HeaderRegroup(a: string, b: string, c: string, d: string, e: string, f: string, g: string, h: string, i: string)
    ensures a + b + c + d + e + f + g + h + i == (a + b) + c + (d + e + f + g + h) + i
  {
  }

  /** A decimal rendering holds no space and does not end in whitespace. */
  lemma NoSpaceInDigits(s: string)
    requires |s| > 0 && AllDigits(s)
    ensures ' ' !in s && !IsWhitespace(s[|s| - 1])
  {
    assert forall i :: 0 <= i < |s| ==> IsDigit(s[i]);
  }

  /** The range token of a header is its last ' '-separated field, once the trailing
      whitespace is stripped. */
  lemma LastField(head: string, token: string, ws: string)
    requires |head| > 0 && head[0] == '#'
    requires |token| > 0 && ' ' !in token && !IsWhitespace(token[|token| - 1])
    requires forall i :: 0 <= i < |ws| ==> IsWhitespace(ws[i])
    ensures SectionToken(head + " " + token + ws) == token
  {
    var body := head + " " + token;
    assert (body + ws)[0] == '#';
    assert StripLeft(body + ws) == body + ws;
    assert body[|body| - 1] == token[|token| - 1];
    StripRightTrailing(body, ws);
    assert body == head + [' '] + token;
    SplitLast(head, token, ' ');
  }

  /** "chrom:s-e" splits at ':' into chrom and "s-e", and "s-e" at '-' into s and e. */
  lemma TokenFields(chrom: string, s: string, e: string)
    requires ':' !in chrom && ':' !in s && ':' !in e && '-' !in s && '-' !in e
    ensures Split(chrom + ":" + s + "-" + e, ':') == [chrom, s + "-" + e]
    ensures Split(s + "-" + e, '-') == [s, e]
  {
    var range := s + "-" + e;
    assert chrom + ":" + s + "-" + e == chrom + [':'] + range;
    SplitConcat(chrom, range, ':');
    SplitNoSeparator(chrom, ':');
    SplitNoSeparator(range, ':');
    assert range == s + ['-'] + e;
    SplitConcat(s, e, '-');
    SplitNoSeparator(s, '-');
    SplitNoSeparator(e, '-');
  }

  /** The header's own chromosome and bounds come back out of the shard name
      get_file_name builds for it. */
  lemma HeaderNameRoundTrip(rest: string, chrom: string, start: nat, end: nat, ws: string)
    requires ' ' !in chrom && ':' !in chrom && NameSafe(chrom)
    requires forall i :: 0 <= i < |ws| ==> IsWhitespace(ws[i])
    ensures var line := "#" + rest + " " + chrom + ":" + NatToString(start) + "-" + NatToString(end) + ws;
            GetFileName(line).Ok? &&
            var fields := DecodeName(GetFileName(line).value);
            fields.Some? && fields.value.chrom == RemoveChr(chrom) &&
            ParseNat(fields.value.start) == Some(start) && ParseNat(fields.value.end) == Some(end)
  {
    ParseHeader(rest, chrom, start, end, ws);
    GetFileNameDecodes("#" + rest + " " + chrom + ":" + NatToString(start) + "-" + NatToString(end) + ws);
    var c := RemoveChr(chrom);
    assert NameSafe(c);
    ParseNatToString(start);
    ParseNatToString(end);
  }

  /** The interval key get_data stores a row under: f"{start}-{end}" of the row's raw
      start and end fields. */
  function IntervalKey(start: string, end: string): string {
    start + "-" + end
  }

  /** How dnase_finder reads an interval key: it must unpack into exactly two parts at
      '-', each an integer. */
  function DecodeKey(key: string): (r: Result<(nat, nat)>)
    ensures r.Err? ==> r.error == MalformedIntervalKey
    ensures r.Ok? ==> exists s, e :: key == IntervalKey(s, e) && ParseNat(s) == Some(r.value.0) && ParseNat(e) == Some(r.value.1)
  {
    JoinSplit(key, '-');
    var parts := Split(key, '-');
    if |parts| != 2 then Err(MalformedIntervalKey)
    else
      match (ParseNat(parts[0]), ParseNat(parts[1]))
      case (Some(ks), Some(ke)) => Ok((ks, ke))
      case _ => Err(MalformedIntervalKey)
  }

  /** A key built from two digit strings decodes into their values. */
  lemma DecodeIntervalKey(start: string, end: string)
    requires |start| > 0 && AllDigits(start) && |end| > 0 && AllDigits(end)
    ensures DecodeKey(IntervalKey(start, end)) == Ok((DigitsValue(start), DigitsValue(end)))
  {
    DigitsHaveNoSeparators(start);
    DigitsHaveNoSeparators(end);
    assert IntervalKey(start, end) == start + ['-'] + end;
    SplitConcat(start, end, '-');
    SplitNoSeparator(start, '-');
    SplitNoSeparator(end, '-');
  }

  /** Encoding two naturals as "s-e" and decoding gives them back. */
  lemma IntervalKeyRoundTrip(start: nat, end: nat)
    ensures DecodeKey(IntervalKey(NatToString(start), NatToString(end))) == Ok((start, end))
  {
    DecodeIntervalKey(NatToString(start), NatToString(end));
    ParseNatToString(start);
    ParseNatToString(end);
  }
}
