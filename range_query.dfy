/** The query, dnase_finder: two "chrom:pos" endpoints on one chromosome are checked,
    the shards covering them are loaded and merged, and the intervals of the
    chromosome's mapping are expanded into copies of their values: one block for an
    interval that holds the query start and one for an interval that holds the query
    end. An interval that holds neither adds nothing.
    Values are carried as the strings the shards store. */
module RangeQuery {
  import opened Results
  import opened Text
  import opened Dicts
  import opened ShardNames
  import opened ShardWriter
  import opened ShardStore

  /** n copies of v, as a run of list.append(v). */
  function Repeat(v: string, n: nat): (r: seq<string>)
    ensures |r| == n
    ensures forall i :: 0 <= i < n ==> r[i] == v
  {
    seq(n, i => v)
  }

  /** How many values the start test appends: `for i in range(ke - start): if i < end - start`
      runs only when ks <= start < ke. */
  function StartCount(ks: nat, ke: nat, start: nat, end: nat): (n: nat)
    ensures n > 0 <==> ks <= start < ke && start < end
    ensures n > 0 ==> start + n <= ke && start + n <= end && (start + n == ke || start + n == end)
  {
    if !(ks <= start < ke) || end <= start then 0
    else if ke < end then ke - start
    else end - start
  }

  /** How many values the end test appends: `for i in range(end - ks)` runs only when
      ks <= end <= ke. */
  function EndCount(ks: nat, ke: nat, end: nat): (n: nat)
    ensures n > 0 <==> ks < end <= ke
    ensures n > 0 ==> ks + n == end
  {
    if ks <= end <= ke then end - ks else 0
  }

  /** The values one item of the chromosome's mapping contributes; a key that does not
      decode stops the query. */
  function Block(item: (string, string), start: nat, end: nat): (r: Result<seq<string>>)
    ensures r.Err? <==> DecodeKey(item.0).Err?
    ensures r.Err? ==> r.error == MalformedIntervalKey
    ensures r.Ok? ==> forall i :: 0 <= i < |r.value| ==> r.value[i] == item.1
  {
    match DecodeKey(item.0)
    case Err(e) => Err(e)
    case Ok(k) => Ok(Repeat(item.1, StartCount(k.0, k.1, start, end)) + Repeat(item.1, EndCount(k.0, k.1, end)))
  }

  /** The blocks of every item of data, in the mapping's iteration order. */
  function Expand(data: Dict<string>, start: nat, end: nat): (r: Result<seq<string>>)
    ensures r.Err? ==> r.error == MalformedIntervalKey
    ensures r.Ok? <==> forall i :: 0 <= i < |data| ==> DecodeKey(data[i].0).Ok?
    decreases |data|
  {
    if |data| == 0 then Ok([])
    else
      match Expand(data[..|data| - 1], start, end)
      case Err(e) => Err(e)
      case Ok(prev) =>
        match Block(data[|data| - 1], start, end)
        case Err(e) => Err(e)
        case Ok(b) => Ok(prev + b)
  }

  /** `chrom, pos = s.split(":")`: exactly two parts, or the unpacking raises. */
  function SplitPosition(s: string): Result<(string, string)> {
    var parts := Split(s, ':');
    if |parts| == 2 then Ok((parts[0], parts[1])) else Err(MalformedPosition)
  }

  /** dnase_finder's result, with every check in the order the source makes it. */
  function Find(posFrom: string, posTo: string, files: seq<ShardFile>): (r: Result<seq<string>>)
    ensures r.Ok? ==>
              SplitPosition(posFrom).Ok? && SplitPosition(posTo).Ok? &&
              var from, to := SplitPosition(posFrom).value, SplitPosition(posTo).value;
              from.0 == to.0 && ParseNat(from.1).Some? && ParseNat(to.1).Some?
              && ParseNat(from.1).value < ParseNat(to.1).value
  {
    match SplitPosition(posFrom)
    case Err(e) => Err(e)
    case Ok(from) =>
      match SplitPosition(posTo)
      case Err(e) => Err(e)
      case Ok(to) =>
        if from.0 != to.0 then Err(CrossChromosome)
        else
          var chrom := "chr" + from.0;
          match ParseNat(from.1)
          case None => Err(BadCoordinate)
          case Some(start) =>
            match ParseNat(to.1)
            case None => Err(BadCoordinate)
            case Some(end) =>
              if !(start < end) then Err(InvertedRange)
              else
                match Load(files, chrom, start, end)
                case Err(e) => Err(e)
                case Ok(merged) =>
                  match Get(merged, chrom)
                  case None => Err(MissingChromosome)
                  case Some(data) => Expand(data, start, end)
  }

  /** The first undecodable key ends the expansion: once a prefix fails, the whole
      mapping fails with the same error. */
  lemma {:induction false} ExpandStopsAtError(data: Dict<string>, k: nat, start: nat, end: nat)
    requires k <= |data|
    requires Expand(data[..k], start, end).Err?
    ensures Expand(data, start, end) == Expand(data[..k], start, end)
    decreases |data| - k
  {
    if k < |data| {
      var prefix := data[..|data| - 1];
      assert prefix[..k] == data[..k];
      ExpandStopsAtError(prefix, k, start, end);
    } else {
      assert data[..k] == data;
    }
  }

  /** dnase_finder, with the shard files given as they are found on disk. */
  method DnaseFinder(posFrom: string, posTo: string, files: seq<ShardFile>) returns (r: Result<seq<string>>)
    ensures r == Find(posFrom, posTo, files)
  {
    var from := SplitPosition(posFrom);
    if from.Err? {
      return Err(from.error);
    }
    var to := SplitPosition(posTo);
    if to.Err? {
      return Err(to.error);
    }
    if from.value.0 != to.value.0 {
      return Err(CrossChromosome);
    }
    var chrom := "chr" + from.value.0;
    var startValue := ParseNat(from.value.1);
    if startValue.None? {
      return Err(BadCoordinate);
    }
    var endValue := ParseNat(to.value.1);
    if endValue.None? {
      return Err(BadCoordinate);
    }
    var start, end := startValue.value, endValue.value;
    if !(start < end) {
      return Err(InvertedRange);
    }
    var loaded := LoadData(files, chrom, start, end);
    if loaded.Err? {
      return Err(loaded.error);
    }
    var found := Get(loaded.value, chrom);
    if found.None? {
      return Err(MissingChromosome);
    }
    r := ExpandData(found.value, start, end);
  }

  /** dnase_finder's loop over the chromosome's mapping, `for key, value in data.items()`. */
  method ExpandData(data: Dict<string>, start: nat, end: nat) returns (r: Result<seq<string>>)
    ensures r == Expand(data, start, end)
  {
    var res: seq<string> := [];
    for i := 0 to |data|
      invariant Expand(data[..i], start, end) == Ok(res)
    {
      assert data[..i + 1][..i] == data[..i];
      var key, value := data[i].0, data[i].1;
      var bounds := DecodeKey(key);
      if bounds.Err? {
        ExpandStopsAtError(data, i + 1, start, end);
        return Err(bounds.error);
      }
      var ks, ke := bounds.value.0, bounds.value.1;
      ghost var before := res;
      res := AppendBlock(res, value, ks, ke, start, end);
      assert Block(data[i], start, end) == Ok(Repeat(value, StartCount(ks, ke, start, end)) + Repeat(value, EndCount(ks, ke, end)));
    }
    assert data[..|data|] == data;
    return Ok(res);
  }

  /** The body of that loop for one interval [ks, ke) holding value: the start test's
      loop and then the end test's loop, each appending copies of value. */
  method AppendBlock(res: seq<string>, value: string, ks: nat, ke: nat, start: nat, end: nat) returns (r: seq<string>)
    ensures r == res + (Repeat(value, StartCount(ks, ke, start, end)) + Repeat(value, EndCount(ks, ke, end)))
  {
    r := res;
    if ks <= start < ke {
      for i := 0 to ke - start
        invariant r == res + Repeat(value, if i < end - start then i else if end <= start then 0 else end - start)
      {
        if i < end - start {
          r := r + [value];
        }
      }
    }
    ghost var middle := r;
    assert middle == res + Repeat(value, StartCount(ks, ke, start, end));
    if ks <= end <= ke {
      for i := 0 to end - ks
        invariant r == middle + Repeat(value, i)
      {
        r := r + [value];
      }
    }
  }

  /** Two partial answers in sequence: the first error wins, otherwise the values are
      concatenated. */
  function Then(x: Result<seq<string>>, y: Result<seq<string>>): Result<seq<string>> {
    match x
    case Err(e) => Err(e)
    case Ok(u) =>
      match y
      case Err(e) => Err(e)
      case Ok(v) => Ok(u + v)
  }

  lemma ThenAssociative(x: Result<seq<string>>, y: Result<seq<string>>, z: Result<seq<string>>)
    ensures Then(Then(x, y), z) == Then(x, Then(y, z))
  {
    if x.Ok? && y.Ok? && z.Ok? {
      assert (x.value + y.value) + z.value == x.value + (y.value + z.value);
    }
  }

  /** Expanding a mapping with one more item appends that item's block. */
  lemma ExpandSnoc(d: Dict<string>, item: (string, string), start: nat, end: nat)
    ensures Expand(d + [item], start, end) == Then(Expand(d, start, end), Block(item, start, end))
  {
    assert (d + [item])[..|d|] == d;
  }

  /** Expanding a mapping made of two runs of items expands each run and concatenates,
      and the first undecodable key in either run ends the expansion. */
  lemma {:induction false} ExpandAppend(a: Dict<string>, b: Dict<string>, start: nat, end: nat)
    ensures Expand(a + b, start, end) == Then(Expand(a, start, end), Expand(b, start, end))
    decreases |b|
  {
    if |b| == 0 {
      assert a + b == a;
      if Expand(a, start, end).Ok? {
        assert Expand(a, start, end).value + [] == Expand(a, start, end).value;
      }
    } else {
      var b' := b[..|b| - 1];
      var last := b[|b| - 1];
      assert b == b' + [last];
      assert a + b == (a + b') + [last];
      ExpandAppend(a, b', start, end);
      ExpandSnoc(a + b', last, start, end);
      ExpandSnoc(b', last, start, end);
      ThenAssociative(Expand(a, start, end), Expand(b', start, end), Block(last, start, end));
    }
  }

  /** A mapping of one item expands into that item's block. */
  lemma ExpandOne(item: (string, string), start: nat, end: nat)
    ensures Expand([item], start, end) == Block(item, start, end)
  {
    assert [item][..0] == [];
    if Block(item, start, end).Ok? {
      assert [] + Block(item, start, end).value == Block(item, start, end).value;
    }
  }

  /** Runs of one value join into a longer run. */
  lemma RepeatJoin(v: string, m: nat, n: nat)
    ensures Repeat(v, m) + Repeat(v, n) == Repeat(v, m + n)
  {
  }

  /** Every value in the answer is the value of some item of the mapping. */
  lemma {:induction false} ExpandValues(data: Dict<string>, start: nat, end: nat)
    requires Expand(data, start, end).Ok?
    ensures forall k :: 0 <= k < |Expand(data, start, end).value| ==>
              exists i :: 0 <= i < |data| && data[i].1 == Expand(data, start, end).value[k]
    decreases |data|
  {
    if |data| > 0 {
      var prefix := data[..|data| - 1];
      ExpandValues(prefix, start, end);
      var prev := Expand(prefix, start, end).value;
      var r := Expand(data, start, end).value;
      forall k | 0 <= k < |r|
        ensures exists i :: 0 <= i < |data| && data[i].1 == r[k]
      {
        if k < |prev| {
          var i :| 0 <= i < |prefix| && prefix[i].1 == prev[k];
          assert data[i] == prefix[i];
        } else {
          assert r[k] == data[|data| - 1].1;
        }
      }
    }
  }

  /** Positions [a1, b1) and [a2, b2) have this many positions in common. */
  function Overlap(a1: nat, b1: nat, a2: nat, b2: nat): nat {
    var lo := if a1 < a2 then a2 else a1;
    var hi := if b1 < b2 then b1 else b2;
    if lo < hi then hi - lo else 0
  }

  /** The start block of an interval that begins at or before the query start holds one
      value per position the interval shares with [start, end). */
  lemma StartBlockIsOverlap(ks: nat, ke: nat, start: nat, end: nat)
    requires start < end
    ensures StartCount(ks, ke, start, end) == if ks <= start then Overlap(ks, ke, start, end) else 0
  {
  }

  /** The end block of an interval holding the query end also counts the interval's
      positions before the query start: it exceeds the shared positions by exactly those. */
  lemma EndBlockExceedsOverlap(ks: nat, ke: nat, start: nat, end: nat)
    requires start < end && ks <= end <= ke
    ensures EndCount(ks, ke, end) == Overlap(ks, ke, start, end) + (if ks < start then start - ks else 0)
  {
  }

  /** An interval that holds neither the query start nor the query end contributes
      nothing: not only one outside the query, but also one lying strictly inside it,
      whose positions are then missing from the answer. */
  lemma SilentInterval(ks: nat, ke: nat, v: string, start: nat, end: nat)
    requires start < end && !(ks <= start < ke) && !(ks <= end <= ke)
    ensures Block((IntervalKey(NatToString(ks), NatToString(ke)), v), start, end) == Ok([])
  {
    IntervalKeyRoundTrip(ks, ke);
    assert Repeat(v, 0) + Repeat(v, 0) == [];
  }

  /** The mapping of three adjacent intervals [ks, m1) holding a, [m1, m2) holding b and
      [m2, ke) holding c. */
  function ThreeIntervals(ks: nat, m1: nat, m2: nat, ke: nat, a: string, b: string, c: string): Dict<string> {
    [(IntervalKey(NatToString(ks), NatToString(m1)), a),
     (IntervalKey(NatToString(m1), NatToString(m2)), b),
     (IntervalKey(NatToString(m2), NatToString(ke)), c)]
  }

  /** A query whose start lies in the first of three adjacent intervals and whose end
      lies in the third gets nothing for the middle interval: its m2 - m1 positions are
      missing, so the answer is shorter than the query, and b, when it differs from a
      and c, does not occur in it at all. */
  lemma {:induction false} InteriorIntervalLost(ks: nat, m1: nat, m2: nat, ke: nat, a: string, b: string, c: string, start: nat, end: nat)
    requires ks <= start < m1 < m2 < end <= ke
    ensures Expand(ThreeIntervals(ks, m1, m2, ke, a, b, c), start, end)
            == Ok(Repeat(a, m1 - start) + Repeat(c, end - m2))
    ensures |Expand(ThreeIntervals(ks, m1, m2, ke, a, b, c), start, end).value| == (end - start) - (m2 - m1)
    ensures b != a && b != c ==> b !in Expand(ThreeIntervals(ks, m1, m2, ke, a, b, c), start, end).value
  {
    var k1 := IntervalKey(NatToString(ks), NatToString(m1));
    var k2 := IntervalKey(NatToString(m1), NatToString(m2));
    var k3 := IntervalKey(NatToString(m2), NatToString(ke));
    IntervalKeyRoundTrip(ks, m1);
    IntervalKeyRoundTrip(m2, ke);
    ExpandOne((k1, a), start, end);
    ExpandOne((k2, b), start, end);
    ExpandOne((k3, c), start, end);
    SilentInterval(m1, m2, b, start, end);
    assert Block((k1, a), start, end) == Ok(Repeat(a, m1 - start) + []);
    assert Block((k3, c), start, end) == Ok([] + Repeat(c, end - m2));
    assert Repeat(a, m1 - start) + [] == Repeat(a, m1 - start);
    assert [] + Repeat(c, end - m2) == Repeat(c, end - m2);
    assert ThreeIntervals(ks, m1, m2, ke, a, b, c) == ([(k1, a)] + [(k2, b)]) + [(k3, c)];
    ExpandAppend([(k1, a)], [(k2, b)], start, end);
    assert Repeat(a, m1 - start) + [] == Repeat(a, m1 - start);
    ExpandAppend([(k1, a)] + [(k2, b)], [(k3, c)], start, end);
  }

  /** A query inside a single interval gets the interval's value end - start times for
      the start test and end - ks times more for the end test. */
  lemma CoveringInterval(ks: nat, ke: nat, v: string, start: nat, end: nat)
    requires ks <= start < end <= ke
    ensures var key := IntervalKey(NatToString(ks), NatToString(ke));
            Expand([(key, v)], start, end) == Ok(Repeat(v, (end - start) + (end - ks)))
            && end - start < |Expand([(key, v)], start, end).value|
  {
    var key := IntervalKey(NatToString(ks), NatToString(ke));
    IntervalKeyRoundTrip(ks, ke);
    ExpandOne((key, v), start, end);
    assert StartCount(ks, ke, start, end) == end - start;
    RepeatJoin(v, end - start, end - ks);
  }

  /** The mapping of two adjacent intervals [ks, mid) holding v1 and [mid, ke) holding v2. */
  function AdjacentData(ks: nat, mid: nat, ke: nat, v1: string, v2: string): Dict<string> {
    [(IntervalKey(NatToString(ks), NatToString(mid)), v1),
     (IntervalKey(NatToString(mid), NatToString(ke)), v2)]
  }

  /** Two adjacent intervals, the first holding the query start and the second the query
      end (past the first), give one value per query position: the first value for the
      positions before the boundary, the second for the rest. */
  lemma AdjacentIntervals(ks: nat, mid: nat, ke: nat, v1: string, v2: string, start: nat, end: nat)
    requires ks <= start < mid < end <= ke
    ensures Expand(AdjacentData(ks, mid, ke, v1, v2), start, end)
            == Ok(Repeat(v1, mid - start) + Repeat(v2, end - mid))
  {
    var k1 := IntervalKey(NatToString(ks), NatToString(mid));
    var k2 := IntervalKey(NatToString(mid), NatToString(ke));
    IntervalKeyRoundTrip(ks, mid);
    IntervalKeyRoundTrip(mid, ke);
    ExpandOne((k1, v1), start, end);
    ExpandOne((k2, v2), start, end);
    assert Block((k1, v1), start, end) == Ok(Repeat(v1, mid - start) + []);
    assert Block((k2, v2), start, end) == Ok([] + Repeat(v2, end - mid));
    assert Repeat(v1, mid - start) + [] == Repeat(v1, mid - start);
    assert [] + Repeat(v2, end - mid) == Repeat(v2, end - mid);
    assert AdjacentData(ks, mid, ke, v1, v2) == [(k1, v1)] + [(k2, v2)];
    ExpandAppend([(k1, v1)], [(k2, v2)], start, end);
  }

  /** The shard contents behind the query "1:10180" to "1:10190": the interval
      10180-10182 holds 0.24601 and the interval 10182-10190 holds 0. */
  function SampleIntervals(): Dict<string> {
    AdjacentData(10180, 10182, 10190, "0.24601", "0")
  }

  /** The shard that holds them, under chromosome "chr1". */
  function SampleShard(): Shard {
    [("chr1", SampleIntervals())]
  }

  /** A well-formed query on one chromosome passes every check and answers the expansion
      of that chromosome's merged mapping; a missing chromosome is an error. */
  lemma FindWellFormed(c: string, start: nat, end: nat, files: seq<ShardFile>)
    requires ':' !in c && start < end
    ensures Find(c + ":" + NatToString(start), c + ":" + NatToString(end), files)
            == match Load(files, "chr" + c, start, end)
               case Err(e) => Err(e)
               case Ok(merged) =>
                 match Get(merged, "chr" + c)
                 case None => Err(MissingChromosome)
                 case Some(data) => Expand(data, start, end)
  {
    PositionSplits(c, start);
    PositionSplits(c, end);
    ParseNatToString(start);
    ParseNatToString(end);
  }

  /** "c:n" splits into c and the digits of n. */
  lemma PositionSplits(c: string, n: nat)
    requires ':' !in c
    ensures SplitPosition(c + ":" + NatToString(n)) == Ok((c, NatToString(n)))
  {
    assert c + ":" + NatToString(n) == c + [':'] + NatToString(n);
    SplitConcat(c, NatToString(n), ':');
    SplitNoSeparator(c, ':');
    DigitsHaveNoSeparators(NatToString(n));
    SplitNoSeparator(NatToString(n), ':');
  }

  /** Endpoints on two different chromosomes are refused before anything is loaded. */
  lemma CrossChromosomeRefused(c1: string, c2: string, start: nat, end: nat, files: seq<ShardFile>)
    requires ':' !in c1 && ':' !in c2 && c1 != c2
    ensures Find(c1 + ":" + NatToString(start), c2 + ":" + NatToString(end), files) == Err(CrossChromosome)
  {
    PositionSplits(c1, start);
    PositionSplits(c2, end);
  }

  /** A query whose start is not below its end is refused before anything is loaded. */
  lemma InvertedRangeRefused(c: string, start: nat, end: nat, files: seq<ShardFile>)
    requires ':' !in c && end <= start
    ensures Find(c + ":" + NatToString(start), c + ":" + NatToString(end), files) == Err(InvertedRange)
  {
    PositionSplits(c, start);
    PositionSplits(c, end);
    ParseNatToString(start);
    ParseNatToString(end);
  }

  /** A start endpoint that does not split at ':' into exactly two parts (none, or two
      or more colons) is refused before anything else is looked at. */
  lemma MalformedPositionRefused(posFrom: string, posTo: string, files: seq<ShardFile>)
    requires |Split(posFrom, ':')| != 2
    ensures Find(posFrom, posTo, files) == Err(MalformedPosition)
  {
  }

  /** An end endpoint that does not split at ':' into exactly two parts is refused,
      even after a well-formed start endpoint. */
  lemma MalformedEndRefused(c: string, n: nat, posTo: string, files: seq<ShardFile>)
    requires ':' !in c && |Split(posTo, ':')| != 2
    ensures Find(c + ":" + NatToString(n), posTo, files) == Err(MalformedPosition)
  {
    PositionSplits(c, n);
  }

  /** The start endpoint "c" (no colon) and the end endpoint "c:n:m" (two colons) are
      both refused. */
  lemma MalformedPositionExamples(c: string, n: nat, m: nat, files: seq<ShardFile>)
    requires ':' !in c
    ensures Find(c, c + ":" + NatToString(n), files) == Err(MalformedPosition)
    ensures Find(c + ":" + NatToString(n), c + ":" + NatToString(n) + ":" + NatToString(m), files)
            == Err(MalformedPosition)
  {
    SplitNoSeparator(c, ':');
    var posTo := c + ":" + NatToString(n) + ":" + NatToString(m);
    assert posTo == (c + ":" + NatToString(n)) + [':'] + NatToString(m);
    SplitConcat(c + ":" + NatToString(n), NatToString(m), ':');
    PositionSplits(c, n);
    MalformedEndRefused(c, n, posTo, files);
  }

  /** A well-formed query answered from a single shard written for its chromosome:
      the answer is the expansion of that chromosome's mapping in the shard. */
  lemma {:induction false} QueryOneShard(c: string, lo: nat, hi: nat, content: Shard, start: nat, end: nat)
    requires NameSafe(c) && ':' !in c && Valid(content)
    requires start < end && (lo <= start <= hi || lo <= end <= hi)
    ensures Find(c + ":" + NatToString(start), c + ":" + NatToString(end),
                 [ShardFile(ShardFileName(c, lo, hi), content)])
            == match Get(content, "chr" + c)
               case None => Err(MissingChromosome)
               case Some(data) => Expand(data, start, end)
  {
    var files := [ShardFile(ShardFileName(c, lo, hi), content)];
    FindWellFormed(c, start, end, files);
    ShardOfChromosomeLoaded([], c, lo, hi, content, start, end);
    assert files[..0] == [];
    assert Load(files, "chr" + c, start, end) == Ok(Update([], content));
    UpdateGet([], content, "chr" + c);
  }

  /** The whole query "1:10180" to "1:10190" over one shard of chromosome 1 that
      covers both endpoints and holds the sample intervals. */
  lemma SampleFind()
    ensures var files := [ShardFile(ShardFileName("1", 10000, 20000), SampleShard())];
            Find("1" + ":" + NatToString(10180), "1" + ":" + NatToString(10190), files)
            == Ok(Repeat("0.24601", 2) + Repeat("0", 8))
  {
    assert Valid(SampleShard());
    assert "chr" + "1" == "chr1";
    assert Get(SampleShard(), "chr" + "1") == Some(SampleIntervals());
    QueryOneShard("1", 10000, 20000, SampleShard(), 10180, 10190);
    AdjacentIntervals(10180, 10182, 10190, "0.24601", "0", 10180, 10190);
  }
}
