/** The few Python string operations dnase.py relies on: str.strip, str.split with a
    one-character separator, `in` on strings, str.replace("chr", ""), str() of a
    non-negative int and int() of a digit string. */
module Text {
  import opened Results

  /** The characters Python's str.isspace() accepts, which str.strip() removes. */
  predicate IsWhitespace(c: char) {
    c == ' ' || c == '\t' || c == '\n' || c == '\r' || c == '\U{B}' || c == '\U{C}'
    || ('\U{1C}' <= c <= '\U{1F}') || c == '\U{85}' || c == '\U{A0}' || c == '\U{1680}'
    || ('\U{2000}' <= c <= '\U{200A}') || c == '\U{2028}' || c == '\U{2029}'
    || c == '\U{202F}' || c == '\U{205F}' || c == '\U{3000}'
  }

  /** Leading whitespace removed. */
  function StripLeft(s: string): string {
    if |s| > 0 && IsWhitespace(s[0]) then StripLeft(s[1..]) else s
  }

  /** Trailing whitespace removed. */
  function StripRight(s: string): string {
    if |s| > 0 && IsWhitespace(s[|s| - 1]) then StripRight(s[..|s| - 1]) else s
  }

  /** StripLeft keeps the longest suffix that does not start with whitespace. */
  lemma {:induction false} StripLeftKeeps(s: string)
    ensures var r := StripLeft(s);
            |r| <= |s| && r == s[|s| - |r|..] &&
            (forall i :: 0 <= i < |s| - |r| ==> IsWhitespace(s[i])) &&
            (|r| > 0 ==> !IsWhitespace(r[0]))
  {
    if |s| > 0 && IsWhitespace(s[0]) {
      StripLeftKeeps(s[1..]);
    }
  }

  /** StripRight keeps the longest prefix that does not end with whitespace. */
  lemma {:induction false} StripRightKeeps(s: string)
    ensures var r := StripRight(s);
            |r| <= |s| && r == s[..|r|] &&
            (forall i :: |r| <= i < |s| ==> IsWhitespace(s[i])) &&
            (|r| > 0 ==> !IsWhitespace(r[|r| - 1]))
  {
    if |s| > 0 && IsWhitespace(s[|s| - 1]) {
      StripRightKeeps(s[..|s| - 1]);
    }
  }

  /** Stripping the right end removes exactly a trailing run of whitespace. */
  lemma {:induction false} StripRightTrailing(x: string, ws: string)
    requires |x| > 0 && !IsWhitespace(x[|x| - 1])
    requires forall i :: 0 <= i < |ws| ==> IsWhitespace(ws[i])
    ensures StripRight(x + ws) == x
  {
    if |ws| > 0 {
      assert (x + ws)[..|x + ws| - 1] == x + ws[..|ws| - 1];
      StripRightTrailing(x, ws[..|ws| - 1]);
    } else {
      assert x + ws == x;
    }
  }

  /** Python's s.strip(). */
  function Strip(s: string): string {
    StripRight(StripLeft(s))
  }

  /** Python's sep.join(parts), the inverse of Split. */
  function Join(parts: seq<string>, sep: char): string
    requires |parts| >= 1
  {
    if |parts| == 1 then parts[0] else parts[0] + [sep] + Join(parts[1..], sep)
  }

  /** Python's s.split(sep) for a one-character separator: always at least one piece. */
  function Split(s: string, sep: char): (r: seq<string>)
    ensures |r| >= 1
  {
    if |s| == 0 then [""]
    else
      var rest := Split(s[1..], sep);
      if s[0] == sep then [""] + rest else [[s[0]] + rest[0]] + rest[1..]
  }

  /** No piece holds the separator. */
  lemma {:induction false} SplitPieces(s: string, sep: char)
    ensures forall i :: 0 <= i < |Split(s, sep)| ==> sep !in Split(s, sep)[i]
  {
    if |s| > 0 {
      SplitPieces(s[1..], sep);
    }
  }

  /** Every character of a piece is a character of the string split. */
  lemma {:induction false} SplitChars(s: string, sep: char)
    ensures forall i, ch :: 0 <= i < |Split(s, sep)| && ch in Split(s, sep)[i] ==> ch in s
  {
    if |s| > 0 {
      SplitChars(s[1..], sep);
      var rest := Split(s[1..], sep);
      forall i, ch | 0 <= i < |Split(s, sep)| && ch in Split(s, sep)[i]
        ensures ch in s
      {
        if s[0] != sep && i == 0 {
          assert Split(s, sep)[0] == [s[0]] + rest[0];
          assert ch == s[0] || ch in rest[0];
        } else if s[0] != sep {
          assert Split(s, sep)[i] == rest[i];
        } else if i > 0 {
          assert Split(s, sep)[i] == rest[i - 1];
        }
        assert ch in s[1..] ==> ch in s;
      }
    }
  }

  /** Python's parts[-1]. */
  function Last(parts: seq<string>): string
    requires |parts| >= 1
  {
    parts[|parts| - 1]
  }

  /** Joining the pieces back with the separator gives the original string. */
  lemma {:induction false} JoinSplit(s: string, sep: char)
    ensures Join(Split(s, sep), sep) == s
  {
    if |s| > 0 {
      var rest := Split(s[1..], sep);
      JoinSplit(s[1..], sep);
      if s[0] == sep {
        assert ([""] + rest)[1..] == rest;
      } else {
        var r := Split(s, sep);
        assert r[1..] == rest[1..];
        if |rest| > 1 {
          assert rest == [rest[0]] + rest[1..];
          assert Join(rest, sep) == rest[0] + [sep] + Join(rest[1..], sep);
        }
      }
    }
  }

  /** Splitting at a separator between two strings splits each side on its own. */
  lemma {:induction false} SplitConcat(a: string, b: string, sep: char)
    ensures Split(a + [sep] + b, sep) == Split(a, sep) + Split(b, sep)
  {
    var right := Split(b, sep);
    if |a| == 0 {
      assert a + [sep] + b == [sep] + b;
      SplitCons(sep, b, sep);
    } else {
      var c, a' := a[0], a[1..];
      var t := a' + [sep] + b;
      assert a + [sep] + b == [c] + t;
      assert a == [c] + a';
      SplitConcat(a', b, sep);
      SplitCons(c, t, sep);
      SplitCons(c, a', sep);
      ConsPieces(c, Split(a', sep), right, sep);
    }
  }

  /** The piece-list algebra behind SplitConcat: putting c in front of the pieces of
      left + right is putting it in front of left's pieces, then appending right. */
  lemma ConsPieces(c: char, left: seq<string>, right: seq<string>, sep: char)
    requires |left| >= 1
    ensures (if c == sep then [""] + (left + right) else [[c] + (left + right)[0]] + (left + right)[1..])
            == (if c == sep then [""] + left else [[c] + left[0]] + left[1..]) + right
  {
    if c == sep {
      assert [""] + (left + right) == ([""] + left) + right;
    } else {
      var head := [c] + left[0];
      assert (left + right)[0] == left[0];
      assert (left + right)[1..] == left[1..] + right;
      assert [head] + (left[1..] + right) == ([head] + left[1..]) + right;
    }
  }

  /** Splitting a string by its first character. */
  lemma SplitCons(c: char, t: string, sep: char)
    ensures Split([c] + t, sep)
            == if c == sep then [""] + Split(t, sep) else [[c] + Split(t, sep)[0]] + Split(t, sep)[1..]
  {
    assert ([c] + t)[0] == c && ([c] + t)[1..] == t;
  }

  /** A string without the separator is a single piece. */
  lemma {:induction false} SplitNoSeparator(s: string, sep: char)
    requires sep !in s
    ensures Split(s, sep) == [s]
  {
    if |s| > 0 {
      SplitNoSeparator(s[1..], sep);
      assert [s[0]] + s[1..] == s;
    }
  }

  /** Splitting a join of separator-free pieces gives back exactly those pieces. */
  lemma {:induction false} SplitJoin(parts: seq<string>, sep: char)
    requires |parts| >= 1
    requires forall i :: 0 <= i < |parts| ==> sep !in parts[i]
    ensures Split(Join(parts, sep), sep) == parts
  {
    SplitNoSeparator(parts[0], sep);
    if |parts| > 1 {
      SplitJoin(parts[1..], sep);
      SplitConcat(parts[0], Join(parts[1..], sep), sep);
      assert [parts[0]] + parts[1..] == parts;
    }
  }

  /** A string holding the separator splits into at least two pieces. */
  lemma SplitSeparated(s: string, sep: char)
    requires sep in s
    ensures |Split(s, sep)| >= 2
  {
    var i :| 0 <= i < |s| && s[i] == sep;
    assert s == s[..i] + [sep] + s[i + 1..];
    SplitConcat(s[..i], s[i + 1..], sep);
  }

  /** The last piece is whatever follows the last separator. */
  lemma SplitLast(a: string, b: string, sep: char)
    requires sep !in b
    ensures Last(Split(a + [sep] + b, sep)) == b
  {
    SplitConcat(a, b, sep);
    SplitNoSeparator(b, sep);
  }

  predicate IsPrefix(p: string, s: string) {
    |p| <= |s| && s[..|p|] == p
  }

  /** Python's `needle in hay` on strings. */
  predicate IsSubstring(needle: string, hay: string)
    decreases |hay|
  {
    IsPrefix(needle, hay) || (|hay| > 0 && IsSubstring(needle, hay[1..]))
  }

  /** The needle sits in the haystack at offset i. */
  predicate OccursAt(needle: string, hay: string, i: int) {
    0 <= i <= |hay| - |needle| && hay[i..i + |needle|] == needle
  }

  /** `in` holds exactly when the needle occurs at some offset of the haystack. */
  lemma {:induction false} IsSubstringAt(needle: string, hay: string)
    ensures IsSubstring(needle, hay) <==> exists i :: OccursAt(needle, hay, i)
  {
    if IsPrefix(needle, hay) {
      assert OccursAt(needle, hay, 0);
    } else if |hay| > 0 {
      IsSubstringAt(needle, hay[1..]);
      if IsSubstring(needle, hay[1..]) {
        var i :| OccursAt(needle, hay[1..], i);
        assert hay[i + 1..i + 1 + |needle|] == hay[1..][i..i + |needle|];
        assert OccursAt(needle, hay, i + 1);
      }
      if exists i :: OccursAt(needle, hay, i) {
        var i :| OccursAt(needle, hay, i);
        assert i != 0;
        assert hay[1..][i - 1..i - 1 + |needle|] == hay[i..i + |needle|];
        assert OccursAt(needle, hay[1..], i - 1);
      }
    }
  }

  /** Python's s.replace("chr", ""): occurrences are found left to right, without
      overlap, and dropped; the result is not re-scanned. */
  function RemoveChr(s: string): (r: string)
    ensures |r| <= |s|
    ensures forall ch :: ch in r ==> ch in s
  {
    if IsPrefix("chr", s) then RemoveChr(s[3..])
    else if |s| == 0 then ""
    else [s[0]] + RemoveChr(s[1..])
  }

  /** A string with no "chr" in it is left as it is. */
  lemma {:induction false} RemoveChrAbsent(s: string)
    requires !IsSubstring("chr", s)
    ensures RemoveChr(s) == s
  {
    if |s| > 0 {
      RemoveChrAbsent(s[1..]);
      assert [s[0]] + s[1..] == s;
    }
  }

  /** A "chr"-prefixed chromosome name loses exactly its prefix. */
  lemma RemoveChrPrefix(c: string)
    requires !IsSubstring("chr", c)
    ensures RemoveChr("chr" + c) == c
  {
    assert ("chr" + c)[..3] == "chr";
    assert ("chr" + c)[3..] == c;
    RemoveChrAbsent(c);
  }

  predicate IsDigit(ch: char) {
    '0' <= ch <= '9'
  }

  predicate AllDigits(s: string) {
    forall i :: 0 <= i < |s| ==> IsDigit(s[i])
  }

  function DigitChar(d: nat): (ch: char)
    requires d < 10
  {
    ('0' as int + d) as char
  }

  function DigitValue(ch: char): nat
    requires IsDigit(ch)
  {
    ch as int - '0' as int
  }

  /** Python's str(n) for a non-negative int: decimal digits without leading zeros. */
  function NatToString(n: nat): (r: string)
    ensures |r| >= 1 && AllDigits(r)
    ensures r[0] == '0' ==> n == 0
  {
    if n < 10 then [DigitChar(n)] else NatToString(n / 10) + [DigitChar(n % 10)]
  }

  function DigitsValue(s: string): nat
    requires AllDigits(s)
  {
    if |s| == 0 then 0 else DigitsValue(s[..|s| - 1]) * 10 + DigitValue(s[|s| - 1])
  }

  /** Python's int(s), for the strings of ASCII digits; anything else raises ValueError. */
  function ParseNat(s: string): (r: Option<nat>)
    ensures r.Some? <==> |s| > 0 && AllDigits(s)
  {
    if |s| > 0 && AllDigits(s) then Some(DigitsValue(s)) else None
  }

  /** int(str(n)) == n. */
  lemma {:induction false} ParseNatToString(n: nat)
    ensures ParseNat(NatToString(n)) == Some(n)
  {
    var s := NatToString(n);
    if n < 10 {
      assert s == [DigitChar(n)];
      assert s[..0] == "";
      assert DigitValue(s[0]) == n;
      assert DigitsValue(s) == DigitsValue(s[..0]) * 10 + DigitValue(s[0]);
      assert DigitsValue(s) == n;
      assert |s| > 0 && AllDigits(s);
    } else {
      ParseNatToString(n / 10);
      assert s[..|s| - 1] == NatToString(n / 10);
      assert DigitValue(s[|s| - 1]) == n % 10;
    }
  }

  /** A decimal rendering holds none of the separators the shard names use. */
  lemma DigitsHaveNoSeparators(s: string)
    requires AllDigits(s)
    ensures '_' !in s && '.' !in s && '-' !in s && ':' !in s
  {
  }
}
