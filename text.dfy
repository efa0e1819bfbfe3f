/** The .NET string operations that SubtitleManager relies on, stated over
    `string` (= `seq<char>`): String.Trim, StartsWith/EndsWith, Replace with an
    empty replacement, Split on one character, and Int32.Parse. */
module Text {

  datatype Option<+T> = None | Some(value: T)

  /** What Int32.Parse yields: the number, or the exception it throws. */
  datatype ParsedInt = Int(value: int) | Throws

  /** The characters for which Char.IsWhiteSpace holds; String.Trim() strips these. */
  const WhiteSpace: set<char> :=
    {'\t', '\n', '\U{000B}', '\U{000C}', '\r', ' ', '\U{0085}', '\U{00A0}', '\U{1680}',
     '\U{2000}', '\U{2001}', '\U{2002}', '\U{2003}', '\U{2004}', '\U{2005}', '\U{2006}',
     '\U{2007}', '\U{2008}', '\U{2009}', '\U{200A}', '\U{2028}', '\U{2029}', '\U{202F}',
     '\U{205F}', '\U{3000}'}

  /** The characters Int32.Parse (NumberStyles.Integer) skips before and after a number. */
  const NumberWhiteSpace: set<char> := {'\t', '\n', '\U{000B}', '\U{000C}', '\r', ' '}

  const MinInt32: int := -0x8000_0000
  const MaxInt32: int := 0x7FFF_FFFF

  // ---------------------------------------------------------------------------
  // Trimming

  /** Drops the leading characters that belong to `ws`. */
  function TrimStart(s: string, ws: set<char>): (r: string)
    ensures |r| <= |s| && r == s[|s| - |r|..]
    ensures forall k :: 0 <= k < |s| - |r| ==> s[k] in ws
    ensures r == [] || r[0] !in ws
    decreases |s|
  {
    if |s| > 0 && s[0] in ws then TrimStart(s[1..], ws) else s
  }

  /** Drops the trailing characters that belong to `ws`. */
  function TrimEnd(s: string, ws: set<char>): (r: string)
    ensures |r| <= |s| && r == s[..|r|]
    ensures forall k :: |r| <= k < |s| ==> s[k] in ws
    ensures r == [] || r[|r| - 1] !in ws
    decreases |s|
  {
    if |s| > 0 && s[|s| - 1] in ws then TrimEnd(s[..|s| - 1], ws) else s
  }

  /** Drops the characters of `ws` at both ends: what is left is a slice of `s`
      that neither starts nor ends with one of them. */
  function Strip(s: string, ws: set<char>): (r: string)
    ensures r == [] || (r[0] !in ws && r[|r| - 1] !in ws)
  {
    var t := TrimStart(s, ws);
    var r := TrimEnd(t, ws);
    assert r == [] || r[0] == t[0];
    r
  }

  /** What Strip removes: characters of `ws` before and after the slice it keeps. */
  lemma StripKeepsSlice(s: string, ws: set<char>) returns (i: int)
    ensures 0 <= i && i + |Strip(s, ws)| <= |s| && Strip(s, ws) == s[i..i + |Strip(s, ws)|]
    ensures forall k :: 0 <= k < i ==> s[k] in ws
    ensures forall k :: i + |Strip(s, ws)| <= k < |s| ==> s[k] in ws
  {
    var t := TrimStart(s, ws);
    var r := TrimEnd(t, ws);
    assert Strip(s, ws) == r;
    i := |s| - |t|;
    SliceOfSlice(s, t, r, i);
    forall k | i + |r| <= k < |s|
      ensures s[k] in ws
    {
      assert s[k] == t[k - i];
    }
  }

  /** A prefix of a suffix is a slice. */
  lemma SliceOfSlice<T>(s: seq<T>, t: seq<T>, r: seq<T>, i: int)
    requires 0 <= i <= |s| && t == s[i..]
    requires |r| <= |t| && r == t[..|r|]
    ensures r == s[i..i + |r|]
    ensures forall k :: i <= k < |s| ==> s[k] == t[k - i]
  {
  }

  /** String.Trim(). */
  function Trim(s: string): string
  {
    Strip(s, WhiteSpace)
  }

  /** Stripping twice strips nothing more. */
  lemma StripIdempotent(s: string, ws: set<char>)
    ensures Strip(Strip(s, ws), ws) == Strip(s, ws)
  {
    StripUnchanged(Strip(s, ws), ws);
  }

  /** A string that neither starts nor ends with a character of `ws` is left as it is. */
  lemma StripUnchanged(s: string, ws: set<char>)
    requires s == [] || (s[0] !in ws && s[|s| - 1] !in ws)
    ensures Strip(s, ws) == s
  {
  }

  // ---------------------------------------------------------------------------
  // Prefixes, suffixes and occurrences (ordinal comparison)

  predicate StartsWith(s: string, prefix: string)
  {
    |prefix| <= |s| && s[..|prefix|] == prefix
  }

  predicate EndsWith(s: string, suffix: string)
  {
    |suffix| <= |s| && s[|s| - |suffix|..] == suffix
  }

  /** `pat` occurs somewhere in `s`. */
  predicate Contains(s: string, pat: string)
    decreases |s|
  {
    |pat| <= |s| && (StartsWith(s, pat) || Contains(s[1..], pat))
  }

  /** A pattern whose first character does not occur cannot occur. */
  lemma {:induction false} NotContainsWithoutHead(s: string, pat: string)
    requires pat != [] && pat[0] !in s
    ensures !Contains(s, pat)
    decreases |s|
  {
    if |pat| <= |s| {
      assert s[..|pat|][0] == s[0];
      assert pat[0] !in s[1..];
      NotContainsWithoutHead(s[1..], pat);
    }
  }

  // ---------------------------------------------------------------------------
  // String.Replace(pat, "")

  /** String.Replace(pat, ""): scans left to right and deletes every
      non-overlapping occurrence of `pat`. */
  function RemoveAll(s: string, pat: string): (r: string)
    requires pat != []
    ensures |r| <= |s|
    decreases |s|
  {
    if |s| == 0 then []
    else if StartsWith(s, pat) then RemoveAll(s[|pat|..], pat)
    else [s[0]] + RemoveAll(s[1..], pat)
  }

  /** Replace changes nothing when the pattern does not occur. */
  lemma {:induction false} RemoveAllAbsent(s: string, pat: string)
    requires pat != [] && !Contains(s, pat)
    ensures RemoveAll(s, pat) == s
    decreases |s|
  {
    if |s| > 0 {
      assert !Contains(s[1..], pat);
      RemoveAllAbsent(s[1..], pat);
      assert [s[0]] + s[1..] == s;
    }
  }

  /** An occurrence of `pat` at the front is deleted, whatever follows. */
  lemma RemoveAllLeading(pat: string, s: string)
    requires pat != []
    ensures RemoveAll(pat + s, pat) == RemoveAll(s, pat)
  {
    assert StartsWith(pat + s, pat);
    assert (pat + s)[|pat|..] == s;
  }

  /** Appending one occurrence of a two-character pattern whose characters
      differ to a string free of it: Replace deletes exactly that occurrence. */
  lemma {:induction false} RemoveAllTrailing(s: string, pat: string)
    requires |pat| == 2 && pat[0] != pat[1]
    requires !Contains(s, pat)
    ensures RemoveAll(s + pat, pat) == s
    decreases |s|
  {
    if |s| == 0 {
      assert s + pat == pat;
      assert StartsWith(pat, pat);
      assert pat[|pat|..] == [];
    } else {
      assert !StartsWith(s + pat, pat) by {
        if |s| == 1 {
          assert (s + pat)[..2] == [s[0], pat[0]];
        } else {
          assert (s + pat)[..2] == s[..2];
          assert !StartsWith(s, pat);
        }
      }
      assert !Contains(s[1..], pat);
      RemoveAllTrailing(s[1..], pat);
      assert (s + pat)[1..] == s[1..] + pat;
      assert [s[0]] + s[1..] == s;
    }
  }

  /** A stretch free of a two-character pattern, then one occurrence of it:
      Replace keeps the stretch, deletes the occurrence, and carries on with
      whatever follows. */
  lemma {:induction false} RemoveAllMiddle(s: string, pat: string, t: string)
    requires |pat| == 2 && pat[0] != pat[1]
    requires !Contains(s, pat)
    ensures RemoveAll(s + pat + t, pat) == s + RemoveAll(t, pat)
    decreases |s|
  {
    if |s| == 0 {
      assert s + pat + t == pat + t;
      RemoveAllLeading(pat, t);
    } else {
      assert !StartsWith(s + pat + t, pat) by {
        if |s| == 1 {
          assert (s + pat + t)[..2] == [s[0], pat[0]];
        } else {
          assert (s + pat + t)[..2] == s[..2];
          assert !StartsWith(s, pat);
        }
      }
      assert !Contains(s[1..], pat);
      RemoveAllMiddle(s[1..], pat, t);
      DropHead(s, pat, t);
      PutHead(s, RemoveAll(t, pat));
    }
  }

  /** Replace deletes every occurrence, not just the last one: a pattern in
      the middle goes as well as the one at the end. */
  lemma RemoveAllTwoOccurrences(a: string, pat: string, b: string)
    requires |pat| == 2 && pat[0] != pat[1]
    requires !Contains(a, pat) && !Contains(b, pat)
    ensures RemoveAll(a + pat + b + pat, pat) == a + b
  {
    assert a + pat + b + pat == a + pat + (b + pat);
    RemoveAllMiddle(a, pat, b + pat);
    RemoveAllTrailing(b, pat);
  }

  // ---------------------------------------------------------------------------
  // String.Split(sep)

  /** Number of occurrences of `c` in `s`. */
  function CountOf(s: string, c: char): nat
  {
    if |s| == 0 then 0 else (if s[0] == c then 1 else 0) + CountOf(s[1..], c)
  }

  lemma {:induction false} CountOfAbsent(s: string, c: char)
    requires c !in s
    ensures CountOf(s, c) == 0
    decreases |s|
  {
    if |s| > 0 {
      assert c !in s[1..];
      CountOfAbsent(s[1..], c);
    }
  }

  /** The inverse of Split: the fields separated by `sep`. */
  function Join(fields: seq<string>, sep: char): string
    requires |fields| > 0
  {
    if |fields| == 1 then fields[0] else fields[0] + [sep] + Join(fields[1..], sep)
  }

  /** String.Split(sep): one field more than there are separators, no field
      holds the separator, and joining the fields gives `s` back. */
  function Split(s: string, sep: char): (fields: seq<string>)
    ensures |fields| == CountOf(s, sep) + 1
    ensures forall k :: 0 <= k < |fields| ==> sep !in fields[k]
    ensures Join(fields, sep) == s
    decreases |s|
  {
    if |s| == 0 then [""]
    else
      var rest := Split(s[1..], sep);
      if s[0] == sep then
        assert ([""] + rest)[1..] == rest;
        [""] + rest
      else
        var fields := [[s[0]] + rest[0]] + rest[1..];
        assert fields[1..] == rest[1..];
        assert |rest| > 1 ==> Join(rest, sep) == rest[0] + [sep] + Join(rest[1..], sep);
        assert s == [s[0]] + s[1..];
        fields
  }

  /** A string without the separator is one field. */
  lemma {:induction false} SplitWithoutSeparator(s: string, sep: char)
    requires sep !in s
    ensures Split(s, sep) == [s]
    decreases |s|
  {
    if |s| > 0 {
      assert sep !in s[1..];
      SplitWithoutSeparator(s[1..], sep);
      assert [s[0]] + s[1..] == s;
    }
  }

  /** A separator-free field followed by the separator splits off as the first field. */
  lemma {:induction false} SplitAfterField(field: string, sep: char, rest: string)
    requires sep !in field
    ensures Split(field + [sep] + rest, sep) == [field] + Split(rest, sep)
    decreases |field|
  {
    var s := field + [sep] + rest;
    if |field| == 0 {
      assert s == [sep] + rest;
      assert s[1..] == rest;
    } else {
      assert s[0] == field[0];
      assert s[1..] == field[1..] + [sep] + rest;
      assert sep !in field[1..];
      SplitAfterField(field[1..], sep, rest);
      assert [field[0]] + field[1..] == field;
    }
  }

  /** Two separator-free fields joined by the separator split back into those two. */
  lemma SplitTwoFields(first: string, sep: char, second: string)
    requires sep !in first && sep !in second
    ensures Split(first + [sep] + second, sep) == [first, second]
  {
    SplitAfterField(first, sep, second);
    SplitWithoutSeparator(second, sep);
  }

  /** Split undoes Join when no field holds the separator. */
  lemma {:induction false} SplitJoin(fields: seq<string>, sep: char)
    requires |fields| > 0
    requires forall k :: 0 <= k < |fields| ==> sep !in fields[k]
    ensures Split(Join(fields, sep), sep) == fields
    decreases |fields|
  {
    if |fields| == 1 {
      SplitWithoutSeparator(fields[0], sep);
    } else {
      SplitJoin(fields[1..], sep);
      SplitAfterField(fields[0], sep, Join(fields[1..], sep));
      assert [fields[0]] + fields[1..] == fields;
    }
  }

  // ---------------------------------------------------------------------------
  // Decimal digits and Int32.Parse

  predicate IsDigit(c: char)
  {
    '0' <= c <= '9'
  }

  predicate AllDigits(s: string)
  {
    forall k :: 0 <= k < |s| ==> IsDigit(s[k])
  }

  /** The value of a run of decimal digits, most significant first. */
  function DigitsValue(s: string): nat
    requires AllDigits(s)
  {
    if |s| == 0 then 0
    else DigitsValue(s[..|s| - 1]) * 10 + ((s[|s| - 1] as int) - ('0' as int))
  }

  /** The shortest decimal rendering of `n`. */
  function Decimal(n: nat): (r: string)
    ensures |r| > 0 && AllDigits(r)
  {
    if n < 10 then [(('0' as int) + n) as char]
    else Decimal(n / 10) + [(('0' as int) + n % 10) as char]
  }

  /** The decimal rendering of an integer, with a '-' sign when negative. */
  function IntToString(n: int): (r: string)
    ensures forall k :: 0 <= k < |r| ==> IsDigit(r[k]) || (k == 0 && r[k] == '-')
  {
    if n < 0 then
      var d := Decimal(-n);
      assert forall k :: 1 <= k < |d| + 1 ==> ("-" + d)[k] == d[k - 1];
      "-" + d
    else Decimal(n)
  }

  lemma IntToStringOfNat(n: nat)
    ensures IntToString(n) == Decimal(n)
  {
  }

  /** Int32.Parse with NumberStyles.Integer: optional surrounding number
      whitespace, an optional '+' or '-', then one or more ASCII digits, and
      the value must fit in 32 bits. Throws stands for the FormatException or
      OverflowException it throws. */
  function ParseInt(s: string): (r: ParsedInt)
    ensures r.Int? ==> MinInt32 <= r.value <= MaxInt32
  {
    ParseSignedDigits(Strip(s, NumberWhiteSpace))
  }

  /** The part of Int32.Parse after the surrounding whitespace is gone. */
  function ParseSignedDigits(t: string): (r: ParsedInt)
    ensures r.Int? ==> MinInt32 <= r.value <= MaxInt32
  {
    var signed := |t| > 0 && (t[0] == '-' || t[0] == '+');
    var digits := if signed then t[1..] else t;
    if |digits| == 0 || !AllDigits(digits) then Throws
    else
      var v: int := if signed && t[0] == '-' then -(DigitsValue(digits) as int) else DigitsValue(digits);
      if MinInt32 <= v <= MaxInt32 then Int(v) else Throws
  }

  /** Decimal reads back as the number it renders. */
  lemma {:induction false} DigitsValueOfDecimal(n: nat)
    ensures DigitsValue(Decimal(n)) == n
  {
    if n >= 10 {
      DigitsValueOfDecimal(n / 10);
      var d := Decimal(n);
      assert d[..|d| - 1] == Decimal(n / 10);
    }
  }

  /** Int32.Parse reads back every 32-bit integer from its decimal rendering. */
  lemma ParseIntOfIntToString(n: int)
    requires MinInt32 <= n <= MaxInt32
    ensures ParseInt(IntToString(n)) == Int(n)
  {
    var m: nat := if n < 0 then -n else n;
    var s := IntToString(n);
    var d := Decimal(m);
    assert IsDigit(d[0]) && IsDigit(d[|d| - 1]);
    assert s[0] == '-' || s[0] == d[0];
    assert s[|s| - 1] == d[|d| - 1];
    StripUnchanged(s, NumberWhiteSpace);
    ParseSignedDigitsOfIntToString(n);
  }

  lemma ParseSignedDigitsOfIntToString(n: int)
    requires MinInt32 <= n <= MaxInt32
    ensures ParseSignedDigits(IntToString(n)) == Int(n)
  {
    var m: nat := if n < 0 then -n else n;
    DigitsValueOfDecimal(m);
    var d := Decimal(m);
    if n < 0 {
      var s := IntToString(n);
      assert s[0] == '-' && s[1..] == d;
    } else {
      assert d[0] != '-' && d[0] != '+' by { assert IsDigit(d[0]); }
    }
  }

  /** A run of digits parses as its value when that fits in 32 bits. */
  lemma ParseIntOfDigits(t: string)
    requires |t| > 0 && AllDigits(t) && DigitsValue(t) <= MaxInt32
    ensures ParseInt(t) == Int(DigitsValue(t))
  {
    DigitIsNotNumberWhiteSpace(t[0]);
    DigitIsNotNumberWhiteSpace(t[|t| - 1]);
    StripUnchanged(t, NumberWhiteSpace);
    ParseUnsignedDigits(t);
  }

  lemma DigitIsNotNumberWhiteSpace(c: char)
    requires IsDigit(c)
    ensures c !in NumberWhiteSpace
  {
  }

  /** A run of digits without a sign parses as its value when that fits. */
  lemma ParseUnsignedDigits(t: string)
    requires |t| > 0 && AllDigits(t) && DigitsValue(t) <= MaxInt32
    ensures ParseSignedDigits(t) == Int(DigitsValue(t))
  {
    assert t[0] != '-' && t[0] != '+';
  }

  /** Surrounding number whitespace is ignored by Int32.Parse. */
  lemma ParseIntIgnoresNumberWhiteSpace(s: string)
    ensures ParseInt(Strip(s, NumberWhiteSpace)) == ParseInt(s)
  {
    StripIdempotent(s, NumberWhiteSpace);
  }

  // ---------------------------------------------------------------------------
  // Sequences

  /** `f` applied to every element of `s`, in order. */
  function MapSeq<A, B>(f: A -> B, s: seq<A>): (r: seq<B>)
    ensures |r| == |s|
    decreases |s|
  {
    if s == [] then [] else [f(s[0])] + MapSeq(f, s[1..])
  }

  lemma {:induction false} MapSeqAt<A, B>(f: A -> B, s: seq<A>, i: int)
    requires 0 <= i < |s|
    ensures MapSeq(f, s)[i] == f(s[i])
    decreases i
  {
    if i > 0 {
      MapSeqAt(f, s[1..], i - 1);
    }
  }

  lemma MapSeqCons<A, B>(f: A -> B, x: A, s: seq<A>)
    ensures MapSeq(f, [x] + s) == [f(x)] + MapSeq(f, s)
  {
    assert ([x] + s)[1..] == s;
  }

  /** Mapping distributes over concatenation. */
  lemma {:induction false} MapSeqAppend<A, B>(f: A -> B, a: seq<A>, b: seq<A>)
    ensures MapSeq(f, a + b) == MapSeq(f, a) + MapSeq(f, b)
    decreases |a|
  {
    if a == [] {
      assert a + b == b;
    } else {
      assert (a + b)[0] == a[0];
      assert (a + b)[1..] == a[1..] + b;
      MapSeqAppend(f, a[1..], b);
    }
  }

  lemma MapSeqOfTwo<A, B>(f: A -> B, x1: A, x2: A)
    ensures MapSeq(f, [x1, x2]) == [f(x1), f(x2)]
  {
    MapSeqAt(f, [x1, x2], 0);
    MapSeqAt(f, [x1, x2], 1);
  }

  lemma MapSeqOfFour<A, B>(f: A -> B, x1: A, x2: A, x3: A, x4: A)
    ensures MapSeq(f, [x1, x2, x3, x4]) == [f(x1), f(x2), f(x3), f(x4)]
  {
    var s := [x1, x2, x3, x4];
    forall i | 0 <= i < 4
      ensures MapSeq(f, s)[i] == f(s[i])
    {
      MapSeqAt(f, s, i);
    }
  }

  /** Dropping the first element of a concatenation that starts with `x`. */
  lemma DropHead<T>(x: seq<T>, y: seq<T>, z: seq<T>)
    requires |x| > 0
    ensures (x + y + z)[1..] == x[1..] + y + z
  {
  }

  /** Putting the first element of `x` back in front of the rest of `x`. */
  lemma PutHead<T>(x: seq<T>, y: seq<T>)
    requires |x| > 0
    ensures [x[0]] + (x[1..] + y) == x + y
  {
    assert [x[0]] + x[1..] == x;
  }
}
