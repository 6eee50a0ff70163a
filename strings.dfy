/**
 * The Foundation string operations the book-search layer relies on:
 * `replacingOccurrences(of:with:)`, `split(separator:)`, `Int(String)`
 * and decimal rendering of an `Int`. A Swift `String` is a `seq<char>`
 * here and `count` is its length.
 */
module Strings {
  import opened Wrappers

  // ---------------------------------------------------------------------
  // replacingOccurrences(of:with:)
  // ---------------------------------------------------------------------

  /** `pat` occurs in `s` starting at index `i`. */
  predicate OccursAt(s: string, pat: string, i: nat)
  {
    i + |pat| <= |s| && s[i..i + |pat|] == pat
  }

  predicate Contains(s: string, pat: string)
  {
    exists i: nat | i <= |s| :: OccursAt(s, pat, i)
  }

  /**
   * `s.replacingOccurrences(of: pat, with: rep)`: scanning left to right,
   * every match of `pat` that does not overlap an earlier replaced match is
   * replaced by `rep`. An empty pattern leaves `s` unchanged.
   */
  function ReplaceAll(s: string, pat: string, rep: string): string
    decreases |s|
  {
    if pat == [] || |s| < |pat| then s
    else if s[..|pat|] == pat then rep + ReplaceAll(s[|pat|..], pat, rep)
    else [s[0]] + ReplaceAll(s[1..], pat, rep)
  }

  /** A string with no occurrence of the pattern comes back unchanged. */
  lemma {:induction false} ReplaceAllAbsent(s: string, pat: string, rep: string)
    requires !Contains(s, pat)
    ensures ReplaceAll(s, pat, rep) == s
  {
    assert !OccursAt(s, pat, 0);
    if pat != [] && |s| >= |pat| {
      forall i: nat ensures !OccursAt(s[1..], pat, i) {
        if OccursAt(s[1..], pat, i) {
          assert s[1..][i..i + |pat|] == s[i + 1..i + 1 + |pat|];
          assert OccursAt(s, pat, i + 1);
        }
      }
      ReplaceAllAbsent(s[1..], pat, rep);
    }
  }

  /**
   * The leftmost occurrence is replaced, the text before it is kept, and
   * scanning resumes after the replaced match. With `ReplaceAllAbsent` this
   * determines `ReplaceAll` completely.
   */
  lemma {:induction false} ReplaceAllFirst(a: string, pat: string, b: string, rep: string)
    requires pat != []
    requires forall i: nat | i < |a| :: !OccursAt(a + pat + b, pat, i)
    ensures ReplaceAll(a + pat + b, pat, rep) == a + rep + ReplaceAll(b, pat, rep)
  {
    var s := a + pat + b;
    if a == [] {
      assert s == pat + b;
      assert s[..|pat|] == pat;
      assert s[|pat|..] == b;
    } else {
      assert !OccursAt(s, pat, 0);
      assert s[..|pat|] != pat;
      var t := a[1..] + pat + b;
      assert s[1..] == t;
      forall i: nat | i < |a[1..]| ensures !OccursAt(t, pat, i) {
        assert !OccursAt(s, pat, i + 1);
        assert t[i..i + |pat|] == s[i + 1..i + 1 + |pat|] by {
          assert i + |pat| <= |t| ==> t[i..i + |pat|] == s[1..][i..i + |pat|];
        }
      }
      calc {
        ReplaceAll(s, pat, rep);
        [s[0]] + ReplaceAll(t, pat, rep);
        { ReplaceAllFirst(a[1..], pat, b, rep); }
        [s[0]] + (a[1..] + rep + ReplaceAll(b, pat, rep));
        { assert [s[0]] + a[1..] == a; }
        a + rep + ReplaceAll(b, pat, rep);
      }
    }
  }

  /** Replacing a pattern with nothing never makes a string longer. */
  lemma {:induction false} ReplaceAllShrinks(s: string, pat: string)
    ensures |ReplaceAll(s, pat, "")| <= |s|
    decreases |s|
  {
    if pat != [] && |s| >= |pat| {
      if s[..|pat|] == pat {
        ReplaceAllShrinks(s[|pat|..], pat);
      } else {
        ReplaceAllShrinks(s[1..], pat);
      }
    }
  }

  // ---------------------------------------------------------------------
  // split(separator:)
  // ---------------------------------------------------------------------

  /** The pieces of `s` between occurrences of `sep`, empty pieces included. */
  function Pieces(s: string, sep: char): (r: seq<string>)
    ensures |r| >= 1
    decreases |s|
  {
    if s == [] then [[]]
    else
      var rest := Pieces(s[1..], sep);
      if s[0] == sep then [[]] + rest
      else [[s[0]] + rest[0]] + rest[1..]
  }

  /** The non-empty strings of `xs`, in order. */
  function NonEmpty(xs: seq<string>): (r: seq<string>)
    ensures |r| <= |xs|
    ensures forall i | 0 <= i < |r| :: r[i] != []
  {
    if xs == [] then []
    else (if xs[0] == [] then [] else [xs[0]]) + NonEmpty(xs[1..])
  }

  /** `s.split(separator: sep)`: the default split omits empty subsequences. */
  function Split(s: string, sep: char): seq<string>
  {
    NonEmpty(Pieces(s, sep))
  }

  /** The concatenation of a sequence of strings. */
  function Concat(xs: seq<string>): string
  {
    if xs == [] then [] else xs[0] + Concat(xs[1..])
  }

  /** `s` with every `c` deleted. */
  function Without(s: string, c: char): string
  {
    if s == [] then [] else (if s[0] == c then [] else [s[0]]) + Without(s[1..], c)
  }

  /** A string without the separator is a single piece. */
  lemma PiecesWithoutSeparator(s: string, sep: char)
    requires sep !in s
    ensures Pieces(s, sep) == [s]
    decreases |s|
  {
    if s != [] {
      PiecesWithoutSeparator(s[1..], sep);
      assert [s[0]] + s[1..] == s;
    }
  }

  /** A separator cuts the string in two: the pieces are those of each side. */
  lemma {:induction false} PiecesAroundSeparator(a: string, sep: char, b: string)
    ensures Pieces(a + [sep] + b, sep) == Pieces(a, sep) + Pieces(b, sep)
    decreases |a|
  {
    var s := a + [sep] + b;
    if a == [] {
      assert s[1..] == b;
    } else {
      assert s[0] == a[0];
      assert s[1..] == a[1..] + [sep] + b;
      PiecesAroundSeparator(a[1..], sep, b);
    }
  }

  /** Gluing the pieces back together gives the string without its separators. */
  lemma {:induction false} ConcatPieces(s: string, sep: char)
    ensures Concat(Pieces(s, sep)) == Without(s, sep)
    decreases |s|
  {
    if s != [] {
      var rest := Pieces(s[1..], sep);
      ConcatPieces(s[1..], sep);
      if s[0] != sep {
        var r := [[s[0]] + rest[0]] + rest[1..];
        assert r[1..] == rest[1..];
        assert Concat(rest) == rest[0] + Concat(rest[1..]);
      } else {
        assert ([[]] + rest)[1..] == rest;
      }
    }
  }

  /** Dropping empty strings does not change the concatenation. */
  lemma {:induction false} ConcatNonEmpty(xs: seq<string>)
    ensures Concat(NonEmpty(xs)) == Concat(xs)
  {
    if xs != [] {
      ConcatNonEmpty(xs[1..]);
      if xs[0] != [] {
        assert ([xs[0]] + NonEmpty(xs[1..]))[1..] == NonEmpty(xs[1..]);
      } else {
        assert [] + NonEmpty(xs[1..]) == NonEmpty(xs[1..]);
      }
    }
  }

  /** Deleting a character that occurs makes the string strictly shorter. */
  lemma {:induction false} WithoutShrinks(s: string, c: char)
    ensures |Without(s, c)| <= |s|
    ensures c in s ==> |Without(s, c)| < |s|
  {
    if s != [] {
      WithoutShrinks(s[1..], c);
      assert c in s ==> s[0] == c || c in s[1..];
    }
  }

  /** The split parts together are as long as the string exactly when it holds no separator. */
  lemma SplitLength(s: string, sep: char)
    ensures |Concat(Split(s, sep))| <= |s|
    ensures sep in s ==> |Concat(Split(s, sep))| < |s|
    ensures sep !in s ==> |Concat(Split(s, sep))| == |s|
  {
    ConcatNonEmpty(Pieces(s, sep));
    ConcatPieces(s, sep);
    WithoutShrinks(s, sep);
    if sep !in s {
      PiecesWithoutSeparator(s, sep);
      assert NonEmpty([s]) == (if s == [] then [] else [s]) + NonEmpty([]);
    }
  }

  /** A non-empty string with no separator splits into itself alone. */
  lemma SplitWithoutSeparator(s: string, sep: char)
    requires s != [] && sep !in s
    ensures Split(s, sep) == [s]
  {
    PiecesWithoutSeparator(s, sep);
    assert NonEmpty([s]) == [s] + NonEmpty([]);
  }

  /** `a sep b sep c` with three non-empty separator-free fields splits into exactly those fields. */
  lemma SplitThree(a: string, b: string, c: string, sep: char)
    requires a != [] && b != [] && c != []
    requires sep !in a && sep !in b && sep !in c
    ensures Split(a + [sep] + b + [sep] + c, sep) == [a, b, c]
  {
    PiecesAroundSeparator(a + [sep] + b, sep, c);
    PiecesAroundSeparator(a, sep, b);
    PiecesWithoutSeparator(a, sep);
    PiecesWithoutSeparator(b, sep);
    PiecesWithoutSeparator(c, sep);
    assert Pieces(a + [sep] + b + [sep] + c, sep) == [a, b, c];
    assert NonEmpty([c]) == [c] + NonEmpty([]);
    assert NonEmpty([b, c]) == [b] + NonEmpty([c]);
    assert NonEmpty([a, b, c]) == [a] + NonEmpty([b, c]);
  }

  // ---------------------------------------------------------------------
  // Int(String) and String(Int)
  // ---------------------------------------------------------------------

  /** The range of Swift's 64-bit `Int`. */
  const IntMin: int := -0x8000_0000_0000_0000
  const IntMax: int := 0x7FFF_FFFF_FFFF_FFFF

  predicate IsDigit(c: char)
  {
    '0' <= c <= '9'
  }

  predicate AllDigits(s: string)
  {
    forall i | 0 <= i < |s| :: IsDigit(s[i])
  }

  function DigitValue(c: char): (d: nat)
    requires IsDigit(c)
    ensures d < 10
  {
    (c as int) - ('0' as int)
  }

  function DigitChar(d: nat): (c: char)
    requires d < 10
    ensures IsDigit(c) && DigitValue(c) == d
  {
    (('0' as int) + d) as char
  }

  /** The value of a string of decimal digits, most significant first. */
  function DigitsValue(ds: string): nat
    requires AllDigits(ds)
  {
    if ds == [] then 0
    else DigitsValue(ds[..|ds| - 1]) * 10 + DigitValue(ds[|ds| - 1])
  }

  /**
   * `Int(s)`: an optional `+` or `-`, then one or more ASCII digits, and a
   * value that fits in 64 bits; anything else is nil.
   */
  function ParseInt(s: string): (r: Option<int>)
    ensures r.Some? ==> s != [] && AllDigits(s[1..]) && (IsDigit(s[0]) || s[0] == '+' || s[0] == '-')
    ensures r.Some? ==> IntMin <= r.value <= IntMax
  {
    var signed := |s| > 0 && (s[0] == '+' || s[0] == '-');
    var digits := if signed then s[1..] else s;
    if digits == [] || !AllDigits(digits) then None
    else
      var magnitude := DigitsValue(digits);
      var v: int := if signed && s[0] == '-' then -(magnitude as int) else magnitude;
      if IntMin <= v <= IntMax then Some(v) else None
  }

  /** The decimal digits of `n`, without leading zeros. */
  function NatToString(n: nat): (r: string)
    ensures r != [] && AllDigits(r)
  {
    if n < 10 then [DigitChar(n)] else NatToString(n / 10) + [DigitChar(n % 10)]
  }

  /** `String(n)` / `"\(n)"`: decimal text with a leading `-` for negative numbers. */
  function IntToString(n: int): (r: string)
    ensures r != []
  {
    if n < 0 then "-" + NatToString(-n) else NatToString(n)
  }

  lemma {:induction false} NatToStringValue(n: nat)
    ensures DigitsValue(NatToString(n)) == n
  {
    if n >= 10 {
      var s := NatToString(n);
      assert s[..|s| - 1] == NatToString(n / 10);
      NatToStringValue(n / 10);
    }
  }

  /** Reading back the decimal text of a 64-bit integer gives the integer. */
  lemma ParseIntToString(n: int)
    requires IntMin <= n <= IntMax
    ensures ParseInt(IntToString(n)) == Some(n)
  {
    var s := IntToString(n);
    if n < 0 {
      var digits := NatToString(-n);
      NatToStringValue(-n);
      assert s == "-" + digits;
      assert s[0] == '-' && s[1..] == digits;
      assert digits != [] && AllDigits(digits);
      assert DigitsValue(digits) == -n;
    } else {
      NatToStringValue(n);
      assert s == NatToString(n);
      assert s != [] && AllDigits(s) && IsDigit(s[0]);
      assert DigitsValue(s) == n;
    }
  }

  /** Distinct integers have distinct decimal text. */
  lemma IntToStringInjective(a: int, b: int)
    requires IntToString(a) == IntToString(b)
    ensures a == b
  {
    var s := IntToString(a);
    if a < 0 {
      assert s[0] == '-';
      assert b < 0;
      assert s[1..] == NatToString(-a) == NatToString(-b);
      NatToStringValue(-a);
      NatToStringValue(-b);
    } else {
      assert IsDigit(s[0]);
      assert b >= 0;
      NatToStringValue(a);
      NatToStringValue(b);
    }
  }
}
