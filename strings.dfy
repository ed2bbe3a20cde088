/**
 * The handful of Python `str` operations the pipeline relies on, on
 * strings modelled as `seq<char>`: `split` with and without `maxsplit`,
 * `os.path.splitext` (POSIX flavour), `lower`, `endswith`, `int` on a
 * decimal string, and the ordering `sorted` uses.
 */
module Strings {
  import opened Wrappers

  /** Glues `parts` back together with `sep` between consecutive parts. */
  function Join(parts: seq<string>, sep: char): string
    requires |parts| >= 1
  {
    if |parts| == 1 then parts[0] else parts[0] + [sep] + Join(parts[1..], sep)
  }

  /** Number of occurrences of `c` in `s`. */
  function Count(s: string, c: char): nat
  {
    multiset(s)[c]
  }

  /**
   * `s.split(sep, maxsplit)` for a one-character separator and
   * `maxsplit >= 0`: cut at the first `maxsplit` occurrences of `sep`,
   * leaving the rest, separators and all, in the last part.
   */
  function SplitMax(s: string, sep: char, maxsplit: nat): (parts: seq<string>)
    ensures 1 <= |parts| <= maxsplit + 1
    ensures |parts| <= |s| + 1
  {
    if maxsplit == 0 || |s| == 0 then
      [s]
    else if s[0] == sep then
      [""] + SplitMax(s[1..], sep, maxsplit - 1)
    else
      var rest := SplitMax(s[1..], sep, maxsplit);
      [[s[0]] + rest[0]] + rest[1..]
  }

  /** Splitting loses nothing: joining the parts with the separator gives `s` back. */
  lemma {:induction false} SplitMaxJoin(s: string, sep: char, maxsplit: nat)
    ensures Join(SplitMax(s, sep, maxsplit), sep) == s
  {
    if maxsplit > 0 && |s| > 0 {
      assert s == [s[0]] + s[1..];
      if s[0] == sep {
        var rest := SplitMax(s[1..], sep, maxsplit - 1);
        SplitMaxJoin(s[1..], sep, maxsplit - 1);
        assert ([""] + rest)[1..] == rest;
      } else {
        var rest := SplitMax(s[1..], sep, maxsplit);
        SplitMaxJoin(s[1..], sep, maxsplit);
        var parts := [[s[0]] + rest[0]] + rest[1..];
        assert parts[1..] == rest[1..];
        if |rest| > 1 {
          assert Join(rest, sep) == rest[0] + [sep] + Join(rest[1..], sep);
        }
      }
    }
  }

  /**
   * Only the last part may contain the separator, and only when all
   * `maxsplit` cuts were made.
   */
  lemma SplitMaxParts(s: string, sep: char, maxsplit: nat)
    ensures var parts := SplitMax(s, sep, maxsplit);
      && (forall i :: 0 <= i < |parts| - 1 ==> sep !in parts[i])
      && (|parts| <= maxsplit ==> sep !in parts[|parts| - 1])
  {
    SplitMaxInnerParts(s, sep, maxsplit);
    if |SplitMax(s, sep, maxsplit)| <= maxsplit {
      SplitMaxLastPart(s, sep, maxsplit);
    }
  }

  /** The parts before the last hold no separator. */
  lemma {:induction false} SplitMaxInnerParts(s: string, sep: char, maxsplit: nat)
    ensures forall i :: 0 <= i < |SplitMax(s, sep, maxsplit)| - 1 ==> sep !in SplitMax(s, sep, maxsplit)[i]
  {
    if maxsplit > 0 && |s| > 0 {
      var parts := SplitMax(s, sep, maxsplit);
      if s[0] == sep {
        var rest := SplitMax(s[1..], sep, maxsplit - 1);
        SplitMaxInnerParts(s[1..], sep, maxsplit - 1);
        assert forall i :: 1 <= i < |parts| ==> parts[i] == rest[i - 1];
      } else {
        var rest := SplitMax(s[1..], sep, maxsplit);
        SplitMaxInnerParts(s[1..], sep, maxsplit);
        assert forall i :: 1 <= i < |parts| ==> parts[i] == rest[i];
        assert parts[0] == [s[0]] + rest[0];
      }
    }
  }

  /** When fewer than `maxsplit` cuts were made, the last part holds no separator either. */
  lemma {:induction false} SplitMaxLastPart(s: string, sep: char, maxsplit: nat)
    requires |SplitMax(s, sep, maxsplit)| <= maxsplit
    ensures sep !in SplitMax(s, sep, maxsplit)[|SplitMax(s, sep, maxsplit)| - 1]
  {
    var parts := SplitMax(s, sep, maxsplit);
    if |s| > 0 {
      if s[0] == sep {
        var rest := SplitMax(s[1..], sep, maxsplit - 1);
        SplitMaxLastPart(s[1..], sep, maxsplit - 1);
        assert parts[|parts| - 1] == rest[|rest| - 1];
      } else {
        var rest := SplitMax(s[1..], sep, maxsplit);
        SplitMaxLastPart(s[1..], sep, maxsplit);
        if |rest| == 1 {
          assert parts[0] == [s[0]] + rest[0];
        } else {
          assert parts[|parts| - 1] == rest[|rest| - 1];
        }
      }
    }
  }

  /**
   * Every cut consumes one separator; when fewer than `maxsplit` cuts
   * were made, every separator was cut at.
   */
  lemma {:induction false} SplitMaxCount(s: string, sep: char, maxsplit: nat)
    ensures var parts := SplitMax(s, sep, maxsplit);
      && Count(s, sep) >= |parts| - 1
      && (|parts| <= maxsplit ==> Count(s, sep) == |parts| - 1)
  {
    if maxsplit > 0 && |s| > 0 {
      assert s == [s[0]] + s[1..];
      assert multiset(s) == multiset{s[0]} + multiset(s[1..]);
      if s[0] == sep {
        SplitMaxCount(s[1..], sep, maxsplit - 1);
      } else {
        SplitMaxCount(s[1..], sep, maxsplit);
        SplitMaxParts(s, sep, maxsplit);
        SplitMaxParts(s[1..], sep, maxsplit);
      }
    }
  }

  /** A leading part free of the separator is cut off whole, using up one cut. */
  lemma {:induction false} SplitMaxFirstPart(a: string, rest: string, sep: char, maxsplit: nat)
    requires sep !in a
    requires maxsplit > 0
    ensures SplitMax(a + [sep] + rest, sep, maxsplit) == [a] + SplitMax(rest, sep, maxsplit - 1)
  {
    var s := a + [sep] + rest;
    if |a| > 0 {
      assert s[0] == a[0] && s[1..] == a[1..] + [sep] + rest;
      SplitMaxFirstPart(a[1..], rest, sep, maxsplit);
      assert [a[0]] + a[1..] == a;
    } else {
      assert s[1..] == rest;
    }
  }

  /**
   * `s.split(sep, 2)` has a third part exactly when `s` holds two
   * separators, and that part is everything after the second one.
   */
  lemma SplitTwice(s: string, sep: char)
    ensures var parts := SplitMax(s, sep, 2);
      && (|parts| < 3 <==> Count(s, sep) < 2)
      && (|parts| == 3 ==> AfterSecond(s, sep, parts[2]))
  {
    var parts := SplitMax(s, sep, 2);
    SplitMaxCount(s, sep, 2);
    if |parts| == 3 {
      SplitMaxJoin(s, sep, 2);
      SplitMaxParts(s, sep, 2);
      ThreePartsJoin(parts, sep);
    }
  }

  /** `t` is what follows the second occurrence of `sep` in `s`. */
  predicate AfterSecond(s: string, sep: char, t: string)
  {
    && |t| < |s|
    && s[|s| - |t|..] == t
    && s[|s| - |t| - 1] == sep
    && Count(s[..|s| - |t|], sep) == 2
  }

  /** Joining three fields, the first two separator-free, puts the third after the second separator. */
  lemma ThreePartsJoin(parts: seq<string>, sep: char)
    requires |parts| == 3 && sep !in parts[0] && sep !in parts[1]
    ensures AfterSecond(Join(parts, sep), sep, parts[2])
  {
    var s := Join(parts, sep);
    var t := parts[2];
    var front := parts[0] + [sep] + parts[1] + [sep];
    assert Join(parts[2..], sep) == t;
    assert Join(parts[1..], sep) == parts[1] + [sep] + t;
    assert s == front + t;
    assert s[..|s| - |t|] == front;
    assert multiset(front)[sep] == multiset(parts[0])[sep] + 1 + multiset(parts[1])[sep] + 1;
  }

  /** `s.split(sep)` with no limit: more cuts than `s` has characters is no limit. */
  function Split(s: string, sep: char): (parts: seq<string>)
    ensures 1 <= |parts|
  {
    SplitMax(s, sep, |s| + 1)
  }

  /** An unlimited split is a cut at every separator and at nothing else. */
  lemma {:induction false} SplitSpec(s: string, sep: char)
    ensures var parts := Split(s, sep);
      && Join(parts, sep) == s
      && (forall i :: 0 <= i < |parts| ==> sep !in parts[i])
      && Count(s, sep) == |parts| - 1
  {
    var parts := Split(s, sep);
    assert Join(parts, sep) == s by { SplitMaxJoin(s, sep, |s| + 1); }
    assert forall i :: 0 <= i < |parts| ==> sep !in parts[i] by { SplitMaxParts(s, sep, |s| + 1); }
    assert Count(s, sep) == |parts| - 1 by { SplitMaxCount(s, sep, |s| + 1); }
  }

  /** `s.rfind(c)`: the last index holding `c`, or -1. */
  function LastIndex(s: string, c: char): (r: int)
    ensures -1 <= r < |s|
    ensures r >= 0 ==> s[r] == c
    ensures forall k :: r < k < |s| ==> s[k] != c
  {
    if |s| == 0 then -1
    else if s[|s| - 1] == c then |s| - 1
    else LastIndex(s[..|s| - 1], c)
  }

  /**
   * `os.path.splitext(p)` on POSIX: the extension starts at the last dot
   * after the last slash, provided some character before that dot in the
   * final path component is not itself a dot (leading dots never start an
   * extension); otherwise the extension is empty.
   */
  function SplitExt(p: string): (r: (string, string))
    ensures r.0 + r.1 == p
    ensures r.1 == [] || (r.1[0] == '.' && '.' !in r.1[1..] && '/' !in r.1)
    ensures r.1 != [] ==> exists k :: 0 <= k < |r.0| && r.0[k] != '.' && '/' !in r.0[k..]
  {
    var sepIndex := LastIndex(p, '/');
    var dotIndex := LastIndex(p, '.');
    if dotIndex > sepIndex && exists k :: sepIndex + 1 <= k < dotIndex && p[k] != '.' then
      assert p[..dotIndex] + p[dotIndex..] == p;
      (p[..dotIndex], p[dotIndex..])
    else
      (p, [])
  }

  /**
   * For a plain file name with one extension, `splitext` removes exactly
   * that extension.
   */
  lemma SplitExtPlainName(root: string, ext: string)
    requires '/' !in root + ext
    requires '.' !in ext
    requires exists k :: 0 <= k < |root| && root[k] != '.'
    ensures SplitExt(root + ['.'] + ext) == (root, ['.'] + ext)
  {
    var p := root + ['.'] + ext;
    assert p[|root|] == '.';
    assert forall k :: |root| < k < |p| ==> p[k] == ext[k - |root| - 1];
    assert LastIndex(p, '.') == |root|;
    assert forall k :: 0 <= k < |p| ==> p[k] != '/';
    assert LastIndex(p, '/') == -1;
    var k :| 0 <= k < |root| && root[k] != '.';
    assert p[k] != '.';
    assert p[..|root|] == root;
    assert p[|root|..] == ['.'] + ext;
  }

  /** `c.lower()` restricted to ASCII: A-Z become a-z, everything else is kept. */
  function LowerChar(c: char): (r: char)
    ensures 'A' <= c <= 'Z' ==> 'a' <= r <= 'z' && r as int - c as int == 32
    ensures !('A' <= c <= 'Z') ==> r == c
  {
    if 'A' <= c <= 'Z' then (c as int + 32) as char else c
  }

  /** `s.lower()`, character by character. */
  function Lower(s: string): (r: string)
    ensures |r| == |s|
    ensures forall i :: 0 <= i < |s| ==> r[i] == LowerChar(s[i])
  {
    if |s| == 0 then [] else Lower(s[..|s| - 1]) + [LowerChar(s[|s| - 1])]
  }

  /** `s.endswith(suffix)`. */
  predicate EndsWith(s: string, suffix: string)
  {
    |suffix| <= |s| && s[|s| - |suffix|..] == suffix
  }

  /** Strict lexicographic order on code points, the order `sorted` puts strings in. */
  predicate LexLess(a: string, b: string)
  {
    if |a| == 0 then |b| > 0
    else if |b| == 0 then false
    else a[0] < b[0] || (a[0] == b[0] && LexLess(a[1..], b[1..]))
  }

  /** Every earlier element is strictly below every later one. */
  predicate StrictlySorted(names: seq<string>)
  {
    forall i, j :: 0 <= i < j < |names| ==> LexLess(names[i], names[j])
  }

  predicate IsDigit(c: char)
  {
    '0' <= c <= '9'
  }

  function DigitChar(d: nat): (c: char)
    requires d < 10
    ensures IsDigit(c) && c as int - '0' as int == d
  {
    ('0' as int + d) as char
  }

  /** `str(n)` for a natural number: its decimal digits, most significant first, no leading zero. */
  function DecimalString(n: nat): (s: string)
    ensures |s| >= 1
    ensures forall i :: 0 <= i < |s| ==> IsDigit(s[i])
    ensures |s| > 1 ==> s[0] != '0'
  {
    if n < 10 then [DigitChar(n)] else DecimalString(n / 10) + [DigitChar(n % 10)]
  }

  /** Value of a string of decimal digits. */
  function DigitsValue(s: string): nat
    requires forall i :: 0 <= i < |s| ==> IsDigit(s[i])
  {
    if |s| == 0 then 0
    else
      assert IsDigit(s[|s| - 1]);
      DigitsValue(s[..|s| - 1]) * 10 + (s[|s| - 1] as int - '0' as int)
  }

  /**
   * `int(s)` for a non-empty string of ASCII decimal digits; any other
   * string, on which Python raises `ValueError` or takes a form the
   * pipeline never produces, gives `None`.
   */
  function ParseDecimal(s: string): (r: Option<nat>)
    ensures r.Some? <==> |s| >= 1 && forall i :: 0 <= i < |s| ==> IsDigit(s[i])
  {
    if |s| >= 1 && forall i :: 0 <= i < |s| ==> IsDigit(s[i]) then Some(DigitsValue(s)) else None
  }

  /** Printing a number and reading it back gives the number. */
  lemma {:induction false} ParseDecimalString(n: nat)
    ensures ParseDecimal(DecimalString(n)) == Some(n)
  {
    DigitsOfDecimal(n);
  }

  /** The digits of the numeral of `n` have value `n`. */
  lemma {:induction false} DigitsOfDecimal(n: nat)
    ensures DigitsValue(DecimalString(n)) == n
  {
    var s := DecimalString(n);
    if n >= 10 {
      DigitsOfDecimal(n / 10);
      assert s[..|s| - 1] == DecimalString(n / 10);
    }
  }
}
