/** String rules shared by the three apps: JavaScript falsy-fallback, `split(c).pop()`,
    ASCII lower-casing, the extension-stripping regex `/\.[^/.]+$/`, `String.replace` with
    a string pattern, and the decimal rendering of a number in a template literal. */
module Common {

  datatype Option<T> = None | Some(value: T)

  /** JavaScript `a || b` on strings: every absent, null, undefined or empty string is
      modelled as "", which is exactly the set of falsy strings. */
  function Or(a: string, b: string): string
  {
    if a != "" then a else b
  }

  // ---------------------------------------------------------------------------
  // Searching

  /** Index of the last occurrence of `c` in `s`, or -1 (`String.lastIndexOf`). */
  function LastIndex(s: string, c: char): (r: int)
    ensures -1 <= r < |s|
    ensures r >= 0 ==> s[r] == c
    ensures forall k :: r < k < |s| ==> s[k] != c
  {
    if s == [] then -1
    else if s[|s| - 1] == c then |s| - 1
    else LastIndex(s[..|s| - 1], c)
  }

  /** The last `c` of `a + b` lies in `b` when `b` has one, and in `a` otherwise. */
  lemma {:induction false} LastIndexAppend(a: string, b: string, c: char)
    ensures LastIndex(a + b, c) == if c in b then |a| + LastIndex(b, c) else LastIndex(a, c)
  {
    if b == [] {
      assert a + b == a;
    } else {
      var init, last := b[..|b| - 1], b[|b| - 1];
      var ab := a + b;
      assert ab[|ab| - 1] == last;
      if last != c {
        assert ab[..|ab| - 1] == a + init;
        assert b == init + [last];
        assert c in b <==> c in init;
        LastIndexAppend(a, init, c);
      }
    }
  }

  /** `s.split(c).pop()`: the text after the last `c`, or all of `s` when there is none. */
  function AfterLast(s: string, c: char): (r: string)
    ensures c !in r
    ensures c !in s ==> r == s
    ensures c in s ==> exists i :: 0 <= i < |s| && s[i] == c && s == s[..i] + [c] + r
  {
    var i := LastIndex(s, c);
    if i < 0 then s
    else
      assert s == s[..i] + [c] + s[i + 1..];
      s[i + 1..]
  }

  /** First index at or after `from` where `pat` occurs in `s`, or -1. */
  function IndexFrom(s: string, pat: string, from: nat): (r: int)
    requires from <= |s|
    ensures r == -1 || (from <= r && OccursAt(s, pat, r))
    ensures forall k :: from <= k && (r == -1 || k < r) ==> !OccursAt(s, pat, k)
    decreases |s| - from
  {
    if from + |pat| > |s| then -1
    else if OccursAt(s, pat, from) then from
    else if from == |s| then -1
    else IndexFrom(s, pat, from + 1)
  }

  predicate OccursAt(s: string, pat: string, k: int)
  {
    0 <= k && k + |pat| <= |s| && s[k..k + |pat|] == pat
  }

  /** `s.indexOf(pat)`. */
  function IndexOf(s: string, pat: string): int
  {
    IndexFrom(s, pat, 0)
  }

  /** The first occurrence found by `indexOf` is the first one there is. */
  lemma IndexOfFirst(s: string, pat: string, i: nat)
    requires OccursAt(s, pat, i)
    requires forall k :: 0 <= k < i ==> !OccursAt(s, pat, k)
    ensures IndexOf(s, pat) == i
  {
  }

  /** `s.endsWith(suffix)`. */
  predicate EndsWith(s: string, suffix: string)
  {
    |suffix| <= |s| && s[|s| - |suffix|..] == suffix
  }

  /** `s.replace(pat, rep)` with a string pattern: only the first occurrence is replaced. */
  function ReplaceFirst(s: string, pat: string, rep: string): string
  {
    var i := IndexOf(s, pat);
    if i < 0 then s else s[..i] + rep + s[i + |pat|..]
  }

  // ---------------------------------------------------------------------------
  // Case and extensions

  function LowerChar(c: char): char
  {
    if 'A' <= c <= 'Z' then (c as int - 'A' as int + 'a' as int) as char else c
  }

  /** `toLowerCase()` restricted to ASCII letters. */
  function Lower(s: string): (r: string)
    ensures |r| == |s|
    ensures forall k :: 0 <= k < |s| ==> r[k] == LowerChar(s[k])
    ensures forall k :: 0 <= k < |r| ==> !('A' <= r[k] <= 'Z')
  {
    if s == [] then [] else Lower(s[..|s| - 1]) + [LowerChar(s[|s| - 1])]
  }

  /** `s.replace(/\.[^/.]+$/, '')`: drop a final dot followed by at least one character
      that is neither a dot nor a slash; otherwise leave `s` alone. */
  function StripExtension(s: string): (r: string)
    ensures r == s || (|r| < |s| && s == r + "." + s[|r| + 1..] && IsExtension(s[|r| + 1..]))
  {
    var i := LastIndex(s, '.');
    if 0 <= i < |s| - 1 && '/' !in s[i + 1..] then
      ExtensionAfterLastDot(s, i);
      s[..i]
    else
      s
  }

  /** The regex matches exactly when some dot is followed by a genuine extension up to the end. */
  lemma StripExtensionIff(s: string)
    ensures StripExtension(s) != s <==> exists i :: 0 <= i < |s| - 1 && s[i] == '.' && IsExtension(s[i + 1..])
  {
    var i := LastIndex(s, '.');
    if 0 <= i < |s| - 1 && '/' !in s[i + 1..] {
      ExtensionAfterLastDot(s, i);
      assert |StripExtension(s)| < |s|;
    } else {
      NoExtensionWhenNoDotTail(s, i);
    }
  }

  /** What `[^/.]+` matches. */
  predicate IsExtension(e: string)
  {
    e != [] && '.' !in e && '/' !in e
  }

  lemma ExtensionAfterLastDot(s: string, i: int)
    requires i == LastIndex(s, '.')
    requires 0 <= i < |s| - 1 && '/' !in s[i + 1..]
    ensures |s[..i]| < |s| && s == s[..i] + "." + s[i + 1..]
    ensures IsExtension(s[i + 1..])
  {
    var e := s[i + 1..];
    forall k | 0 <= k < |e| ensures e[k] != '.' {
      assert e[k] == s[i + 1 + k];
    }
    assert s == s[..i] + "." + e;
  }

  lemma NoExtensionWhenNoDotTail(s: string, i: int)
    requires i == LastIndex(s, '.')
    requires !(0 <= i < |s| - 1 && '/' !in s[i + 1..])
    ensures forall j :: 0 <= j < |s| - 1 && s[j] == '.' ==> !IsExtension(s[j + 1..])
  {
    forall j | 0 <= j < |s| - 1 && s[j] == '.'
      ensures !IsExtension(s[j + 1..])
    {
      if j < i {
        assert s[j + 1..][i - j - 1] == '.';
      } else {
        assert j == i;
      }
    }
  }

  /** Stripping a genuine extension gives back the stem, whatever the stem contains. */
  lemma {:induction false} StripExtensionOf(stem: string, ext: string)
    requires IsExtension(ext)
    ensures StripExtension(stem + "." + ext) == stem
  {
    var s := stem + "." + ext;
    var i := LastIndex(s, '.');
    assert s[|stem|] == '.';
    assert forall k :: |stem| < k < |s| ==> s[k] == ext[k - |stem| - 1];
    assert i == |stem|;
    assert s[i + 1..] == ext;
    assert s[..i] == stem;
  }

  // ---------------------------------------------------------------------------
  // Decimal rendering of Date.now() in template literals

  predicate IsDigit(c: char)
  {
    '0' <= c <= '9'
  }

  function DigitChar(d: nat): (c: char)
    requires d < 10
    ensures IsDigit(c)
  {
    ('0' as int + d) as char
  }

  /** `${n}` for a non-negative integer: decimal digits, no leading zero. */
  function Decimal(n: nat): (r: string)
    ensures r != []
    ensures forall k :: 0 <= k < |r| ==> IsDigit(r[k])
    ensures |r| > 1 ==> r[0] != '0'
  {
    if n < 10 then [DigitChar(n)] else Decimal(n / 10) + [DigitChar(n % 10)]
  }

  function DigitValue(c: char): nat
    requires IsDigit(c)
  {
    c as int - '0' as int
  }

  function ParseDecimal(s: string): nat
    requires forall k :: 0 <= k < |s| ==> IsDigit(s[k])
  {
    if s == [] then 0 else ParseDecimal(s[..|s| - 1]) * 10 + DigitValue(s[|s| - 1])
  }

  lemma {:induction false} ParseDecimalOfDecimal(n: nat)
    ensures ParseDecimal(Decimal(n)) == n
  {
    if n >= 10 {
      var s := Decimal(n);
      assert s[..|s| - 1] == Decimal(n / 10);
      ParseDecimalOfDecimal(n / 10);
    }
  }

  /** Distinct timestamps render as distinct strings. */
  lemma DecimalInjective(m: nat, n: nat)
    requires Decimal(m) == Decimal(n)
    ensures m == n
  {
    ParseDecimalOfDecimal(m);
    ParseDecimalOfDecimal(n);
  }
}
