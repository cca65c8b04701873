/** String helpers the registration scripts rely on: ECMAScript whitespace and
    `String.prototype.trim`, ASCII lower-casing, substring search, and decimal
    rendering of natural numbers. */
module Text {
  import opened Wrappers

  /** ECMAScript WhiteSpace and LineTerminator code points. `trim` strips
      exactly these, and the regular-expression class `\s` matches exactly
      these, so one predicate serves both. */
  predicate IsSpace(c: char)
  {
    c == '\t' || c == '\n' || c == '\U{000B}' || c == '\U{000C}' || c == '\r' || c == ' '
    || c == '\U{00A0}' || c == '\U{1680}' || ('\U{2000}' <= c <= '\U{200A}')
    || c == '\U{2028}' || c == '\U{2029}' || c == '\U{202F}' || c == '\U{205F}'
    || c == '\U{3000}' || c == '\U{FEFF}'
  }

  /** A value made of whitespace only (possibly empty). */
  predicate Blank(s: string)
  {
    forall k :: 0 <= k < |s| ==> IsSpace(s[k])
  }

  /** `s` has no whitespace at either end. */
  predicate Trimmed(s: string)
  {
    s == [] || (!IsSpace(s[0]) && !IsSpace(s[|s| - 1]))
  }

  /** Drops leading whitespace. Its characterisation is `TrimStartSpec`,
      kept out of the contract so that callers do not pay for it. */
  function TrimStart(s: string): (r: string)
    ensures |r| <= |s|
  {
    if s != [] && IsSpace(s[0]) then TrimStart(s[1..]) else s
  }

  /** Drops trailing whitespace; characterised by `TrimEndSpec`. */
  function TrimEnd(s: string): (r: string)
    ensures |r| <= |s|
  {
    if s != [] && IsSpace(s[|s| - 1]) then TrimEnd(s[..|s| - 1]) else s
  }

  /** `TrimStart` removes a whitespace-only prefix, and the rest does not
      start with whitespace. */
  lemma {:induction false} TrimStartSpec(s: string)
    ensures var r := TrimStart(s);
      && r == s[|s| - |r|..]
      && Blank(s[..|s| - |r|])
      && (r == [] || !IsSpace(r[0]))
  {
    if s != [] && IsSpace(s[0]) {
      TrimStartSpec(s[1..]);
      var r := TrimStart(s[1..]);
      assert s[1..][..|s| - 1 - |r|] == s[1..|s| - |r|];
      assert s[1..][|s| - 1 - |r|..] == s[|s| - |r|..];
    }
  }

  /** `TrimEnd` removes a whitespace-only suffix, and the rest does not end
      with whitespace. */
  lemma {:induction false} TrimEndSpec(s: string)
    ensures var r := TrimEnd(s);
      && r == s[..|r|]
      && Blank(s[|r|..])
      && (r == [] || !IsSpace(r[|r| - 1]))
  {
    if s != [] && IsSpace(s[|s| - 1]) {
      TrimEndSpec(s[..|s| - 1]);
      var r := TrimEnd(s[..|s| - 1]);
      assert s[..|s| - 1][|r|..] == s[|r|..|s| - 1];
      assert s[..|s| - 1][..|r|] == s[..|r|];
    }
  }

  /** `String.prototype.trim`. */
  function Trim(s: string): string
  {
    TrimEnd(TrimStart(s))
  }

  /** The result of `trim` is the slice of `s` left after removing a
      whitespace-only prefix and a whitespace-only suffix, and has no
      whitespace at either end. */
  lemma TrimIsCore(s: string)
    ensures Trimmed(Trim(s))
    ensures exists i, j :: 0 <= i <= j <= |s| && Trim(s) == s[i..j] && Blank(s[..i]) && Blank(s[j..])
  {
    var t := TrimStart(s);
    var r := TrimEnd(t);
    TrimStartSpec(s);
    TrimEndSpec(t);
    var i := |s| - |t|;
    var j := i + |r|;
    assert r == t[..|r|] == s[i..j];
    assert s[j..] == t[|r|..];
    if r != [] {
      assert r[0] == t[0];
    }
  }

  /** `!value.trim()`: trimming leaves the empty (falsy) string exactly when
      the value is blank. */
  lemma TrimEmptyIffBlank(s: string)
    ensures Trim(s) == [] <==> Blank(s)
  {
    var t := TrimStart(s);
    TrimStartSpec(s);
    TrimEndSpec(t);
    if Trim(s) == [] {
      assert TrimEnd(t) == [];
      assert Blank(t[0..]);
      assert s == s[..|s| - |t|] + t;
    }
  }

  /** Trimming twice is trimming once. */
  lemma TrimIdempotent(s: string)
    ensures Trim(Trim(s)) == Trim(s)
  {
    var r := Trim(s);
    TrimIsCore(s);
    if r != [] {
      assert TrimStart(r) == r;
      assert TrimEnd(r) == r;
    }
  }

  predicate IsUpperAscii(c: char)
  {
    'A' <= c <= 'Z'
  }

  /** `toLowerCase`, restricted to the ASCII letters: `A`..`Z` become the
      letter 32 code points later (`a`..`z`), everything else is unchanged. */
  function LowerChar(c: char): (r: char)
    ensures IsUpperAscii(c) ==> 'a' <= r <= 'z' && r as int - 'a' as int == c as int - 'A' as int
    ensures !IsUpperAscii(c) ==> r == c
    ensures !IsUpperAscii(r)
  {
    if IsUpperAscii(c) then (c as int + 32) as char else c
  }

  function ToLower(s: string): (r: string)
    ensures |r| == |s|
    ensures forall k :: 0 <= k < |s| ==> r[k] == LowerChar(s[k])
  {
    seq(|s|, k requires 0 <= k < |s| => LowerChar(s[k]))
  }

  /** The first index of `c` in `s`, if any. */
  function IndexOf(s: string, c: char): (r: Option<nat>)
    ensures r.None? ==> forall k :: 0 <= k < |s| ==> s[k] != c
    ensures r.Some? ==> r.value < |s| && s[r.value] == c && forall k :: 0 <= k < r.value ==> s[k] != c
  {
    if s == [] then None
    else if s[0] == c then Some(0)
    else match IndexOf(s[1..], c)
      case None => None
      case Some(i) => Some(i + 1)
  }

  /** `haystack.includes(needle)`. */
  predicate Contains(haystack: string, needle: string)
  {
    exists i :: 0 <= i <= |haystack| - |needle| && OccursAt(haystack, needle, i)
  }

  predicate OccursAt(haystack: string, needle: string, i: nat)
    requires i + |needle| <= |haystack|
  {
    haystack[i..i + |needle|] == needle
  }

  predicate IsDigit(c: char)
  {
    '0' <= c <= '9'
  }

  predicate AllDigits(s: string)
  {
    forall k :: 0 <= k < |s| ==> IsDigit(s[k])
  }

  function DigitChar(d: nat): (c: char)
    requires d < 10
    ensures IsDigit(c)
  {
    ('0' as int + d) as char
  }

  /** The number a string of decimal digits denotes. */
  function DigitsValue(s: string): nat
    requires AllDigits(s)
  {
    if s == [] then 0 else DigitsValue(s[..|s| - 1]) * 10 + (s[|s| - 1] as int - '0' as int)
  }

  function Pow10(k: nat): (p: nat)
    ensures p >= 1
  {
    if k == 0 then 1 else 10 * Pow10(k - 1)
  }

  /** `n.toString()` for a non-negative integer. */
  function Decimal(n: nat): (s: string)
    ensures AllDigits(s) && |s| >= 1
    ensures DigitsValue(s) == n
    ensures n < Pow10(|s|)
    ensures |s| > 1 ==> n >= Pow10(|s| - 1)
  {
    if n < 10 then [DigitChar(n)]
    else
      var s := Decimal(n / 10) + [DigitChar(n % 10)];
      assert s[..|s| - 1] == Decimal(n / 10);
      s
  }

  /** `s.slice(-k)`: the last `k` characters, or all of `s` when shorter. */
  function Last(s: string, k: nat): (r: string)
    ensures |r| == if |s| < k then |s| else k
    ensures r == s[|s| - |r|..]
  {
    if |s| < k then s else s[|s| - k..]
  }

  /** A string of `'0'` characters only (possibly empty). */
  predicate Zeros(s: string)
  {
    forall k :: 0 <= k < |s| ==> s[k] == '0'
  }

  /** `s.padStart(n, '0')`: `s` behind as many `'0'`s as reach length `n`. */
  function PadZeros(s: string, n: nat): (r: string)
    ensures |r| == if |s| < n then n else |s|
  {
    if |s| < n then seq(n - |s|, _ => '0') + s else s
  }

  /** What `padStart(n, '0')` holds: `s` ends the result and every
      character in front of it is a `'0'`. Kept apart from `PadZeros` so
      that the many callers of `PadZeros` do not carry it. */
  lemma PadZerosContents(s: string, n: nat)
    ensures PadZeros(s, n)[|PadZeros(s, n)| - |s|..] == s
    ensures Zeros(PadZeros(s, n)[..|PadZeros(s, n)| - |s|])
  {
  }

  /** The last `k` digits of a digit string denote its value modulo 10^k. */
  lemma {:induction false} LastDigitsValue(s: string, k: nat)
    requires AllDigits(s) && k <= |s|
    ensures DigitsValue(s[|s| - k..]) == DigitsValue(s) % Pow10(k)
  {
    if k > 0 {
      var n := |s|;
      var init := s[..n - 1];
      var d := s[n - 1] as int - '0' as int;
      LastDigitsValue(init, k - 1);
      var tail := s[n - k..];
      assert tail[..|tail| - 1] == init[|init| - (k - 1)..];
      ModTimesTen(DigitsValue(init), d, Pow10(k - 1));
    }
  }

  lemma ModTimesTen(a: nat, d: nat, p: nat)
    requires d < 10 && p >= 1
    ensures (a % p) * 10 + d == (a * 10 + d) % (10 * p)
  {
    var q := a / p;
    var m := a % p;
    assert a * 10 + d == q * (10 * p) + (m * 10 + d);
    assert 0 <= m * 10 + d < 10 * p;
    DivModUnique(a * 10 + d, 10 * p, q, m * 10 + d);
  }

  lemma DivModUnique(x: int, p: int, q: int, m: int)
    requires p >= 1 && 0 <= m < p && x == q * p + m
    ensures x % p == m
  {
    var q', m' := x / p, x % p;
    assert x == q' * p + m';
    if q' > q {
      assert (q' - q) * p == m - m';
      MulAtLeast(q' - q, p);
    } else if q' < q {
      assert (q - q') * p == m' - m;
      MulAtLeast(q - q', p);
    }
  }

  lemma MulAtLeast(t: int, p: int)
    requires t >= 1 && p >= 1
    ensures t * p >= p
  {
  }

  /** Leading zeros do not change the value of a digit string. */
  lemma {:induction false} ZerosValue(z: nat, s: string)
    requires AllDigits(s)
    ensures AllDigits(seq(z, _ => '0') + s)
    ensures DigitsValue(seq(z, _ => '0') + s) == DigitsValue(s)
  {
    var p := seq(z, _ => '0') + s;
    if s == [] {
      assert AllDigits(p);
      ZerosAreZero(z);
      assert p == seq(z, _ => '0');
    } else {
      ZerosValue(z, s[..|s| - 1]);
      assert p[..|p| - 1] == seq(z, _ => '0') + s[..|s| - 1];
    }
  }

  lemma {:induction false} ZerosAreZero(z: nat)
    ensures AllDigits(seq(z, _ => '0'))
    ensures DigitsValue(seq(z, _ => '0')) == 0
  {
    if z > 0 {
      ZerosAreZero(z - 1);
      assert seq(z, _ => '0')[..z - 1] == seq(z - 1, _ => '0');
    }
  }
}
