/** `encodeURIComponent` as ECMA-262 5.1 defines it (section 15.1.3.4, with
    the Encode operation of section 15.1.3): every character outside the
    unescaped set is written as the UTF-8 bytes of its code point, each as
    `%` and two upper-case hexadecimal digits (percent-encoding, section 2.1
    of RFC 3986; UTF-8, section 3 of RFC 3629). Beside it, the reading a
    receiver applies (`decodeURIComponent`, section 15.1.3.2) and the
    `application/x-www-form-urlencoded` body that js/script.js builds from a
    record, with the proof that the body gives back the original pairs. */
module UriComponent {
  import opened Wrappers
  import opened Text

  type Byte = b: int | 0 <= b < 256

  /** uriAlpha, DecimalDigit and uriMark: what `encodeURIComponent` copies
      through unchanged. */
  predicate Unescaped(c: char)
  {
    ('A' <= c <= 'Z') || ('a' <= c <= 'z') || ('0' <= c <= '9')
    || c == '-' || c == '_' || c == '.' || c == '!' || c == '~' || c == '*' || c == '\'' || c == '(' || c == ')'
  }

  /** The characters an encoded component can contain. */
  predicate UriSafe(c: char)
  {
    Unescaped(c) || c == '%'
  }

  // ---------------------------------------------------------------------
  // UTF-8
  // ---------------------------------------------------------------------

  predicate IsContinuation(b: Byte)
  {
    0x80 <= b < 0xC0
  }

  /** The UTF-8 encoding of one code point. */
  function Utf8(c: char): (bs: seq<Byte>)
    ensures 1 <= |bs| <= 4
  {
    var n := c as int;
    if n < 0x80 then [n]
    else if n < 0x800 then [0xC0 + n / 64, 0x80 + n % 64]
    else if n < 0x10000 then [0xE0 + n / 4096, 0x80 + (n / 64) % 64, 0x80 + n % 64]
    else [0xF0 + n / 262144, 0x80 + (n / 4096) % 64, 0x80 + (n / 64) % 64, 0x80 + n % 64]
  }

  /** How many bytes a sequence starting with lead byte `b` has, or 0 when
      `b` cannot start one. */
  function SequenceLength(b: Byte): (n: nat)
    ensures n <= 4
  {
    if b < 0x80 then 1
    else if 0xC0 <= b < 0xE0 then 2
    else if 0xE0 <= b < 0xF0 then 3
    else if 0xF0 <= b < 0xF8 then 4
    else 0
  }

  /** Reads one code point from exactly the bytes `bs`, rejecting stray
      continuation bytes, overlong forms, surrogates and values past
      U+10FFFF. */
  function Utf8Decode(bs: seq<Byte>): Option<char>
  {
    if |bs| == 1 && bs[0] < 0x80 then Some(bs[0] as char)
    else if |bs| == 2 && 0xC0 <= bs[0] < 0xE0 && IsContinuation(bs[1]) then
      var cp := (bs[0] as int - 0xC0) * 64 + (bs[1] as int - 0x80);
      if 0x80 <= cp then Some(cp as char) else None
    else if |bs| == 3 && 0xE0 <= bs[0] < 0xF0 && IsContinuation(bs[1]) && IsContinuation(bs[2]) then
      var cp := (bs[0] as int - 0xE0) * 4096 + (bs[1] as int - 0x80) * 64 + (bs[2] as int - 0x80);
      if 0x800 <= cp && !(0xD800 <= cp < 0xE000) then Some(cp as char) else None
    else if |bs| == 4 && 0xF0 <= bs[0] < 0xF8 && IsContinuation(bs[1]) && IsContinuation(bs[2]) && IsContinuation(bs[3]) then
      var cp := (bs[0] as int - 0xF0) * 262144 + (bs[1] as int - 0x80) * 4096 + (bs[2] as int - 0x80) * 64 + (bs[3] as int - 0x80);
      if 0x10000 <= cp < 0x110000 then Some(cp as char) else None
    else None
  }

  /** Decoding the UTF-8 encoding of a code point gives the code point back,
      and the lead byte announces the right length. */
  lemma Utf8RoundTrip(c: char)
    ensures SequenceLength(Utf8(c)[0]) == |Utf8(c)|
    ensures Utf8Decode(Utf8(c)) == Some(c)
  {
    var n := c as int;
    var bs := Utf8(c);
    if n < 0x80 {
    } else if n < 0x800 {
      TwoByteValue(n);
    } else if n < 0x10000 {
      ThreeByteValue(n);
    } else {
      FourByteValue(n);
    }
  }

  lemma TwoByteValue(n: int)
    requires 0x80 <= n < 0x800
    ensures (n / 64) * 64 + n % 64 == n
  {
  }

  lemma ThreeByteValue(n: int)
    requires 0x800 <= n < 0x10000
    ensures (n / 4096) * 4096 + ((n / 64) % 64) * 64 + n % 64 == n
  {
    var q := n / 64;
    assert n == q * 64 + n % 64;
    assert q == (q / 64) * 64 + q % 64;
    assert q / 64 == n / 4096;
  }

  lemma FourByteValue(n: int)
    requires 0x10000 <= n < 0x110000
    ensures (n / 262144) * 262144 + ((n / 4096) % 64) * 4096 + ((n / 64) % 64) * 64 + n % 64 == n
  {
    var q := n / 64;
    var q2 := q / 64;
    assert n == q * 64 + n % 64;
    assert q == q2 * 64 + q % 64;
    assert q2 == (q2 / 64) * 64 + q2 % 64;
    assert q2 == n / 4096;
    assert q2 / 64 == n / 262144;
  }

  // ---------------------------------------------------------------------
  // Percent-encoding of bytes
  // ---------------------------------------------------------------------

  function HexDigit(d: nat): (c: char)
    requires d < 16
    ensures Unescaped(c)
  {
    if d < 10 then ('0' as int + d) as char else ('A' as int + d - 10) as char
  }

  /** The value of a hexadecimal digit of either case. */
  function HexValue(c: char): (r: Option<nat>)
    ensures r.Some? ==> r.value < 16
  {
    if '0' <= c <= '9' then Some(c as int - '0' as int)
    else if 'A' <= c <= 'F' then Some(c as int - 'A' as int + 10)
    else if 'a' <= c <= 'f' then Some(c as int - 'a' as int + 10)
    else None
  }

  /** `%XY` for one byte. */
  function Percent(b: Byte): (s: string)
    ensures |s| == 3 && s[0] == '%'
  {
    ['%', HexDigit(b / 16), HexDigit(b % 16)]
  }

  function PercentAll(bs: seq<Byte>): (s: string)
    ensures |s| == 3 * |bs|
  {
    if bs == [] then [] else Percent(bs[0]) + PercentAll(bs[1..])
  }

  /** The byte written as `%XY` at the start of `s`, if there is one. */
  function ReadByte(s: string): Option<Byte>
  {
    if |s| >= 3 && s[0] == '%' then
      match (HexValue(s[1]), HexValue(s[2]))
      case (Some(h), Some(l)) => Some(h * 16 + l)
      case _ => None
    else None
  }

  /** `n` consecutive `%XY` groups at the start of `s`. */
  function ReadBytes(s: string, n: nat): (r: Option<seq<Byte>>)
    ensures r.Some? ==> |r.value| == n && 3 * n <= |s|
  {
    if n == 0 then Some([])
    else match ReadByte(s)
      case None => None
      case Some(b) =>
        match ReadBytes(s[3..], n - 1)
        case None => None
        case Some(rest) => Some([b] + rest)
  }

  lemma ReadPercent(b: Byte, t: string)
    ensures ReadByte(Percent(b) + t) == Some(b)
  {
    var s := Percent(b) + t;
    assert HexValue(s[1]) == Some(b / 16);
    assert HexValue(s[2]) == Some(b % 16);
  }

  lemma {:induction false} ReadPercentAll(bs: seq<Byte>, t: string)
    ensures ReadBytes(PercentAll(bs) + t, |bs|) == Some(bs)
  {
    if bs != [] {
      var rest := PercentAll(bs[1..]) + t;
      var s := PercentAll(bs) + t;
      assert s == Percent(bs[0]) + rest;
      ReadPercent(bs[0], rest);
      assert ReadByte(s) == Some(bs[0]);
      assert s[3..] == rest;
      ReadPercentAll(bs[1..], t);
      assert ReadBytes(s[3..], |bs| - 1) == Some(bs[1..]);
      assert [bs[0]] + bs[1..] == bs;
    }
  }

  // ---------------------------------------------------------------------
  // encodeURIComponent and decodeURIComponent
  // ---------------------------------------------------------------------

  function EncodeChar(c: char): (s: string)
    ensures |s| >= 1
  {
    if Unescaped(c) then [c] else PercentAll(Utf8(c))
  }

  lemma {:induction false} PercentAllSafe(bs: seq<Byte>)
    ensures forall k :: 0 <= k < |PercentAll(bs)| ==> UriSafe(PercentAll(bs)[k])
  {
    if bs != [] {
      PercentAllSafe(bs[1..]);
      var s := PercentAll(bs);
      assert s == Percent(bs[0]) + PercentAll(bs[1..]);
      forall k | 0 <= k < |s| ensures UriSafe(s[k]) {
        if k >= 3 {
          assert s[k] == PercentAll(bs[1..])[k - 3];
        }
      }
    }
  }

  /** `encodeURIComponent(s)`; its output uses only unescaped characters and
      `%`, so in particular never `=` or `&`. */
  function EncodeURIComponent(s: string): (r: string)
    ensures forall k :: 0 <= k < |r| ==> UriSafe(r[k])
  {
    if s == [] then []
    else
      var head := EncodeChar(s[0]);
      var rest := EncodeURIComponent(s[1..]);
      PercentAllSafe(Utf8(s[0]));
      assert forall k :: 0 <= k < |head| ==> UriSafe(head[k]);
      assert forall k :: |head| <= k < |head + rest| ==> (head + rest)[k] == rest[k - |head|];
      head + rest
  }

  /** Reads one `%XY...` escape at the start of `s`: the character and the
      number of input characters it spans. */
  function DecodeEscape(s: string): (r: Option<(char, nat)>)
    ensures r.Some? ==> 3 <= r.value.1 <= |s|
  {
    match ReadByte(s)
    case None => None
    case Some(b0) =>
      var n := SequenceLength(b0);
      if n == 0 then None
      else match ReadBytes(s, n)
        case None => None
        case Some(bs) =>
          match Utf8Decode(bs)
          case None => None
          case Some(c) => Some((c, 3 * n))
  }

  /** `decodeURIComponent(s)`; `None` where it throws `URIError`. */
  function DecodeURIComponent(s: string): Option<string>
    decreases |s|
  {
    if s == [] then Some([])
    else if s[0] != '%' then
      match DecodeURIComponent(s[1..])
      case None => None
      case Some(rest) => Some([s[0]] + rest)
    else
      match DecodeEscape(s)
      case None => None
      case Some((c, used)) =>
        match DecodeURIComponent(s[used..])
        case None => None
        case Some(rest) => Some([c] + rest)
  }

  function Prepend(c: char, r: Option<string>): Option<string>
  {
    match r
    case None => None
    case Some(rest) => Some([c] + rest)
  }

  /** The escapes written for a character that is not copied read back as
      that character, spanning exactly those escapes. */
  lemma DecodeEscapeOfEncoded(c: char, t: string)
    requires !Unescaped(c)
    ensures DecodeEscape(PercentAll(Utf8(c)) + t) == Some((c, 3 * |Utf8(c)|))
  {
    var bs := Utf8(c);
    var s := PercentAll(bs) + t;
    Utf8RoundTrip(c);
    ReadPercentAll(bs, t);
    assert s == Percent(bs[0]) + (PercentAll(bs[1..]) + t);
    ReadPercent(bs[0], PercentAll(bs[1..]) + t);
    assert ReadByte(s) == Some(bs[0]);
    assert SequenceLength(bs[0]) == |bs|;
    assert ReadBytes(s, |bs|) == Some(bs);
    assert Utf8Decode(bs) == Some(c);
  }

  lemma DecodeEncodedChar(c: char, t: string)
    ensures DecodeURIComponent(EncodeChar(c) + t) == Prepend(c, DecodeURIComponent(t))
  {
    var e := EncodeChar(c);
    var s := e + t;
    if Unescaped(c) {
      assert s[0] == c && s[1..] == t;
    } else {
      DecodeEscapeOfEncoded(c, t);
      assert e == PercentAll(Utf8(c)) && |e| == 3 * |Utf8(c)|;
      assert s[0] == '%';
      assert s[|e|..] == t;
    }
  }

  /** Decoding an encoded string gives the string back. */
  lemma {:induction false} DecodeEncode(s: string)
    ensures DecodeURIComponent(EncodeURIComponent(s)) == Some(s)
  {
    if s != [] {
      DecodeEncode(s[1..]);
      DecodeEncodedChar(s[0], EncodeURIComponent(s[1..]));
      assert [s[0]] + s[1..] == s;
    }
  }

  // ---------------------------------------------------------------------
  // The form body: key=value pairs joined by '&'
  // ---------------------------------------------------------------------

  /** `encodeURIComponent(key) + '=' + encodeURIComponent(value)`. */
  function EncodePair(p: (string, string)): string
  {
    EncodeURIComponent(p.0) + "=" + EncodeURIComponent(p.1)
  }

  /** `pairs.map(EncodePair).join('&')`. */
  function FormBody(pairs: seq<(string, string)>): string
  {
    if pairs == [] then ""
    else if |pairs| == 1 then EncodePair(pairs[0])
    else EncodePair(pairs[0]) + "&" + FormBody(pairs[1..])
  }

  /** `s.split(d)`. */
  function SplitOn(s: string, d: char): (parts: seq<string>)
    ensures |parts| >= 1
  {
    if s == [] then [[]]
    else
      var rest := SplitOn(s[1..], d);
      if s[0] == d then [[]] + rest else [[s[0]] + rest[0]] + rest[1..]
  }

  /** Reads one `key=value` part, splitting at the first `=`. */
  function ParsePair(part: string): Option<(string, string)>
  {
    match IndexOf(part, '=')
    case None => None
    case Some(i) =>
      match (DecodeURIComponent(part[..i]), DecodeURIComponent(part[i + 1..]))
      case (Some(k), Some(v)) => Some((k, v))
      case _ => None
  }

  function ParsePairs(parts: seq<string>): Option<seq<(string, string)>>
  {
    if parts == [] then Some([])
    else match (ParsePair(parts[0]), ParsePairs(parts[1..]))
      case (Some(p), Some(ps)) => Some([p] + ps)
      case _ => None
  }

  /** How a receiver reads an `application/x-www-form-urlencoded` body. */
  function ParseFormBody(body: string): Option<seq<(string, string)>>
  {
    ParsePairs(SplitOn(body, '&'))
  }

  lemma {:induction false} SplitOnPlain(a: string, d: char)
    requires forall k :: 0 <= k < |a| ==> a[k] != d
    ensures SplitOn(a, d) == [a]
  {
    if a != [] {
      SplitOnPlain(a[1..], d);
      assert [a[0]] + a[1..] == a;
    }
  }

  lemma {:induction false} SplitOnJoin(a: string, d: char, b: string)
    requires forall k :: 0 <= k < |a| ==> a[k] != d
    ensures SplitOn(a + [d] + b, d) == [a] + SplitOn(b, d)
  {
    var s := a + [d] + b;
    if a == [] {
      assert s[1..] == b;
    } else {
      assert s[1..] == a[1..] + [d] + b;
      SplitOnJoin(a[1..], d, b);
      assert [a[0]] + a[1..] == a;
    }
  }

  lemma JoinedAtEquals(a: string, b: string)
    requires forall k :: 0 <= k < |a| ==> UriSafe(a[k])
    requires forall k :: 0 <= k < |b| ==> UriSafe(b[k])
    ensures var s := a + "=" + b;
      && IndexOf(s, '=') == Some(|a|) && s[..|a|] == a && s[|a| + 1..] == b
      && forall k :: 0 <= k < |s| ==> s[k] != '&'
  {
    var s := a + "=" + b;
    assert forall k :: 0 <= k < |s| ==> (k < |a| ==> s[k] == a[k]) && (k > |a| ==> s[k] == b[k - |a| - 1]);
    assert s[|a|] == '=';
  }

  lemma EncodePairShape(p: (string, string))
    ensures forall k :: 0 <= k < |EncodePair(p)| ==> EncodePair(p)[k] != '&'
    ensures ParsePair(EncodePair(p)) == Some(p)
  {
    JoinedAtEquals(EncodeURIComponent(p.0), EncodeURIComponent(p.1));
    DecodeEncode(p.0);
    DecodeEncode(p.1);
  }

  /** Splitting a form body on `&`, each part at its first `=`, and decoding
      both halves gives back the pairs it was built from, in order. */
  lemma {:induction false} FormBodyRoundTrip(pairs: seq<(string, string)>)
    requires pairs != []
    ensures ParseFormBody(FormBody(pairs)) == Some(pairs)
  {
    var e := EncodePair(pairs[0]);
    EncodePairShape(pairs[0]);
    if |pairs| == 1 {
      SplitOnPlain(e, '&');
      ParsePairsCons(e, []);
      assert [e] + [] == [e];
      assert [pairs[0]] + [] == pairs;
    } else {
      var rest := FormBody(pairs[1..]);
      FormBodyRoundTrip(pairs[1..]);
      SplitOnJoin(e, '&', rest);
      assert FormBody(pairs) == e + ['&'] + rest;
      ParsePairsCons(e, SplitOn(rest, '&'));
      assert [pairs[0]] + pairs[1..] == pairs;
    }
  }

  lemma ParsePairsCons(part: string, parts: seq<string>)
    requires ParsePair(part).Some? && ParsePairs(parts).Some?
    ensures ParsePairs([part] + parts) == Some([ParsePair(part).value] + ParsePairs(parts).value)
  {
    var all := [part] + parts;
    assert all[0] == part && all[1..] == parts;
  }
}
