/** The form helpers shared, line for line, by both registration scripts:
    `validateEmail`, `formatPhoneNumber`, `generateStudentId` and
    `validateForm`. */
module FormHelpers {
  import opened Wrappers
  import opened Text

  // ---------------------------------------------------------------------
  // validateEmail: /^[^\s@]+@[^\s@]+\.[^\s@]+$/.test(email)
  // ---------------------------------------------------------------------

  /** Matched by the character class `[^\s@]+` (when non-empty). */
  predicate Plain(s: string)
  {
    forall k :: 0 <= k < |s| ==> !IsSpace(s[k]) && s[k] != '@'
  }

  /** `s` splits as local `@` domain-label `.` last-label at positions `i` and `j`. */
  predicate SplitsAt(s: string, i: nat, j: nat)
    requires 0 < i && i + 1 < j && j + 1 < |s|
  {
    s[i] == '@' && s[j] == '.' && Plain(s[..i]) && Plain(s[i + 1..j]) && Plain(s[j + 1..])
  }

  /** The language of the regular expression, read off its shape: three
      non-empty runs without whitespace or `@`, joined by `@` and `.`. */
  ghost predicate MatchesEmailPattern(s: string)
  {
    exists i: nat, j: nat :: 0 < i && i + 1 < j && j + 1 < |s| && SplitsAt(s, i, j)
  }

  predicate NoSpace(s: string)
  {
    forall k :: 0 <= k < |s| ==> !IsSpace(s[k])
  }

  /** A `.` that is neither the first nor the last character. */
  predicate HasInnerDot(d: string)
  {
    exists k :: 0 < k < |d| - 1 && d[k] == '.'
  }

  /** `validateEmail`: one `@`, no whitespace anywhere, a non-empty part
      before the `@`, and a `.` after it that is neither the first nor the
      last character of the part after the `@`. */
  predicate ValidateEmail(email: string)
  {
    match IndexOf(email, '@')
    case None => false
    case Some(i) => 0 < i && NoSpace(email[..i]) && Plain(email[i + 1..]) && HasInnerDot(email[i + 1..])
  }

  /** A run without whitespace or `@`, one more such character, and another
      such run, make one run. */
  lemma PlainJoin(a: string, c: char, b: string)
    requires Plain(a) && Plain(b) && !IsSpace(c) && c != '@'
    ensures Plain(a + [c] + b)
  {
    var s := a + [c] + b;
    forall k | 0 <= k < |s|
      ensures !IsSpace(s[k]) && s[k] != '@'
    {
      if k < |a| {
        assert s[k] == a[k];
      } else if k > |a| {
        assert s[k] == b[k - |a| - 1];
      }
    }
  }

  /** Every string the scan accepts is in the language of the expression. */
  lemma ValidateEmailSound(s: string)
    requires ValidateEmail(s)
    ensures MatchesEmailPattern(s)
  {
    var i := IndexOf(s, '@').value;
    var d := s[i + 1..];
    var k :| 0 < k < |d| - 1 && d[k] == '.';
    var j: nat := i + 1 + k;
    assert forall m :: 0 <= m < i ==> s[..i][m] == s[m];
    assert Plain(s[..i]);
    assert s[i + 1..j] == d[..k];
    assert s[j + 1..] == d[k + 1..];
    assert SplitsAt(s, i, j);
  }

  /** Every string in the language of the expression is accepted by the scan. */
  lemma ValidateEmailComplete(s: string)
    requires MatchesEmailPattern(s)
    ensures ValidateEmail(s)
  {
    var i: nat, j: nat :| 0 < i && i + 1 < j && j + 1 < |s| && SplitsAt(s, i, j);
    FirstAtSign(s, i);
    var d := s[i + 1..];
    assert d == s[i + 1..j] + [s[j]] + s[j + 1..];
    PlainJoin(s[i + 1..j], s[j], s[j + 1..]);
    assert d[j - i - 1] == '.';
  }

  /** An `@` with no `@` before it is the one `indexOf` finds. */
  lemma FirstAtSign(s: string, i: nat)
    requires i < |s| && s[i] == '@' && Plain(s[..i])
    ensures IndexOf(s, '@') == Some(i)
  {
    forall k | 0 <= k < i
      ensures s[k] != '@'
    {
      assert s[..i][k] == s[k];
    }
  }

  /** The scan above accepts exactly the strings the regular expression matches. */
  lemma ValidateEmailMatchesPattern(s: string)
    ensures ValidateEmail(s) <==> MatchesEmailPattern(s)
  {
    if ValidateEmail(s) {
      ValidateEmailSound(s);
    }
    if MatchesEmailPattern(s) {
      ValidateEmailComplete(s);
    }
  }

  // ---------------------------------------------------------------------
  // formatPhoneNumber
  // ---------------------------------------------------------------------

  /** `value.replace(/\D/g, '')`: every character other than `0`..`9` removed. */
  function DigitsOnly(s: string): (r: string)
    ensures AllDigits(r) && |r| <= |s|
  {
    if s == [] then [] else (if IsDigit(s[0]) then [s[0]] else []) + DigitsOnly(s[1..])
  }

  /** The value `formatPhoneNumber` writes back into the phone field. */
  function PhoneFormat(raw: string): string
  {
    var v := DigitsOnly(raw);
    if |v| >= 2 && v[..2] == "92" then "+" + v
    else if |v| >= 1 && v[0] == '0' then "+92" + v[1..]
    else if |v| >= 1 && v[0] == '3' then "+92" + v
    else v
  }

  lemma {:induction false} DigitsOnlyConcat(a: string, b: string)
    ensures DigitsOnly(a + b) == DigitsOnly(a) + DigitsOnly(b)
  {
    if a == [] {
      assert a + b == b;
    } else {
      var c := a + b;
      var head := if IsDigit(a[0]) then [a[0]] else [];
      assert c[0] == a[0] && c[1..] == a[1..] + b;
      DigitsOnlyConcat(a[1..], b);
      assert DigitsOnly(c) == head + (DigitsOnly(a[1..]) + DigitsOnly(b));
      assert DigitsOnly(a) == head + DigitsOnly(a[1..]);
      assert head + (DigitsOnly(a[1..]) + DigitsOnly(b)) == (head + DigitsOnly(a[1..])) + DigitsOnly(b);
    }
  }

  lemma {:induction false} DigitsOnlyKeepsDigits(s: string)
    requires AllDigits(s)
    ensures DigitsOnly(s) == s
  {
    if s != [] {
      DigitsOnlyKeepsDigits(s[1..]);
    }
  }

  /** A string without digits leaves nothing: every non-digit is removed. */
  lemma {:induction false} DigitsOnlyDropsNonDigits(s: string)
    requires forall k :: 0 <= k < |s| ==> !IsDigit(s[k])
    ensures DigitsOnly(s) == []
  {
    if s != [] {
      DigitsOnlyDropsNonDigits(s[1..]);
    }
  }

  /** The formatted value is the digit string, possibly behind a `+`; which
      prefix rule fired is determined by the digits. */
  lemma PhoneFormatShape(raw: string)
    ensures var v := DigitsOnly(raw); var r := PhoneFormat(raw);
      && (|v| >= 2 && v[..2] == "92" ==> r == "+" + v)
      && (!(|v| >= 2 && v[..2] == "92") && |v| >= 1 && v[0] == '0' ==> r == "+92" + v[1..])
      && (|v| >= 1 && v[0] == '3' ==> r == "+92" + v)
      && (!(|v| >= 2 && v[..2] == "92") && !(|v| >= 1 && v[0] in "03") ==> r == v)
      && (r == v || (|r| >= 3 && r[0] == '+' && AllDigits(r[1..]) && r[1..3] == "92"))
  {
    var v := DigitsOnly(raw);
    if |v| >= 2 && v[..2] == "92" {
      PlusShape(v);
    } else if |v| >= 1 && v[0] == '0' {
      NinetyTwoDigits(v[1..]);
      PlusShape("92" + v[1..]);
      assert "+92" + v[1..] == "+" + ("92" + v[1..]);
    } else if |v| >= 1 && v[0] == '3' {
      NinetyTwoDigits(v);
      PlusShape("92" + v);
      assert "+92" + v == "+" + ("92" + v);
    }
  }

  lemma NinetyTwoDigits(w: string)
    requires AllDigits(w)
    ensures AllDigits("92" + w) && |"92" + w| >= 2 && ("92" + w)[..2] == "92"
  {
  }

  lemma PlusShape(rest: string)
    requires AllDigits(rest) && |rest| >= 2 && rest[..2] == "92"
    ensures var r := "+" + rest; |r| >= 3 && r[0] == '+' && AllDigits(r[1..]) && r[1..3] == "92"
  {
    var r := "+" + rest;
    assert r[1..] == rest;
    assert r[1..3] == rest[..2];
  }

  /** Formatting its own output changes nothing, so re-running it on every
      input event is harmless. */
  lemma PhoneFormatIdempotent(raw: string)
    ensures PhoneFormat(PhoneFormat(raw)) == PhoneFormat(raw)
  {
    var r := PhoneFormat(raw);
    PhoneFormatShape(raw);
    if r == DigitsOnly(raw) {
      DigitsOnlyKeepsDigits(r);
    } else {
      var rest := r[1..];
      assert rest[..2] == r[1..3];
      assert r == "+" + rest;
      ReformatPlus(rest);
    }
  }

  /** A `+92…` value is already formatted. */
  lemma ReformatPlus(rest: string)
    requires AllDigits(rest) && |rest| >= 2 && rest[..2] == "92"
    ensures PhoneFormat("+" + rest) == "+" + rest
  {
    DigitsOnlyConcat("+", rest);
    DigitsOnlyKeepsDigits(rest);
    assert DigitsOnly("+") == [];
    assert DigitsOnly("+" + rest) == rest;
  }

  /** Formatting depends only on the digits of the input. */
  lemma PhoneFormatSeesDigitsOnly(raw: string)
    ensures PhoneFormat(raw) == PhoneFormat(DigitsOnly(raw))
  {
    DigitsOnlyKeepsDigits(DigitsOnly(raw));
  }

  // ---------------------------------------------------------------------
  // generateStudentId
  // ---------------------------------------------------------------------

  /** `Math.floor(Math.random() * 1000)`. */
  type Draw = r: nat | r < 1000

  /** `'AIMS' + Date.now().toString().slice(-6)
       + random.toString().padStart(3, '0').slice(-2)`. */
  function GenerateStudentId(now: nat, draw: Draw): string
  {
    "AIMS" + Last(Decimal(now), 6) + Last(PadZeros(Decimal(draw), 3), 2)
  }

  lemma {:induction false} Pow10Monotone(a: nat, b: nat)
    requires a <= b
    ensures Pow10(a) <= Pow10(b)
  {
    if a < b {
      Pow10Monotone(a, b - 1);
    }
  }

  /** The powers of ten the identifier's arithmetic uses. */
  lemma Pow10Values()
    ensures Pow10(2) == 100 && Pow10(3) == 1000 && Pow10(5) == 100000 && Pow10(6) == 1000000
  {
    calc {
      Pow10(6);
      10 * Pow10(5);
      { assert Pow10(5) == 10 * Pow10(4) == 10 * 10 * Pow10(3); assert Pow10(3) == 10 * Pow10(2) == 1000; }
      1000000;
    }
  }

  /** The two-character suffix: the draw, zero-padded to three digits, minus
      its first digit. */
  lemma DrawSuffix(draw: Draw)
    ensures var tail := Last(PadZeros(Decimal(draw), 3), 2);
      |tail| == 2 && AllDigits(tail) && DigitsValue(tail) == draw % 100
  {
    var d := Decimal(draw);
    Pow10Values();
    if |d| > 3 {
      Pow10Monotone(3, |d| - 1);
    }
    var p := PadZeros(d, 3);
    ZerosValue(3 - |d|, d);
    assert p == seq(3 - |d|, _ => '0') + d;
    LastDigitsValue(p, 2);
  }

  /** The clock renders with at least six digits exactly from 100000 on. */
  lemma ClockLength(now: nat)
    ensures |Decimal(now)| >= 6 <==> now >= 100000
  {
    var t := Decimal(now);
    Pow10Values();
    if |t| >= 6 {
      Pow10Monotone(5, |t| - 1);
    } else {
      Pow10Monotone(|t|, 5);
    }
  }

  /** The clock part: at most six digits denoting the clock modulo 10^6,
      exactly six when the clock reads at least 100000. */
  lemma ClockDigits(now: nat)
    ensures var t6 := Last(Decimal(now), 6);
      && 1 <= |t6| <= 6 && AllDigits(t6) && DigitsValue(t6) == now % 1000000
      && (|t6| == 6 <==> now >= 100000)
  {
    var t := Decimal(now);
    ClockLength(now);
    Pow10Values();
    if |t| >= 6 {
      LongClock(t, now);
    } else {
      ShortClock(t, now);
    }
  }

  lemma LongClock(t: string, now: nat)
    requires AllDigits(t) && DigitsValue(t) == now && |t| >= 6 && Pow10(6) == 1000000
    ensures Last(t, 6) == t[|t| - 6..] && DigitsValue(Last(t, 6)) == now % 1000000
  {
    LastDigitsValue(t, 6);
  }

  lemma ShortClock(t: string, now: nat)
    requires now < Pow10(|t|) && |t| < 6 && Pow10(6) == 1000000
    ensures Last(t, 6) == t && now % 1000000 == now
  {
    Pow10Monotone(|t|, 6);
  }

  /** The identifier is `AIMS`, then the clock's last six decimal digits,
      then the draw modulo 100 as two digits; it has twelve characters
      exactly when the clock reads at least 100000. */
  lemma StudentIdShape(now: nat, draw: Draw)
    ensures IdShape(GenerateStudentId(now, draw), now % 1000000, draw % 100)
    ensures |GenerateStudentId(now, draw)| == 12 <==> now >= 100000
  {
    var t6 := Last(Decimal(now), 6);
    var tail := Last(PadZeros(Decimal(draw), 3), 2);
    DrawSuffix(draw);
    ClockDigits(now);
    var id := GenerateStudentId(now, draw);
    IdParts(id, t6, tail);
    var clock, suffix := now % 1000000, draw % 100;
    assert DigitsValue(t6) == clock && DigitsValue(tail) == suffix;
  }

  /** `AIMS`, one to six digits denoting `clock`, then two digits denoting
      `suffix`. */
  predicate IdShape(id: string, clock: nat, suffix: nat)
  {
    && 7 <= |id| <= 12
    && id[..4] == "AIMS"
    && AllDigits(id[4..|id| - 2]) && DigitsValue(id[4..|id| - 2]) == clock
    && AllDigits(id[|id| - 2..]) && DigitsValue(id[|id| - 2..]) == suffix
  }

  lemma IdParts(id: string, t6: string, tail: string)
    requires id == "AIMS" + t6 + tail && |tail| == 2
    ensures id[..4] == "AIMS" && id[4..|id| - 2] == t6 && id[|id| - 2..] == tail
  {
  }

  // ---------------------------------------------------------------------
  // Form fields and validateForm
  // ---------------------------------------------------------------------

  /** The border/shadow style a field carries: never touched yet, the green
      "valid" style, or the red "invalid" style. */
  datatype Mark = Unmarked | MarkedValid | MarkedInvalid

  /** A form control: its current value and its validity styling. */
  class Field {
    var value: string
    var mark: Mark

    constructor (v: string)
      ensures value == v && mark == Unmarked
    {
      value := v;
      mark := Unmarked;
    }
  }

  /** `formatPhoneNumber(phoneInput)`: reformats the field's value in place. */
  method FormatPhoneNumber(phoneInput: Field)
    modifies phoneInput
    ensures phoneInput.value == PhoneFormat(old(phoneInput.value))
    ensures phoneInput.mark == old(phoneInput.mark)
  {
    phoneInput.value := PhoneFormat(phoneInput.value);
  }

  /** The email field's `blur` listener: a non-empty value that
      `validateEmail` rejects is styled invalid; any other value keeps the
      style it had. The listener never marks a field valid. */
  method CheckEmailOnBlur(emailInput: Field)
    modifies emailInput
    ensures emailInput.value == old(emailInput.value)
    ensures emailInput.value != [] && !ValidateEmail(emailInput.value) ==> emailInput.mark == MarkedInvalid
    ensures emailInput.value == [] || ValidateEmail(emailInput.value) ==> emailInput.mark == old(emailInput.mark)
  {
    if emailInput.value != [] && !ValidateEmail(emailInput.value) {
      emailInput.mark := MarkedInvalid;
    }
  }

  /** The `input` listener every control carries: a required control whose
      trimmed value is non-empty is styled valid; otherwise the style stays.
      The listener never marks a field invalid. */
  method MarkOnInput(input: Field, required: bool)
    modifies input
    ensures input.value == old(input.value)
    ensures required && !Blank(input.value) ==> input.mark == MarkedValid
    ensures !required || Blank(input.value) ==> input.mark == old(input.mark)
  {
    TrimEmptyIffBlank(input.value);
    if required && Trim(input.value) != [] {
      input.mark := MarkedValid;
    }
  }

  /** The style `validateForm` gives a field holding `value`. */
  function MarkFor(value: string): Mark
  {
    if Blank(value) then MarkedInvalid else MarkedValid
  }

  /** The body of the `forEach` callback in `validateForm`: styles one
      required field and reports whether it is blank. */
  method MarkField(field: Field) returns (blank: bool)
    modifies field
    ensures field.value == old(field.value)
    ensures blank == Blank(field.value)
    ensures field.mark == MarkFor(field.value)
  {
    TrimEmptyIffBlank(field.value);
    if Trim(field.value) == [] {
      field.mark := MarkedInvalid;
      blank := true;
    } else {
      field.mark := MarkedValid;
      blank := false;
    }
  }

  /** `validateForm` over the required fields in document order: marks every
      field, reports whether none is blank, and names the first blank field
      (the one that receives focus). */
  method ValidateForm(requiredFields: seq<Field>) returns (isValid: bool, firstInvalid: Option<nat>)
    modifies set f | f in requiredFields
    ensures forall k :: 0 <= k < |requiredFields| ==> requiredFields[k].value == old(requiredFields[k].value)
    ensures forall k :: 0 <= k < |requiredFields| ==> requiredFields[k].mark == MarkFor(requiredFields[k].value)
    ensures isValid <==> forall k :: 0 <= k < |requiredFields| ==> !Blank(requiredFields[k].value)
    ensures firstInvalid.None? <==> isValid
    ensures firstInvalid.Some? ==>
      && firstInvalid.value < |requiredFields|
      && Blank(requiredFields[firstInvalid.value].value)
      && forall k :: 0 <= k < firstInvalid.value ==> !Blank(requiredFields[k].value)
  {
    isValid := true;
    firstInvalid := None;
    var i := 0;
    while i < |requiredFields|
      invariant 0 <= i <= |requiredFields|
      invariant forall k :: 0 <= k < |requiredFields| ==> requiredFields[k].value == old(requiredFields[k].value)
      invariant forall k :: 0 <= k < i ==> requiredFields[k].mark == MarkFor(requiredFields[k].value)
      invariant isValid <==> forall k :: 0 <= k < i ==> !Blank(requiredFields[k].value)
      invariant firstInvalid.None? <==> isValid
      invariant firstInvalid.Some? ==>
        && firstInvalid.value < i
        && Blank(requiredFields[firstInvalid.value].value)
        && forall k :: 0 <= k < firstInvalid.value ==> !Blank(requiredFields[k].value)
    {
      var blank := MarkField(requiredFields[i]);
      if blank {
        isValid := false;
        if firstInvalid.None? {
          firstInvalid := Some(i);
        }
      }
      i := i + 1;
    }
  }
}
