/**
 * Integer <-> text conversion in bases 2, 8, 10 and 16: `from_chars`, which
 * parses a view of characters into an integer of a given type, and
 * `to_chars`, which renders an integer into a fixed-size character buffer.
 *
 * A string view is given here by the characters it shows and a `Span<char>`
 * by the characters of its buffer (the views themselves are modelled in
 * `StringViews` and `Spans`). The `out` parameter of `from_chars` and the
 * buffer of `to_chars` are returned alongside the status, since both are
 * observable after a failure.
 *
 * The positional value of a digit string is `Fold`, an unchecked left fold;
 * the rendered text of a value is `Text`, a prefix, a sign and the digits
 * most significant first. The parser's checked loop and the renderer's
 * buffer walk are proved against these two.
 */
module CharConv {
  import opened IntKinds
  import Optional
  import Results
  import Errors
  import Memory

  const BaseHex: int := 16
  const BaseDec: int := 10
  const BaseOct: int := 8
  const BaseBin: int := 2

  /** The bases both conversions accept. */
  predicate ValidBase(base: int) {
    base == BaseBin || base == BaseOct || base == BaseDec || base == BaseHex
  }

  /** `isspace`: only space, tab and newline; no blank is a digit of any
      base. */
  function IsSpace(c: char): (b: bool)
    ensures b <==> c in [' ', '\t', '\n']
    ensures b ==> DigitValue(c).None?
  {
    c == ' ' || c == '\t' || c == '\n'
  }

  /** `tolower`: adds 0x20; it is applied to upper-case letters only. */
  function ToLower(c: char): (r: char)
    requires 'A' <= c <= 'Z'
    ensures 'a' <= r <= 'z' && r as int - c as int == 0x20
  {
    (c as int + 0x20) as char
  }

  /** `digit_value_`: the value of a decimal digit or a hexadecimal letter of
      either case, and nothing for any other character. */
  function DigitValue(ch: char): (d: Optional.Option<nat>)
    ensures d.Some? <==> ('0' <= ch <= '9' || 'A' <= ch <= 'F' || 'a' <= ch <= 'f')
    ensures d.Some? ==> d.value < 16
    ensures d.Some? && d.value < 10 <==> '0' <= ch <= '9'
  {
    if '0' <= ch <= '9' then Optional.Some(ch as int - '0' as int)
    else if 'A' <= ch <= 'F' then Optional.Some(ch as int - 'A' as int + 10)
    else if 'a' <= ch <= 'f' then Optional.Some(ch as int - 'a' as int + 10)
    else Optional.None
  }

  /** `is_digit_`: upper-case letters are folded to lower case first, then
      the character is tested against the base; an unknown base has no
      digits. */
  function IsDigit(ch: char, base: int): (b: bool)
    ensures b <==> ValidBase(base) && DigitValue(ch).Some? && DigitValue(ch).value < base
  {
    var c := if 'A' <= ch <= 'Z' then ToLower(ch) else ch;
    if base == BaseBin then c == '1' || c == '0'
    else if base == BaseHex then ('a' <= c <= 'f') || ('0' <= c <= '9')
    else if base == BaseDec then '0' <= c <= '9'
    else if base == BaseOct then '0' <= c <= '7'
    else false
  }

  /** A character is a digit of a base exactly when the base is valid and
      `digit_value_` gives it a value below the base; so the `MUST` on
      `digit_value_` in the parsing loop never fires. */
  lemma IsDigitMeansValueBelowBase(ch: char, base: int)
    ensures IsDigit(ch, base) <==>
            ValidBase(base) && DigitValue(ch).Some? && DigitValue(ch).value < base
  {
  }

  /** The character `to_chars_` writes for a digit: `'0' + rem` below ten,
      else `'A' + (rem - 10)`. */
  function DigitChar(rem: nat): (c: char)
    requires rem < 16
    ensures DigitValue(c) == Optional.Some(rem)
    ensures !IsSpace(c) && c != '+' && c != '-'
  {
    if rem < 10 then (rem + '0' as int) as char else ((rem - 10) + 'A' as int) as char
  }

  lemma DigitCharIsDigit(rem: nat, base: int)
    requires ValidBase(base) && rem < base
    ensures IsDigit(DigitChar(rem), base)
  {
    IsDigitMeansValueBelowBase(DigitChar(rem), base);
  }

  // ---------------------------------------------------------------------
  // Parsing
  // ---------------------------------------------------------------------

  /** The value of a digit string read most significant first, without any
      bound: each digit multiplies what was read so far by the base. */
  function Fold(base: int, acc: int, s: seq<char>): int
    requires forall i :: 0 <= i < |s| ==> DigitValue(s[i]).Some?
    decreases |s|
  {
    if s == [] then acc else Fold(base, acc * base + DigitValue(s[0]).value, s[1..])
  }

  /** Appending a digit multiplies the value by the base and adds the digit. */
  lemma {:induction false} FoldSnoc(base: int, acc: int, s: seq<char>, c: char)
    requires forall i :: 0 <= i < |s| ==> DigitValue(s[i]).Some?
    requires DigitValue(c).Some?
    ensures Fold(base, acc, s + [c]) == Fold(base, acc, s) * base + DigitValue(c).value
    decreases |s|
  {
    if s == [] {
      assert [c][1..] == [];
    } else {
      assert (s + [c])[1..] == s[1..] + [c];
      FoldSnoc(base, acc * base + DigitValue(s[0]).value, s[1..], c);
    }
  }

  /** Reading more digits never makes the value smaller. */
  lemma {:induction false} FoldGrows(base: int, acc: int, s: seq<char>)
    requires base >= 1 && acc >= 0
    requires forall i :: 0 <= i < |s| ==> DigitValue(s[i]).Some?
    ensures Fold(base, acc, s) >= acc
    decreases |s|
  {
    if s != [] {
      var next := acc * base + DigitValue(s[0]).value;
      assert next >= acc by { assert acc * base >= acc * 1; }
      FoldGrows(base, next, s[1..]);
    }
  }

  /** The leading run of digits of the base: where the parsing loop stops. */
  function Run(s: seq<char>, base: int): (r: seq<char>)
    ensures |r| <= |s| && r == s[..|r|]
    ensures forall i :: 0 <= i < |r| ==> IsDigit(r[i], base)
    ensures forall i :: 0 <= i < |r| ==> DigitValue(r[i]).Some?
    ensures |r| < |s| ==> !IsDigit(s[|r|], base)
  {
    if |s| > 0 && IsDigit(s[0], base) then
      IsDigitMeansValueBelowBase(s[0], base);
      [s[0]] + Run(s[1..], base)
    else []
  }

  /** What the digit loop leaves: the accumulated value and whether it
      stopped on the overflow check. */
  datatype Scan = Scan(acc: int, overflow: bool)

  /** The digit loop of `from_chars_`, from accumulated value `acc`: while
      the next character is a digit, fail if `acc > (limit - digit) / base`,
      else set `acc` to `acc * base + digit`. The source's bound is the
      type's maximum. */
  function Accumulate(base: int, s: seq<char>, acc: int, limit: int): (r: Scan)
    requires ValidBase(base) && 0 <= acc <= limit && 16 <= limit
    ensures 0 <= r.acc <= limit
  {
    if |s| > 0 && IsDigit(s[0], base) then
      IsDigitMeansValueBelowBase(s[0], base);
      var digit := DigitValue(s[0]).value;
      if acc > (limit - digit) / base then Scan(acc, true)
      else
        OverflowCheck(acc, digit, limit, base);
        Accumulate(base, s[1..], acc * base + digit, limit)
    else Scan(acc, false)
  }

  /** The loop's division test is exact: it fails precisely when the next
      step would exceed the bound. */
  lemma OverflowCheck(acc: int, d: int, limit: int, base: int)
    requires acc >= 0 && 0 <= d <= limit && base >= 1
    ensures acc > (limit - d) / base <==> acc * base + d > limit
  {
    var q := (limit - d) / base;
    var r := (limit - d) % base;
    assert limit - d == q * base + r && 0 <= r < base;
    if acc > q {
      MulMono(q + 1, acc, base);
      assert (q + 1) * base == q * base + base;
    } else {
      MulMono(acc, q, base);
    }
  }

  /** Multiplying by a non-negative factor keeps the order. */
  lemma MulMono(x: int, y: int, b: int)
    requires x <= y && b >= 0
    ensures x * b <= y * b
  {
    assert y * b - x * b == (y - x) * b;
  }

  /** One step of the leading run: a digit at the front is read first. */
  lemma RunStep(base: int, s: seq<char>, acc: int)
    requires |s| > 0 && IsDigit(s[0], base) && DigitValue(s[0]).Some?
    ensures Fold(base, acc, Run(s, base)) == Fold(base, acc * base + DigitValue(s[0]).value, Run(s[1..], base))
  {
    var run := Run(s, base);
    assert run == [s[0]] + Run(s[1..], base);
    assert run[1..] == Run(s[1..], base);
  }

  /** One step of the checked loop, with the division test replaced by the
      comparison it decides. */
  lemma AccumulateStep(base: int, s: seq<char>, acc: int, limit: int)
    requires ValidBase(base) && 0 <= acc <= limit && 16 <= limit
    requires |s| > 0 && IsDigit(s[0], base) && DigitValue(s[0]).Some?
    requires DigitValue(s[0]).value < base
    ensures var next := acc * base + DigitValue(s[0]).value;
            && (next > limit ==> Accumulate(base, s, acc, limit) == Scan(acc, true))
            && (next <= limit ==> Accumulate(base, s, acc, limit) == Accumulate(base, s[1..], next, limit))
  {
    OverflowCheck(acc, DigitValue(s[0]).value, limit, base);
  }

  /** The checked loop computes the positional value of the digit run, and
      it reports overflow exactly when that value exceeds the bound. */
  lemma {:induction false} AccumulateMeaning(base: int, s: seq<char>, acc: int, limit: int)
    requires ValidBase(base) && 0 <= acc <= limit && 16 <= limit
    ensures Accumulate(base, s, acc, limit).overflow <==> Fold(base, acc, Run(s, base)) > limit
    ensures !Accumulate(base, s, acc, limit).overflow ==>
            Accumulate(base, s, acc, limit).acc == Fold(base, acc, Run(s, base))
    decreases |s|
  {
    if |s| > 0 && IsDigit(s[0], base) {
      IsDigitMeansValueBelowBase(s[0], base);
      var next := acc * base + DigitValue(s[0]).value;
      RunStep(base, s, acc);
      AccumulateStep(base, s, acc, limit);
      if next > limit {
        FoldGrows(base, next, Run(s[1..], base));
      } else {
        AccumulateMeaning(base, s[1..], next, limit);
      }
    } else {
      assert Run(s, base) == [];
    }
  }

  /** The number of leading spaces: where the skipping loop stops. */
  function LeadingSpaces(s: seq<char>): (n: nat)
    ensures n <= |s|
    ensures forall i :: 0 <= i < n ==> IsSpace(s[i])
    ensures n < |s| ==> !IsSpace(s[n])
  {
    if |s| > 0 && IsSpace(s[0]) then 1 + LeadingSpaces(s[1..]) else 0
  }

  /** `out = -out` in type `k`: plain negation for a signed type (the value
      is at most the maximum), two's-complement wrap-around for an unsigned
      one. */
  function Negate(k: IntKind, v: int): (r: int)
    requires Supported(k) && 0 <= v <= Max(k)
    ensures InRange(k, r)
    ensures k.signed ==> r == -v
    ensures !k.signed ==> (r + v) % Modulus(k) == 0
  {
    if k.signed then -v else (Modulus(k) - v) % Modulus(k)
  }

  /** The status of a parse, `Result<void, Error>`. */
  type Status = Results.Result<(), Errors.Error>

  function Ok(): (s: Status)
    ensures Results.HasValue(s)
  {
    Results.Create(())
  }

  function Fail(e: Errors.Error): (s: Status)
    ensures !Results.HasValue(s) && s.err == Optional.Some(e)
  {
    Results.FromError(e)
  }

  /** The status and the final value of the `out` parameter. */
  datatype Parsed = Parsed(out: int, status: Status)

  /** The characters after an optional leading sign: `t` is its sign, if
      any, followed by the result. */
  function AfterSign(t: seq<char>): (r: seq<char>)
    requires |t| > 0
    ensures t[0] == '+' || t[0] == '-' ==> t == [t[0]] + r
    ensures t[0] != '+' && t[0] != '-' ==> r == t
  {
    if t[0] == '+' || t[0] == '-' then t[1..] else t
  }

  /** The unchecked positional value of the digits after the sign. */
  function Magnitudes(base: int, t: seq<char>): (m: int)
    requires ValidBase(base) && |t| > 0
    ensures m >= 0
  {
    FoldGrows(base, 0, Run(AfterSign(t), base));
    Fold(base, 0, Run(AfterSign(t), base))
  }

  /** The part of `from_chars_` after the leading spaces, on a non-empty
      rest `t`: an optional sign, the digit loop, and the negation. */
  function ParseNumber(k: IntKind, base: int, t: seq<char>, fixMin: bool): (p: Parsed)
    requires Supported(k) && ValidBase(base) && |t| > 0
    ensures InRange(k, p.out)
    ensures Results.HasValue(p.status) || p.status == Fail(Errors.FromCode(Errors.Overflow))
  {
    var neg := t[0] == '-';
    var wide := fixMin && neg && k.signed;
    var s := Accumulate(base, AfterSign(t), 0, if wide then Max(k) + 1 else Max(k));
    if s.overflow then
      Parsed(if wide then -s.acc else s.acc, Fail(Errors.FromCode(Errors.Overflow)))
    else if !neg then Parsed(s.acc, Ok())
    else if !wide && s.acc == Min(k) && k.signed then
      Parsed(s.acc, Fail(Errors.FromCode(Errors.Overflow)))
    else if wide then Parsed(-s.acc, Ok())
    else Parsed(Negate(k, s.acc), Ok())
  }

  /** `from_chars_<Int, base>`. With `fixMin` false it is the source as
      written: the magnitude is bounded by the maximum even for a negative
      number, so a signed type's minimum cannot be read, and the later test
      `out == min` can never hold. With `fixMin` true the bound for a
      negative number of a signed type is the maximum plus one, which is
      the minimum's magnitude, and a partial negative value is kept negated.
      `out` is set to 0 first and holds the partial value on overflow. */
  function Parse(k: IntKind, base: int, sv: seq<char>, fixMin: bool): (p: Parsed)
    requires Supported(k) && ValidBase(base)
    ensures InRange(k, p.out)
    ensures |sv| == 0 ==> p == Parsed(0, Fail(Errors.FromCode(Errors.InvalidArg)))
    ensures LeadingSpaces(sv) == |sv| ==> p == Parsed(0, Fail(Errors.FromCode(Errors.InvalidArg)))
    ensures Results.HasValue(p.status) || p.status == Fail(Errors.FromCode(Errors.InvalidArg)) ||
            p.status == Fail(Errors.FromCode(Errors.Overflow))
  {
    if |sv| == 0 then Parsed(0, Fail(Errors.FromCode(Errors.InvalidArg)))
    else if sv == "0" then Parsed(0, Ok())
    else
      var i := LeadingSpaces(sv);
      if i >= |sv| then Parsed(0, Fail(Errors.FromCode(Errors.InvalidArg)))
      else ParseNumber(k, base, sv[i..], fixMin)
  }

  /** The parser is permissive: a lone sign, or text with no digit of the
      base, reads as 0 with success, and whatever follows the digit run is
      ignored. Which characters are digits depends on the base. */
  lemma PermissiveParses()
    ensures FromChars(IntKind(32, true), "abc", 7, BaseDec) == Parsed(0, Ok())
    ensures FromChars(IntKind(32, true), "-", 7, BaseDec) == Parsed(0, Ok())
    ensures FromChars(IntKind(32, true), "12xy", 7, BaseDec) == Parsed(12, Ok())
    ensures FromChars(IntKind(32, true), "abc", 7, BaseHex) == Parsed(0xABC, Ok())
  {
    var m := Max(IntKind(32, true));
    assert Accumulate(BaseHex, "c", 0xAB, m) == Scan(0xABC, false);
    assert Accumulate(BaseHex, "bc", 0xA, m) == Scan(0xABC, false);
    assert Accumulate(BaseHex, "abc", 0, m) == Scan(0xABC, false);
  }

  /** The value a signed digit string denotes in type `k`: the positional
      value of its leading digit run, negated (in the type) after a minus
      sign, provided the magnitude fits. Trailing characters are ignored. */
  predicate DenotesNumber(k: IntKind, base: int, t: seq<char>, v: int)
    requires Supported(k) && ValidBase(base) && |t| > 0
  {
    var m := Magnitudes(base, t);
    if t[0] != '-' then m <= Max(k) && v == m
    else if k.signed then m <= Max(k) + 1 && v == -m
    else m <= Max(k) && (v + m) % Modulus(k) == 0 && InRange(k, v)
  }

  /** The value an input denotes: what follows the leading spaces. */
  predicate Denotes(k: IntKind, base: int, sv: seq<char>, v: int)
    requires Supported(k) && ValidBase(base)
  {
    LeadingSpaces(sv) < |sv| && DenotesNumber(k, base, sv[LeadingSpaces(sv)..], v)
  }

  /** The bound the parser puts on the magnitude: the type's maximum, or
      with `fixMin` the maximum plus one after a minus sign in a signed
      type. */
  function Limit(k: IntKind, t: seq<char>, fixMin: bool): (l: int)
    requires Supported(k) && |t| > 0
    ensures l >= 16
  {
    if fixMin && t[0] == '-' && k.signed then Max(k) + 1 else Max(k)
  }

  /** The parser succeeds when the magnitude is within the bound, with the
      magnitude, its negation, or its two's-complement negation. */
  lemma ParseNumberOutcome(k: IntKind, base: int, t: seq<char>, fixMin: bool)
    requires Supported(k) && ValidBase(base) && |t| > 0
    ensures Results.HasValue(ParseNumber(k, base, t, fixMin).status) <==>
            Magnitudes(base, t) <= Limit(k, t, fixMin)
    ensures Results.HasValue(ParseNumber(k, base, t, fixMin).status) ==>
            ParseNumber(k, base, t, fixMin).out ==
              if t[0] != '-' then Magnitudes(base, t)
              else if k.signed then -Magnitudes(base, t)
              else Negate(k, Magnitudes(base, t))
  {
    AccumulateMeaning(base, AfterSign(t), 0, Limit(k, t, fixMin));
  }

  /** After the spaces, the corrected parser succeeds exactly on a number
      that fits the type, and yields its value. */
  lemma NumberMeaning(k: IntKind, base: int, t: seq<char>, v: int)
    requires Supported(k) && ValidBase(base) && |t| > 0
    ensures Results.HasValue(ParseNumber(k, base, t, true).status) && ParseNumber(k, base, t, true).out == v
            <==> DenotesNumber(k, base, t, v)
  {
    if t[0] != '-' {
      NumberMeaningUnsigned(k, base, t, v);
    } else if k.signed {
      NumberMeaningNegativeSigned(k, base, t, v);
    } else {
      NumberMeaningNegativeUnsigned(k, base, t, v);
    }
  }

  /** `NumberMeaning` without a minus sign: the magnitude itself. */
  lemma NumberMeaningUnsigned(k: IntKind, base: int, t: seq<char>, v: int)
    requires Supported(k) && ValidBase(base) && |t| > 0 && t[0] != '-'
    ensures Results.HasValue(ParseNumber(k, base, t, true).status) && ParseNumber(k, base, t, true).out == v
            <==> DenotesNumber(k, base, t, v)
  {
    ParseNumberOutcome(k, base, t, true);
  }

  /** `NumberMeaning` after a minus sign in a signed type: the negated
      magnitude, the minimum's included. */
  lemma NumberMeaningNegativeSigned(k: IntKind, base: int, t: seq<char>, v: int)
    requires Supported(k) && ValidBase(base) && |t| > 0 && t[0] == '-' && k.signed
    ensures Results.HasValue(ParseNumber(k, base, t, true).status) && ParseNumber(k, base, t, true).out == v
            <==> DenotesNumber(k, base, t, v)
  {
    ParseNumberOutcome(k, base, t, true);
  }

  /** `NumberMeaning` after a minus sign in an unsigned type: the one
      in-range value congruent to the negated magnitude. */
  lemma NumberMeaningNegativeUnsigned(k: IntKind, base: int, t: seq<char>, v: int)
    requires Supported(k) && ValidBase(base) && |t| > 0 && t[0] == '-' && !k.signed
    ensures Results.HasValue(ParseNumber(k, base, t, true).status) && ParseNumber(k, base, t, true).out == v
            <==> DenotesNumber(k, base, t, v)
  {
    ParseNumberOutcome(k, base, t, true);
    if DenotesNumber(k, base, t, v) {
      NegationUnique(k, Magnitudes(base, t), v);
    }
  }

  /** The corrected parser succeeds exactly on "0" and on the inputs that
      denote a value of the type, and yields that value. */
  lemma ParseMeaning(k: IntKind, base: int, sv: seq<char>, v: int)
    requires Supported(k) && ValidBase(base)
    ensures Results.HasValue(Parse(k, base, sv, true).status) && Parse(k, base, sv, true).out == v
            <==> (sv == "0" && v == 0) || (sv != "0" && Denotes(k, base, sv, v))
  {
    var i := LeadingSpaces(sv);
    if |sv| > 0 && sv != "0" && i < |sv| {
      NumberMeaning(k, base, sv[i..], v);
    }
  }

  /** Two's-complement negation has a single result in range. */
  lemma NegationUnique(k: IntKind, m: int, v: int)
    requires Supported(k) && !k.signed && 0 <= m <= Max(k)
    requires InRange(k, v) && (v + m) % Modulus(k) == 0
    ensures v == Negate(k, m)
  {
    var n := Modulus(k);
    if m == 0 {
      Memory.DivModUnique(v, n, 0, v);
    } else {
      Memory.DivModUnique(v + m, n, 1, v + m - n);
    }
  }

  /** `from_chars(sv, out, base)` as written: an unknown base fails with
      "Invalid numerical base!" and leaves `out` as it was. */
  function FromCharsAsWritten(k: IntKind, sv: seq<char>, out: int, base: int): (p: Parsed)
    requires Supported(k)
    ensures !ValidBase(base) ==>
            p == Parsed(out, Fail(Errors.WithMessage("Invalid numerical base!", Errors.InvalidArg)))
    ensures ValidBase(base) ==> InRange(k, p.out)
  {
    if ValidBase(base) then Parse(k, base, sv, false)
    else Parsed(out, Fail(Errors.WithMessage("Invalid numerical base!", Errors.InvalidArg)))
  }

  /** `from_chars` with the minimum of a signed type readable. */
  function FromChars(k: IntKind, sv: seq<char>, out: int, base: int): (p: Parsed)
    requires Supported(k)
    ensures !ValidBase(base) ==>
            p == Parsed(out, Fail(Errors.WithMessage("Invalid numerical base!", Errors.InvalidArg)))
    ensures ValidBase(base) ==> InRange(k, p.out)
  {
    if ValidBase(base) then Parse(k, base, sv, true)
    else Parsed(out, Fail(Errors.WithMessage("Invalid numerical base!", Errors.InvalidArg)))
  }

  // ---------------------------------------------------------------------
  // Rendering
  // ---------------------------------------------------------------------

  /** The prefix `to_chars` puts before a nonzero value. */
  function Prefix(base: int): string {
    if base == BaseHex then "0x"
    else if base == BaseOct then "0"
    else if base == BaseBin then "0b"
    else ""
  }

  /** The digits of a positive magnitude, most significant first. */
  function Numeral(m: nat, base: int): (s: seq<char>)
    requires ValidBase(base) && m > 0
    ensures |s| > 0 && s[0] != '0'
    ensures forall i :: 0 <= i < |s| ==> IsDigit(s[i], base) && DigitValue(s[i]).Some?
    decreases m
  {
    DigitCharIsDigit(m % base, base);
    if m < base then [DigitChar(m)]
    else Numeral(m / base, base) + [DigitChar(m % base)]
  }

  /** Reading a numeral back gives the magnitude. */
  lemma {:induction false} NumeralValue(m: nat, base: int)
    requires ValidBase(base) && m > 0
    ensures Fold(base, 0, Numeral(m, base)) == m
    decreases m
  {
    if m < base {
      assert Numeral(m, base)[1..] == [];
    } else {
      NumeralValue(m / base, base);
      FoldSnoc(base, 0, Numeral(m / base, base), DigitChar(m % base));
    }
  }

  function Magnitude(v: int): nat {
    if v < 0 then -v else v
  }

  /** The text `to_chars` produces for `v`: "0" for zero, otherwise the
      base's prefix, a minus sign for a negative value, and the digits of
      the magnitude, most significant first. A negative value in base 16
      therefore reads "0x-FF". */
  function Text(base: int, v: int): (t: string)
    requires ValidBase(base)
    ensures |t| > 0
  {
    if v == 0 then "0"
    else Prefix(base) + (if v < 0 then "-" else "") + Numeral(Magnitude(v), base)
  }

  /** Rendered text never contains a NUL, so it survives as a C string. */
  lemma TextHasNoNul(base: int, v: int)
    requires ValidBase(base)
    ensures forall i :: 0 <= i < |Text(base, v)| ==> Text(base, v)[i] != '\0'
  {
    if v != 0 {
      var num := Numeral(Magnitude(v), base);
      assert forall i :: 0 <= i < |num| ==> DigitValue(num[i]).Some?;
    }
  }

  lemma TextExamples()
    ensures Text(BaseDec, 123) == "123" && Text(BaseDec, -123) == "-123"
    ensures Text(BaseHex, 255) == "0xFF" && Text(BaseHex, 160) == "0xA0"
    ensures Text(BaseOct, 63) == "077" && Text(BaseBin, 10) == "0b1010"
    ensures Text(BaseHex, 0) == "0" && Text(BaseHex, -255) == "0x-FF"
  {
    assert Numeral(123, 10) == Numeral(12, 10) + ['3'];
    assert Numeral(12, 10) == Numeral(1, 10) + ['2'];
    assert Numeral(255, 16) == Numeral(15, 16) + ['F'];
    assert Numeral(160, 16) == Numeral(10, 16) + ['0'];
    assert Numeral(63, 8) == Numeral(7, 8) + ['7'];
    assert Numeral(10, 2) == Numeral(5, 2) + ['0'];
    assert Numeral(5, 2) == Numeral(2, 2) + ['1'];
    assert Numeral(2, 2) == Numeral(1, 2) + ['0'];
  }

  /** The text after the prefix: what the parser reads back. */
  function Body(base: int, v: int): (b: string)
    requires ValidBase(base)
  {
    if v == 0 then Text(base, v) else Text(base, v)[|Prefix(base)|..]
  }

  /** Rendering and then parsing the text after the prefix restores every
      value of the type, the signed minimum included. */
  lemma RoundTrip(k: IntKind, base: int, v: int, out: int)
    requires Supported(k) && ValidBase(base) && InRange(k, v)
    ensures FromChars(k, Body(base, v), out, base) == Parsed(v, Ok())
  {
    if v != 0 {
      RoundTripNonzero(k, base, v, true);
    }
  }

  /** A nonzero value's body is its sign and numeral, which the parser reads
      in full; it succeeds unless the as-written bound rejects the
      magnitude. */
  lemma RoundTripNonzero(k: IntKind, base: int, v: int, fixMin: bool)
    requires Supported(k) && ValidBase(base) && InRange(k, v) && v != 0
    requires fixMin || !(k.signed && v == Min(k))
    ensures Parse(k, base, Body(base, v), fixMin) == Parsed(v, Ok())
  {
    var body := Body(base, v);
    BodyShape(base, v);
    BodyMagnitude(base, v);
    assert body[0..] == body;
    assert Parse(k, base, body, fixMin) == ParseNumber(k, base, body, fixMin);
    ParseNumberOutcome(k, base, body, fixMin);
    LimitsSpanTheType(k);
  }

  /** The body of a nonzero value's text: no leading space, and a minus sign
      exactly for a negative value. */
  lemma BodyShape(base: int, v: int)
    requires ValidBase(base) && v != 0
    ensures |Body(base, v)| > 0 && Body(base, v) != "0"
    ensures LeadingSpaces(Body(base, v)) == 0
    ensures Body(base, v)[0] == '-' <==> v < 0
  {
    var num := Numeral(Magnitude(v), base);
    BodyOfNonzero(base, v);
    assert DigitValue(num[0]).Some?;
  }

  /** The digits after the sign have the value's magnitude. */
  lemma BodyMagnitude(base: int, v: int)
    requires ValidBase(base) && v != 0
    ensures Magnitudes(base, Body(base, v)) == Magnitude(v)
  {
    var num := Numeral(Magnitude(v), base);
    BodyOfNonzero(base, v);
    RunOfDigits(num, base);
    NumeralValue(Magnitude(v), base);
  }

  /** What follows the prefix: the sign, then the numeral, which is what
      remains once the sign is skipped. */
  lemma BodyOfNonzero(base: int, v: int)
    requires ValidBase(base) && v != 0
    ensures Body(base, v) == (if v < 0 then "-" else "") + Numeral(Magnitude(v), base)
    ensures AfterSign(Body(base, v)) == Numeral(Magnitude(v), base)
  {
    var sign := if v < 0 then "-" else "";
    var num := Numeral(Magnitude(v), base);
    assert Text(base, v) == Prefix(base) + (sign + num);
    var body := Body(base, v);
    assert body == sign + num;
    assert DigitValue(num[0]).Some?;
    assert num[0] != '+' && num[0] != '-';
    if v < 0 {
      assert body[0] == '-' && body[1..] == num;
    } else {
      assert body == num && body[0] == num[0];
    }
  }

  /** A string of digits is its own leading run. */
  lemma {:induction false} RunOfDigits(s: seq<char>, base: int)
    requires forall i :: 0 <= i < |s| ==> IsDigit(s[i], base)
    ensures Run(s, base) == s
  {
    if |s| > 0 {
      RunOfDigits(s[1..], base);
    }
  }

  /** As written, the round trip holds for every value except a signed
      type's minimum. */
  lemma RoundTripAsWritten(k: IntKind, base: int, v: int, out: int)
    requires Supported(k) && ValidBase(base) && InRange(k, v)
    requires !(k.signed && v == Min(k))
    ensures FromCharsAsWritten(k, Body(base, v), out, base) == Parsed(v, Ok())
  {
    if v != 0 {
      RoundTripNonzero(k, base, v, false);
    }
  }

  /** The counterexample: "-128", which `to_chars` produces for the minimum
      of an 8-bit signed type, overflows as written; the digit loop stops
      at 12 before reading the 8. */
  lemma SignedMinRejected()
    ensures Text(BaseDec, -128) == "-128"
    ensures FromCharsAsWritten(IntKind(8, true), "-128", 0, BaseDec)
            == Parsed(12, Fail(Errors.FromCode(Errors.Overflow)))
    ensures FromChars(IntKind(8, true), "-128", 0, BaseDec) == Parsed(-128, Ok())
  {
    assert Numeral(128, 10) == Numeral(12, 10) + ['8'];
    assert Numeral(12, 10) == Numeral(1, 10) + ['2'];
    var s := "128";
    assert AfterSign("-128") == s;
    assert Accumulate(10, s, 0, 127) == Accumulate(10, s[1..], 1, 127);
    assert Accumulate(10, s[1..], 1, 127) == Accumulate(10, s[2..], 12, 127);
    assert Accumulate(10, s, 0, 128) == Accumulate(10, s[1..], 1, 128);
    assert Accumulate(10, s[1..], 1, 128) == Accumulate(10, s[2..], 12, 128);
    assert Accumulate(10, s[2..], 12, 128) == Accumulate(10, s[3..], 128, 128);
  }

  // ---------------------------------------------------------------------
  // The buffer walk of to_chars_
  // ---------------------------------------------------------------------

  /** A sequence backwards. */
  function Reverse<T>(s: seq<T>): (r: seq<T>)
    ensures |r| == |s|
    ensures forall i :: 0 <= i < |s| ==> r[i] == s[|s| - 1 - i]
  {
    seq(|s|, i requires 0 <= i < |s| => s[|s| - 1 - i])
  }

  lemma ReverseAppend<T>(a: seq<T>, b: seq<T>)
    ensures Reverse(a + b) == Reverse(b) + Reverse(a)
  {
  }

  /** The digits of a magnitude, least significant first: the order of the
      source's `curr % base` / `curr /= base` loop. */
  function LowDigits(m: nat, base: int): seq<char>
    requires ValidBase(base)
    decreases m
  {
    if m == 0 then [] else [DigitChar(m % base)] + LowDigits(m / base, base)
  }

  lemma {:induction false} LowDigitsReverse(m: nat, base: int)
    requires ValidBase(base) && m > 0
    ensures Reverse(Numeral(m, base)) == LowDigits(m, base)
    decreases m
  {
    if m < base {
      assert LowDigits(m / base, base) == [];
    } else {
      LowDigitsReverse(m / base, base);
      ReverseAppend(Numeral(m / base, base), [DigitChar(m % base)]);
    }
  }

  /** The characters in the order `to_chars_` appends them, before it
      reverses the buffer: the text backwards. */
  lemma AppendOrder(base: int, v: int)
    requires ValidBase(base) && v != 0
    ensures Reverse(Text(base, v)) ==
            LowDigits(Magnitude(v), base) + (if v < 0 then "-" else "") +
            Reverse(Prefix(base))
  {
    var sign: string := if v < 0 then "-" else "";
    LowDigitsReverse(Magnitude(v), base);
    ReverseAppend(Prefix(base) + sign, Numeral(Magnitude(v), base));
    ReverseAppend(Prefix(base), sign);
  }

  /** How the appended sequence splits: the digits, then the sign and the
      reversed prefix. */
  lemma AppendPlan(base: int, v: int)
    requires ValidBase(base) && v != 0
    ensures |LowDigits(Magnitude(v), base)| <= |Reverse(Text(base, v))|
    ensures Reverse(Text(base, v))[..|LowDigits(Magnitude(v), base)|] == LowDigits(Magnitude(v), base)
    ensures Reverse(Text(base, v))[|LowDigits(Magnitude(v), base)|..] ==
            (if v < 0 then "-" else "") + Reverse(Prefix(base))
  {
    AppendOrder(base, v);
  }

  lemma ReverseReverse<T>(s: seq<T>)
    ensures Reverse(Reverse(s)) == s
  {
  }

  function BufferTooSmall(): (e: Errors.Error)
    ensures e.code == Errors.Overflow
  {
    Errors.WithMessage("buffer too small!", Errors.Overflow)
  }

  /** `append_next_char_`: writes `ch` at `i` and advances `i`, or fails
      with "buffer too small!" once `i` has reached the end. */
  function AppendNextChar(chars: seq<char>, i: nat, ch: char): (r: (seq<char>, nat, Status))
    ensures |r.0| == |chars|
    ensures Results.HasValue(r.2) <==> i < |chars|
    ensures Results.HasValue(r.2) ==>
              r.1 == i + 1 && r.0[i] == ch &&
              forall j :: 0 <= j < |chars| && j != i ==> r.0[j] == chars[j]
    ensures !Results.HasValue(r.2) ==>
              r.0 == chars && r.1 == i && r.2 == Fail(BufferTooSmall())
  {
    if i >= |chars| then (chars, i, Fail(BufferTooSmall()))
    else (chars[i := ch], i + 1, Ok())
  }

  /** Appends one more character of `e` to a buffer that already starts with
      `e[..i]`. */
  method Emit(chars: seq<char>, i: nat, ch: char, ghost e: seq<char>, ghost orig: seq<char>)
    returns (chars': seq<char>, i': nat, ok: bool)
    requires i < |e| && ch == e[i] && i <= |chars| == |orig|
    requires chars[..i] == e[..i] && chars[i..] == orig[i..]
    ensures |chars'| == |chars|
    ensures ok <==> i < |chars|
    ensures ok ==> i' == i + 1 && chars'[..i'] == e[..i'] && chars'[i'..] == orig[i'..]
    ensures !ok ==> chars' == chars == e[..|chars|]
  {
    var r := AppendNextChar(chars, i, ch);
    chars', i', ok := r.0, r.1, Results.HasValue(r.2);
    if ok {
      assert chars'[..i'] == chars[..i] + [e[i]];
      assert e[..i'] == e[..i] + [e[i]];
    } else {
      assert chars == chars[..i];
    }
  }

  /** The digit loop of `to_chars_`: appends the digits of `curr`, least
      significant first, as long as the buffer has room. `e` is the whole
      sequence to be appended, of which the digits are the beginning. */
  method AppendDigits(base: int, curr0: nat, chars: seq<char>, ghost e: seq<char>)
    returns (buf: seq<char>, index: nat, ok: bool)
    requires ValidBase(base)
    requires |LowDigits(curr0, base)| <= |e| && e[..|LowDigits(curr0, base)|] == LowDigits(curr0, base)
    ensures |buf| == |chars|
    ensures ok <==> |LowDigits(curr0, base)| <= |chars|
    ensures ok ==> index == |LowDigits(curr0, base)| && buf[..index] == e[..index] &&
                   buf[index..] == chars[index..]
    ensures !ok ==> buf == e[..|chars|]
  {
    ghost var low := LowDigits(curr0, base);
    buf := chars;
    index := 0;
    var curr: nat := curr0;
    while curr > 0
      invariant index <= |buf| == |chars|
      invariant index + |LowDigits(curr, base)| == |low|
      invariant low[index..] == LowDigits(curr, base)
      invariant buf[..index] == e[..index] && buf[index..] == chars[index..]
      decreases curr
    {
      var rem := curr % base;
      var digit := if rem < 10 then (rem + '0' as int) as char else ((rem - 10) + 'A' as int) as char;
      assert LowDigits(curr, base) == [digit] + LowDigits(curr / base, base);
      assert e[index] == low[index] == digit;
      buf, index, ok := Emit(buf, index, digit, e, chars);
      if !ok {
        return;
      }
      curr := curr / base;
    }
    ok := true;
  }

  /** The sign and prefix appends of `to_chars_`: '-' for a negative value
      of a signed type, then "x0", "0" or "b0" for bases 16, 8 and 2. */
  method AppendSignAndPrefix(k: IntKind, base: int, num: int, chars: seq<char>, i: nat,
                             ghost e: seq<char>, ghost orig: seq<char>)
    returns (buf: seq<char>, index: nat, ok: bool)
    requires Supported(k) && ValidBase(base) && InRange(k, num)
    requires i <= |chars| == |orig| && i <= |e|
    requires e[i..] == (if num < 0 then "-" else "") + Reverse(Prefix(base))
    requires chars[..i] == e[..i] && chars[i..] == orig[i..]
    ensures |buf| == |chars|
    ensures ok <==> |e| <= |chars|
    ensures ok ==> index == |e| && buf[..index] == e && buf[index..] == orig[index..]
    ensures !ok ==> buf == e[..|chars|]
  {
    buf, index, ok := chars, i, true;
    if k.signed && num < 0 {
      buf, index, ok := Emit(buf, index, '-', e, orig);
      if !ok {
        return;
      }
    }
    if base == 16 {
      buf, index, ok := Emit(buf, index, 'x', e, orig);
      if ok {
        buf, index, ok := Emit(buf, index, '0', e, orig);
      }
    } else if base == 8 {
      buf, index, ok := Emit(buf, index, '0', e, orig);
    } else if base == 2 {
      buf, index, ok := Emit(buf, index, 'b', e, orig);
      if ok {
        buf, index, ok := Emit(buf, index, '0', e, orig);
      }
    }
    if ok {
      assert index == |e|;
      assert buf[..index] == e[..index] == e;
    }
  }

  /** The reversal loop of `to_chars_`: swaps the ends of the first `n`
      characters inwards. */
  method ReverseWritten(chars: seq<char>, n: nat) returns (buf: seq<char>)
    requires 1 <= n <= |chars|
    ensures |buf| == |chars|
    ensures buf[..n] == Reverse(chars[..n]) && buf[n..] == chars[n..]
  {
    buf := chars;
    var start: nat := 0;
    var end: nat := n - 1;
    while start < end
      invariant start + end == n - 1 && end < n
      invariant |buf| == |chars| && buf[n..] == chars[n..]
      invariant forall p :: 0 <= p < start ==> buf[p] == chars[n - 1 - p]
      invariant forall p :: end < p < n ==> buf[p] == chars[n - 1 - p]
      invariant forall p :: start <= p <= end ==> buf[p] == chars[p]
    {
      var temp := buf[start];
      buf := buf[start := buf[end]];
      buf := buf[end := temp];
      start := start + 1;
      end := end - 1;
    }
  }

  /** `to_chars_<Int, base>(num, chars)`: zero is written as "0"; otherwise
      the magnitude's digits are appended least significant first, then
      the minus sign, then the prefix backwards, and the written part is
      reversed in place. Every append can fail with "buffer too small!",
      which leaves what was written so far. The magnitude is computed in
      `usize`: `curr = num` wraps a negative value to 2^64 + num and
      `curr = -curr` wraps it back to -num. */
  method ToCharsIn(k: IntKind, base: int, num: int, chars: seq<char>)
    returns (buf: seq<char>, res: Results.Result<nat, Errors.Error>)
    requires Supported(k) && ValidBase(base) && InRange(k, num)
    ensures |buf| == |chars|
    ensures Results.HasValue(res) <==> |Text(base, num)| <= |chars|
    ensures Results.HasValue(res) ==>
            Results.Value(res) == |Text(base, num)| &&
            buf[..|Text(base, num)|] == Text(base, num) &&
            buf[|Text(base, num)|..] == chars[|Text(base, num)|..]
    ensures !Results.HasValue(res) ==>
            res == Results.FromError(BufferTooSmall()) &&
            buf == Reverse(Text(base, num))[..|chars|]
  {
    if num == 0 {
      var r := AppendNextChar(chars, 0, '0');
      if !Results.HasValue(r.2) {
        return r.0, Results.FromError(BufferTooSmall());
      }
      assert r.0[..1] == "0";
      return r.0, Results.Create(1);
    }
    ghost var e := Reverse(Text(base, num));
    AppendPlan(base, num);
    var curr: int := Memory.Wrap(num);
    if k.signed && num < 0 {
      curr := Memory.Wrap(-curr);
    }
    assert curr == Magnitude(num);
    var index, ok;
    buf, index, ok := AppendDigits(base, curr, chars, e);
    if !ok {
      return buf, Results.FromError(BufferTooSmall());
    }
    buf, index, ok := AppendSignAndPrefix(k, base, num, buf, index, e, chars);
    if !ok {
      return buf, Results.FromError(BufferTooSmall());
    }
    buf := ReverseWritten(buf, index);
    ReverseReverse(Text(base, num));
    return buf, Results.Create(index);
  }

  /** `to_chars(in, out, base)`: an unknown base fails with "Invalid
      numerical base!" and leaves the buffer alone. */
  method ToChars(k: IntKind, num: int, chars: seq<char>, base: int)
    returns (buf: seq<char>, res: Results.Result<nat, Errors.Error>)
    requires Supported(k) && InRange(k, num)
    ensures !ValidBase(base) ==>
              buf == chars &&
              res == Results.FromError(Errors.WithMessage("Invalid numerical base!", Errors.InvalidArg))
    ensures |buf| == |chars|
    ensures ValidBase(base) ==>
            (Results.HasValue(res) <==> |Text(base, num)| <= |chars|) &&
            (Results.HasValue(res) ==>
               Results.Value(res) == |Text(base, num)| &&
               buf[..Results.Value(res)] == Text(base, num) &&
               buf[Results.Value(res)..] == chars[Results.Value(res)..])
  {
    if !ValidBase(base) {
      return chars, Results.FromError(Errors.WithMessage("Invalid numerical base!", Errors.InvalidArg));
    }
    buf, res := ToCharsIn(k, base, num, chars);
  }
}
