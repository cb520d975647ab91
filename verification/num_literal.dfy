/**
  Finishing an integer literal: underscores are dropped, the rest is parsed as
  a signed 64-bit integer in radix 10, 16, 8 or 2, and a failure hands back the
  literal's raw text.

  The library parse (`str::parse::<i64>` / `i64::from_str_radix`) is given by
  an explicit specification `ParseI64` and implemented by `FromStrRadix`, which
  follows the library's digit-by-digit checked arithmetic.
 */
module NumLiteral {
  import opened Common

  const I64_MIN: int := -0x8000_0000_0000_0000
  const I64_MAX: int := 0x7FFF_FFFF_FFFF_FFFF

  predicate InI64(n: int) {
    I64_MIN <= n <= I64_MAX
  }

  /** The radix prefix of a literal, already consumed by the parser. */
  datatype Base = Hex | Octal | Binary

  function Radix(base: Base): (r: nat)
    ensures r == 2 || r == 8 || r == 16
  {
    match base
    case Hex => 16
    case Octal => 8
    case Binary => 2
  }

  /** Distinct bases have distinct radixes, so the radix alone tells which prefix was read. */
  lemma RadixIsOneToOne(a: Base, b: Base)
    ensures Radix(a) == Radix(b) <==> a == b
  {
  }

  /** The value of an ASCII digit or letter (letters in either case count from 10). */
  function DigitValue(c: char): Option<nat> {
    if '0' <= c <= '9' then Some(c as int - '0' as int)
    else if 'a' <= c <= 'z' then Some(c as int - 'a' as int + 10)
    else if 'A' <= c <= 'Z' then Some(c as int - 'A' as int + 10)
    else None
  }

  /** `char::to_digit(radix)` succeeds. */
  predicate IsDigit(c: char, radix: nat) {
    DigitValue(c).Some? && DigitValue(c).value < radix
  }

  predicate AllDigits(ds: string, radix: nat) {
    forall i :: 0 <= i < |ds| ==> IsDigit(ds[i], radix)
  }

  /** The value of a digit string, most significant digit first. */
  function DigitsValue(ds: string, radix: nat): nat
    requires AllDigits(ds, radix)
  {
    if ds == [] then 0
    else DigitsValue(ds[..|ds| - 1], radix) * radix + DigitValue(ds[|ds| - 1]).value
  }

  /** A magnitude with its sign applied. */
  function Signed(negative: bool, magnitude: nat): int {
    if negative then 0 - magnitude else magnitude
  }

  /** The sign of a literal and the digits after it. */
  function SplitSign(s: string): (r: (bool, string))
    ensures r.1 == if |s| > 0 && (s[0] == '+' || s[0] == '-') then s[1..] else s
  {
    if |s| > 0 && s[0] == '-' then (true, s[1..])
    else if |s| > 0 && s[0] == '+' then (false, s[1..])
    else (false, s)
  }

  /**
    The library parse: an optional sign, at least one digit valid in the radix,
    and a value inside the i64 range; `None` for anything else.
   */
  function ParseI64(s: string, radix: nat): Option<int> {
    var (negative, digits) := SplitSign(s);
    if digits == [] || !AllDigits(digits, radix) then None
    else
      var v := Signed(negative, DigitsValue(digits, radix));
      if InI64(v) then Some(v) else None
  }

  /** One more digit: the value is scaled by the radix and the digit added. */
  lemma DigitsValueStep(ds: string, radix: nat, k: nat)
    requires AllDigits(ds, radix) && 0 < k <= |ds|
    ensures AllDigits(ds[..k], radix) && AllDigits(ds[..k - 1], radix)
    ensures DigitsValue(ds[..k], radix) == DigitsValue(ds[..k - 1], radix) * radix + DigitValue(ds[k - 1]).value
  {
    assert ds[..k][..k - 1] == ds[..k - 1];
  }

  lemma AllDigitsSnoc(prefix: string, c: char, radix: nat)
    requires AllDigits(prefix, radix) && IsDigit(c, radix)
    ensures AllDigits(prefix + [c], radix)
  {
    assert forall i :: 0 <= i < |prefix| ==> (prefix + [c])[i] == prefix[i];
  }

  /** The digit string grown by one character, as the parse loop sees it. */
  lemma DigitsValueSnoc(prefix: string, c: char, radix: nat)
    requires AllDigits(prefix, radix) && IsDigit(c, radix)
    ensures AllDigits(prefix + [c], radix)
    ensures DigitsValue(prefix + [c], radix) == DigitsValue(prefix, radix) * radix + DigitValue(c).value
  {
    AllDigitsSnoc(prefix, c, radix);
    assert (prefix + [c])[..|prefix|] == prefix;
  }

  /** The checked step of the parse loop on the signed accumulator. */
  lemma SignedStep(negative: bool, m: nat, radix: nat, d: nat)
    ensures Signed(negative, m * radix + d)
      == if negative then Signed(negative, m) * radix - d else Signed(negative, m) * radix + d
  {
    if negative {
      assert (0 - m) * radix == 0 - m * radix;
    }
  }

  lemma ScaleGrows(x: nat, radix: nat, d: nat)
    requires 1 <= radix
    ensures x <= x * radix + d
  {
  }

  /** A longer prefix of a digit string never has a smaller value. */
  lemma {:induction false} DigitsValueMonotone(ds: string, radix: nat, j: nat, k: nat)
    requires 1 <= radix && AllDigits(ds, radix)
    requires j <= k <= |ds|
    ensures DigitsValue(ds[..j], radix) <= DigitsValue(ds[..k], radix)
    decreases k - j
  {
    if j < k {
      DigitsValueMonotone(ds, radix, j, k - 1);
      DigitsValueStep(ds, radix, k);
      ScaleGrows(DigitsValue(ds[..k - 1], radix), radix, DigitValue(ds[k - 1]).value);
    }
  }

  /** `i64::from_str_radix`: digit by digit, failing as soon as the value leaves the i64 range. */
  method FromStrRadix(s: string, radix: nat) returns (r: Option<int>)
    requires 2 <= radix <= 36
    ensures r == ParseI64(s, radix)
    ensures r.Some? ==> InI64(r.value)
  {
    if s == [] {
      return None;
    }
    var (negative, digits) := SplitSign(s);
    if digits == [] {
      return None;
    }
    var acc := 0;
    var i := 0;
    while i < |digits|
      invariant 0 <= i <= |digits|
      invariant AllDigits(digits[..i], radix)
      invariant acc == Signed(negative, DigitsValue(digits[..i], radix))
      invariant InI64(acc)
    {
      var c := digits[i];
      if !IsDigit(c, radix) {
        return None;
      }
      var d := DigitValue(c).value;
      assert digits[..i + 1] == digits[..i] + [c];
      DigitsValueSnoc(digits[..i], c, radix);
      SignedStep(negative, DigitsValue(digits[..i], radix), radix, d);
      var next := if negative then acc * radix - d else acc * radix + d;
      if !InI64(next) {
        OverflowIsFinal(digits, radix, i + 1, negative, next);
        return None;
      }
      acc := next;
      i := i + 1;
    }
    assert digits[..i] == digits;
    r := Some(acc);
  }

  /** A prefix already out of range leaves the whole digit string out of range (or not a number). */
  lemma OverflowIsFinal(digits: string, radix: nat, k: nat, negative: bool, prefixValue: int)
    requires 2 <= radix && 0 < k <= |digits|
    requires AllDigits(digits[..k], radix)
    requires prefixValue == Signed(negative, DigitsValue(digits[..k], radix))
    requires !InI64(prefixValue)
    ensures !AllDigits(digits, radix) || !InI64(Signed(negative, DigitsValue(digits, radix)))
  {
    if AllDigits(digits, radix) {
      DigitsValueMonotone(digits, radix, k, |digits|);
      assert digits[..|digits|] == digits;
    }
  }

  /** Each character of a literal, or `None` where it is an underscore. */
  function KeptChars(raw: string): (r: seq<Option<char>>)
    ensures |r| == |raw|
  {
    seq(|raw|, i requires 0 <= i < |raw| => if raw[i] == '_' then None else Some(raw[i]))
  }

  /**
    `str::replace("_", "")`: the characters other than `_`, in order. By
    `SomesAt`, the kept character at `i` lands at the number of kept
    characters before `i`.
   */
  function RemoveUnderscores(raw: string): (r: string)
    ensures forall i :: 0 <= i < |r| ==> r[i] != '_'
    ensures |r| <= |raw|
    ensures r == Somes(KeptChars(raw))
  {
    if raw == [] then []
    else
      assert KeptChars(raw)[1..] == KeptChars(raw[1..]);
      (if raw[0] == '_' then [] else [raw[0]]) + RemoveUnderscores(raw[1..])
  }

  lemma {:induction false} RemoveUnderscoresAppend(a: string, b: string)
    ensures RemoveUnderscores(a + b) == RemoveUnderscores(a) + RemoveUnderscores(b)
    decreases |a|
  {
    if a != [] {
      assert (a + b)[1..] == a[1..] + b;
      RemoveUnderscoresAppend(a[1..], b);
    } else {
      assert a + b == b;
    }
  }

  /** An underscore anywhere in a literal is invisible to the parse. */
  lemma UnderscoreIsIgnored(a: string, b: string)
    ensures RemoveUnderscores(a + "_" + b) == RemoveUnderscores(a + b)
  {
    RemoveUnderscoresAppend(a + "_", b);
    RemoveUnderscoresAppend(a, "_");
    RemoveUnderscoresAppend(a, b);
  }

  /** A string with no underscore is left alone. */
  lemma {:induction false} RemoveUnderscoresIdle(s: string)
    requires forall i :: 0 <= i < |s| ==> s[i] != '_'
    ensures RemoveUnderscores(s) == s
    decreases |s|
  {
    if s != [] {
      RemoveUnderscoresIdle(s[1..]);
    }
  }

  /** `finish_parsing_int`: decimal, underscores ignored, the raw text back on failure. */
  method FinishParsingInt(raw: string) returns (r: Result<int, string>)
    ensures r.Ok? <==> ParseI64(RemoveUnderscores(raw), 10).Some?
    ensures r.Ok? ==> r.value == ParseI64(RemoveUnderscores(raw), 10).value && InI64(r.value)
    ensures r.Err? ==> r.error == raw
  {
    var parsed := FromStrRadix(RemoveUnderscores(raw), 10);
    r := if parsed.Some? then Ok(parsed.value) else Err(raw);
  }

  /** `finish_parsing_base`: the radix of the base, underscores ignored, the raw text back on failure. */
  method FinishParsingBase(raw: string, base: Base) returns (r: Result<int, string>)
    ensures r.Ok? <==> ParseI64(RemoveUnderscores(raw), Radix(base)).Some?
    ensures r.Ok? ==> r.value == ParseI64(RemoveUnderscores(raw), Radix(base)).value && InI64(r.value)
    ensures r.Err? ==> r.error == raw
  {
    var parsed := FromStrRadix(RemoveUnderscores(raw), Radix(base));
    r := if parsed.Some? then Ok(parsed.value) else Err(raw);
  }

  /** The digit character for a value below 36 (lower-case letters past 9). */
  function DigitChar(v: nat): (c: char)
    requires v < 36
    ensures DigitValue(c) == Some(v)
  {
    if v < 10 then ('0' as int + v) as char else ('a' as int + v - 10) as char
  }

  /** Dividing by the radix shrinks a number that has more than one digit. */
  lemma DivShrinks(n: nat, radix: nat)
    requires 2 <= radix <= n
    ensures 0 < n / radix < n && n % radix < radix
  {
  }

  /** The digits of `n` in the radix, most significant first, without leading zeros. */
  function ToDigits(n: nat, radix: nat): (ds: string)
    requires 2 <= radix <= 36
    ensures ds != [] && AllDigits(ds, radix)
    decreases n
  {
    if n < radix then [DigitChar(n)]
    else
      DivShrinks(n, radix);
      var prefix := ToDigits(n / radix, radix);
      var c := DigitChar(n % radix);
      AllDigitsSnoc(prefix, c, radix);
      prefix + [c]
  }

  lemma {:induction false} ToDigitsValue(n: nat, radix: nat)
    requires 2 <= radix <= 36
    ensures DigitsValue(ToDigits(n, radix), radix) == n
    decreases n
  {
    if n >= radix {
      DivShrinks(n, radix);
      var q, d := n / radix, n % radix;
      var prefix := ToDigits(q, radix);
      var c := DigitChar(d);
      assert ToDigits(n, radix) == prefix + [c];
      ToDigitsValue(q, radix);
      DigitsValueSnoc(prefix, c, radix);
      DivMod(n, radix);
    }
  }

  lemma DivMod(n: nat, radix: nat)
    requires 0 < radix
    ensures n == (n / radix) * radix + n % radix
  {
  }

  /** The literal text of an integer: a minus sign when negative, then its digits. */
  function ToLiteral(n: int, radix: nat): string
    requires 2 <= radix <= 36
  {
    if n < 0 then "-" + ToDigits(-n, radix) else ToDigits(n, radix)
  }

  /** Every i64 value written out in a radix parses back to itself. */
  lemma ParseToLiteral(n: int, radix: nat)
    requires 2 <= radix <= 36 && InI64(n)
    ensures ParseI64(ToLiteral(n, radix), radix) == Some(n)
  {
    var m := if n < 0 then -n else n;
    ToDigitsValue(m, radix);
    var ds := ToDigits(m, radix);
    assert !IsDigit('-', radix) && !IsDigit('+', radix);
    assert ds[0] != '-' && ds[0] != '+' by {
      assert IsDigit(ds[0], radix);
    }
    assert SplitSign(ToLiteral(n, radix)).1 == ds;
  }
}
