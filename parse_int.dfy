/**
 * JavaScript's global `parseInt(string)` with no radix argument, as the
 * list handler applies it to the `page` and `limit` query values, and the
 * `parseInt(v) || fallback` defaulting around it.
 */
module JsParse {
  import opened Wrappers
  import opened Text

  /** The code points `parseInt` skips at the start: white space and line terminators. */
  predicate IsJsSpace(c: char) {
    c == '\t' || c == '\n' || c == '\U{000B}' || c == '\U{000C}' || c == '\r' || c == ' ' ||
    c == '\U{00A0}' || c == '\U{1680}' || ('\U{2000}' <= c <= '\U{200A}') ||
    c == '\U{2028}' || c == '\U{2029}' || c == '\U{202F}' || c == '\U{205F}' ||
    c == '\U{3000}' || c == '\U{FEFF}'
  }

  /** `s` with its leading white space removed. */
  function TrimStart(s: string): (r: string)
    ensures |r| <= |s| && r == s[|s| - |r|..]
    ensures forall i :: 0 <= i < |s| - |r| ==> IsJsSpace(s[i])
    ensures r == [] || !IsJsSpace(r[0])
  {
    if s != [] && IsJsSpace(s[0]) then TrimStart(s[1..]) else s
  }

  /** The value of `c` as a digit in base `radix` (10 or 16), if it is one. */
  function DigitValue(c: char, radix: nat): (d: Option<nat>)
    ensures d.Some? ==> d.value < radix
    ensures radix == 10 ==> (d.Some? <==> IsDigit(c))
  {
    if '0' <= c <= '9' && (c as int - '0' as int) < radix then Some(c as int - '0' as int)
    else if radix == 16 && 'a' <= c <= 'f' then Some(c as int - 'a' as int + 10)
    else if radix == 16 && 'A' <= c <= 'F' then Some(c as int - 'A' as int + 10)
    else None
  }

  predicate AllRadixDigits(s: string, radix: nat) {
    forall i :: 0 <= i < |s| ==> DigitValue(s[i], radix).Some?
  }

  /** The length of the longest prefix of `s` made of digits of base `radix`. */
  function DigitPrefix(s: string, radix: nat): (n: nat)
    ensures n <= |s| && AllRadixDigits(s[..n], radix)
    ensures n < |s| ==> DigitValue(s[n], radix).None?
  {
    if s == [] || DigitValue(s[0], radix).None? then 0
    else
      var n := DigitPrefix(s[1..], radix);
      assert s[..1 + n] == [s[0]] + s[1..][..n];
      1 + n
  }

  /** The number the digits denote, most significant digit first. */
  function Value(s: string, radix: nat): nat
    requires radix == 10 || radix == 16
    requires AllRadixDigits(s, radix)
  {
    if s == [] then 0
    else
      var high := Value(s[..|s| - 1], radix);
      (if radix == 16 then high * 16 else high * 10) + DigitValue(s[|s| - 1], radix).value
  }

  /** A `0x` or `0X` prefix, which switches `parseInt` to base 16. */
  predicate HexPrefix(u: string) {
    |u| >= 2 && u[0] == '0' && (u[1] == 'x' || u[1] == 'X')
  }

  /**
   * The number after the sign: base 16 after a hex prefix, else base 10,
   * read as the longest run of digits with the rest ignored. `None` when
   * there is no digit at all.
   */
  function ParseUnsigned(u: string): Option<nat> {
    if HexPrefix(u) then ReadDigits(u[2..], 16) else ReadDigits(u, 10)
  }

  /** The longest digit prefix of `d` in base `radix`, `None` when it is empty. */
  function ReadDigits(d: string, radix: nat): Option<nat>
    requires radix == 10 || radix == 16
  {
    var n := DigitPrefix(d, radix);
    if n == 0 then None else Some(Value(d[..n], radix))
  }

  /**
   * `parseInt(input)`: skip leading white space, read an optional sign,
   * then the unsigned number. `None` is NaN.
   */
  function ParseInt(input: string): Option<int> {
    ParseTrimmed(TrimStart(input))
  }

  /** `parseInt` on text that no longer starts with white space: an optional sign, then the number. */
  function ParseTrimmed(s: string): Option<int> {
    if |s| > 0 && s[0] == '-' then Signed(true, ParseUnsigned(s[1..]))
    else if |s| > 0 && s[0] == '+' then Signed(false, ParseUnsigned(s[1..]))
    else Signed(false, ParseUnsigned(s))
  }

  /** The magnitude with its sign applied; NaN stays NaN. */
  function Signed(negative: bool, magnitude: Option<nat>): Option<int> {
    match magnitude
    case None => None
    case Some(m) => Some(if negative then -(m as int) else m as int)
  }

  /** The unsigned text is a number exactly when its first digit (after any `0x`) is one. */
  lemma UnsignedStart(u: string)
    ensures !HexPrefix(u) ==> (ParseUnsigned(u).Some? <==> |u| > 0 && IsDigit(u[0]))
    ensures HexPrefix(u) ==> (ParseUnsigned(u).Some? <==> |u| > 2 && DigitValue(u[2], 16).Some?)
  {
    if HexPrefix(u) && |u| > 2 && DigitValue(u[2], 16).Some? {
      assert u[2..][0] == u[2];
    }
  }

  /**
   * After white space, `parseInt` needs a sign or a digit to give a number,
   * and it gives a negative number only after a minus sign.
   */
  lemma ParseIntStart(input: string)
    ensures var s := TrimStart(input);
      (s == [] || !(IsDigit(s[0]) || s[0] == '-' || s[0] == '+')) ==> ParseInt(input).None?
    ensures var r := ParseInt(input);
      r.Some? && r.value < 0 ==> |TrimStart(input)| > 0 && TrimStart(input)[0] == '-'
  {
    TrimmedStart(TrimStart(input));
  }

  /** The same for text that no longer starts with white space. */
  lemma TrimmedStart(s: string)
    ensures (s == [] || !(IsDigit(s[0]) || s[0] == '-' || s[0] == '+')) ==> ParseTrimmed(s).None?
    ensures var r := ParseTrimmed(s); r.Some? && r.value < 0 ==> |s| > 0 && s[0] == '-'
  {
    if s != [] && !(s[0] == '-' || s[0] == '+') {
      UnsignedStart(s);
    }
  }

  /**
   * `parseInt(q) || fallback`: an absent query value reads as `undefined`,
   * which parses to NaN; NaN and 0 are falsy and give `fallback`.
   */
  function QueryNumber(q: Option<string>, fallback: int): (v: int)
    ensures v == fallback || (q.Some? && ParseInt(q.value) == Some(v) && v != 0)
    ensures q.Some? && ParseInt(q.value).Some? && ParseInt(q.value).value != 0 ==>
      v == ParseInt(q.value).value
    ensures q.None? ==> v == fallback
    ensures fallback != 0 ==> v != 0
  {
    match q
    case None => fallback
    case Some(text) =>
      match ParseInt(text)
      case None => fallback
      case Some(n) => if n == 0 then fallback else n
  }

  // ---------------------------------------------------------------------------
  // Round trip with decimal text

  /** The decimal text of `n`, without leading zeros. */
  function DecimalString(n: nat): (s: string)
    ensures |s| > 0 && AllDigits(s)
    ensures s[0] == '0' ==> n == 0 && |s| == 1
  {
    var d := ['0' + (n % 10) as char];
    if n < 10 then d else DecimalString(n / 10) + d
  }

  /** A number below ten is written as its one digit. */
  lemma OneDigit(n: nat)
    requires n < 10
    ensures DecimalString(n) == ['0' + n as char]
  {
    assert n % 10 == n;
  }

  lemma {:induction false} DecimalValue(n: nat)
    ensures AllRadixDigits(DecimalString(n), 10)
    ensures Value(DecimalString(n), 10) == n
  {
    var s := DecimalString(n);
    if n >= 10 {
      DecimalValue(n / 10);
      assert s[..|s| - 1] == DecimalString(n / 10);
    }
  }

  /** The digit prefix of a digit string followed by a non-digit is that digit string. */
  lemma {:induction false} PrefixOfDigits(ds: string, rest: string)
    requires AllDigits(ds) && (rest == [] || !IsDigit(rest[0]))
    ensures DigitPrefix(ds + rest, 10) == |ds|
  {
    if ds != [] {
      assert (ds + rest)[1..] == ds[1..] + rest;
      PrefixOfDigits(ds[1..], rest);
    } else {
      assert ds + rest == rest;
    }
  }

  /** Decimal digits without a hex prefix are read in base 10, up to the first non-digit. */
  lemma UnsignedDecimal(u: string)
    requires |u| > 0 && IsDigit(u[0]) && !HexPrefix(u)
    ensures ParseUnsigned(u) == Some(Value(u[..DigitPrefix(u, 10)], 10))
  {
    assert DigitValue(u[0], 10).Some?;
  }

  /** Unsigned text after any leading white space is read without a sign. */
  lemma UnsignedInput(input: string)
    requires var s := TrimStart(input); |s| > 0 && IsDigit(s[0])
    ensures ParseInt(input) == ParseUnsigned(TrimStart(input))
  {
    UnsignedTrimmed(TrimStart(input));
  }

  /** Text starting with a digit has no sign and is read as unsigned. */
  lemma UnsignedTrimmed(s: string)
    requires |s| > 0 && IsDigit(s[0])
    ensures ParseTrimmed(s) == ParseUnsigned(s)
  {
    assert s[0] != '-' && s[0] != '+';
  }


  /**
   * `parseInt` reads back the decimal text of any natural number, after any
   * leading white space and before any trailing text that does not continue
   * the number (a following `x` after a lone `0` would make it a hex prefix).
   */
  lemma ParseDecimal(spaces: string, n: nat, rest: string)
    requires forall i :: 0 <= i < |spaces| ==> IsJsSpace(spaces[i])
    requires rest == [] || (!IsDigit(rest[0]) && (n != 0 || (rest[0] != 'x' && rest[0] != 'X')))
    ensures ParseInt(spaces + DecimalString(n) + rest) == Some(n)
  {
    var ds := DecimalString(n);
    var text := ds + rest;
    assert text[0] == ds[0];
    TrimSpaces(spaces, text);
    assert spaces + ds + rest == spaces + text;
    UnsignedInput(spaces + text);
    DecimalUnsigned(n, rest);
  }

  /** The unsigned reading of a number's decimal text, before text that does not continue it. */
  lemma DecimalUnsigned(n: nat, rest: string)
    requires rest == [] || (!IsDigit(rest[0]) && (n != 0 || (rest[0] != 'x' && rest[0] != 'X')))
    ensures ParseUnsigned(DecimalString(n) + rest) == Some(n)
  {
    var ds := DecimalString(n);
    var text := ds + rest;
    assert text[0] == ds[0];
    assert |text| >= 2 && text[0] == '0' ==> text[1] == rest[0];
    assert !HexPrefix(text);
    UnsignedDecimal(text);
    PrefixOfDigits(ds, rest);
    DecimalValue(n);
    assert text[..|ds|] == ds;
  }

  /** A minus sign before a number's decimal text negates it. */
  lemma NegatedDecimal(n: nat)
    ensures ParseInt("-" + DecimalString(n)) == Some(-(n as int))
  {
    var ds := DecimalString(n);
    MinusFirst(ds);
    assert ParseUnsigned(ds) == Some(n) by {
      DecimalUnsigned(n, "");
      assert ds + "" == ds;
    }
    NegativeSign("-" + ds, n);
    assert ParseInt("-" + ds) == ParseTrimmed("-" + ds);
  }

  /** A minus sign is not white space, and what follows it is the rest. */
  lemma MinusFirst(t: string)
    ensures TrimStart("-" + t) == "-" + t && ("-" + t)[1..] == t
  {
    assert ("-" + t)[0] == '-';
  }

  /** A minus sign before an unsigned number `m` reads as `-m`. */
  lemma NegativeSign(s: string, m: nat)
    requires |s| > 0 && s[0] == '-' && ParseUnsigned(s[1..]) == Some(m)
    ensures ParseTrimmed(s) == Some(-(m as int))
  {
  }

  lemma {:induction false} TrimSpaces(spaces: string, text: string)
    requires forall i :: 0 <= i < |spaces| ==> IsJsSpace(spaces[i])
    requires text == [] || !IsJsSpace(text[0])
    ensures TrimStart(spaces + text) == text
  {
    if spaces != [] {
      assert (spaces + text)[1..] == spaces[1..] + text;
      TrimSpaces(spaces[1..], text);
    } else {
      assert spaces + text == text;
    }
  }

  /** A query value holding a number's decimal text gives that number, or `fallback` for 0. */
  lemma QueryDecimal(n: nat, fallback: int)
    ensures QueryNumber(Some(DecimalString(n)), fallback) == if n == 0 then fallback else n
  {
    ReadsOwnDecimal(n);
    QueryParsed(DecimalString(n), n, fallback);
  }

  /** A number's decimal text on its own reads back as the number. */
  lemma ReadsOwnDecimal(n: nat)
    ensures ParseInt(DecimalString(n)) == Some(n)
  {
    var ds := DecimalString(n);
    assert TrimStart(ds) == ds by {
      assert !IsJsSpace(ds[0]);
    }
    UnsignedTrimmed(ds);
    assert ParseUnsigned(ds) == Some(n) by {
      DecimalUnsigned(n, "");
      assert ds + "" == ds;
    }
  }

  /** Whatever `parseInt` reads is used unless it is 0. */
  lemma QueryParsed(text: string, n: int, fallback: int)
    requires ParseInt(text) == Some(n)
    ensures QueryNumber(Some(text), fallback) == if n == 0 then fallback else n
  {
  }

  /** `parseInt` on text that does not start a number is NaN, so the fallback wins. */
  lemma NonNumericQuery(text: string, fallback: int)
    requires var s := TrimStart(text); s == [] || !(IsDigit(s[0]) || s[0] == '-' || s[0] == '+')
    ensures ParseInt(text) == None
    ensures QueryNumber(Some(text), fallback) == fallback
  {
  }

  /** A `0x` prefix switches to base 16. */
  lemma ParseHex()
    ensures ParseUnsigned("0x1A") == Some(26)
  {
    assert HexPrefix("0x1A") && "0x1A"[2..] == "1A";
    assert DigitPrefix("1A", 16) == 2 by {
      assert "1A"[1..] == "A" && "A"[1..] == "";
    }
    assert "1A"[..2] == "1A";
    assert Value("1A", 16) == 26 by {
      assert "1A"[..1] == "1" && "1"[..0] == "";
    }
  }
}
