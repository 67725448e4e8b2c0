/** The string operations the pages use, on `seq<char>`:
    ASCII case mapping (standing in for `toLowerCase`/`toUpperCase`),
    `includes`, `trim`, and `parseInt`. */
module Text {
  import opened Base

  predicate IsUpperAscii(c: char) { 'A' <= c <= 'Z' }

  predicate IsLowerAscii(c: char) { 'a' <= c <= 'z' }

  function LowerChar(c: char): (d: char)
    ensures !IsUpperAscii(d)
    ensures IsLowerAscii(d) <==> IsLowerAscii(c) || IsUpperAscii(c)
  {
    if IsUpperAscii(c) then (c as int + 32) as char else c
  }

  function UpperChar(c: char): (d: char)
    ensures !IsLowerAscii(d)
    ensures IsUpperAscii(d) <==> IsLowerAscii(c) || IsUpperAscii(c)
  {
    if IsLowerAscii(c) then (c as int - 32) as char else c
  }

  /** `s.toLowerCase()` restricted to ASCII letters. */
  function Lower(s: string): (r: string)
    ensures |r| == |s|
    ensures forall i :: 0 <= i < |s| ==> r[i] == LowerChar(s[i])
  {
    seq(|s|, i requires 0 <= i < |s| => LowerChar(s[i]))
  }

  /** `s.toUpperCase()` restricted to ASCII letters. */
  function Upper(s: string): (r: string)
    ensures |r| == |s|
    ensures forall i :: 0 <= i < |s| ==> r[i] == UpperChar(s[i])
  {
    seq(|s|, i requires 0 <= i < |s| => UpperChar(s[i]))
  }

  /** Lower-casing a string that has been upper- or lower-cased gives the
      same string as lower-casing the original: the case of a search term
      is forgotten once it is lower-cased. */
  lemma LowerForgetsCase(s: string)
    ensures Lower(Lower(s)) == Lower(s)
    ensures Lower(Upper(s)) == Lower(s)
  {
    assert forall i :: 0 <= i < |s| ==> Lower(Upper(s))[i] == Lower(s)[i];
  }

  predicate IsPrefix(p: string, s: string) {
    |p| <= |s| && s[..|p|] == p
  }

  /** `hay.includes(needle)`, as a left-to-right scan. */
  predicate Contains(hay: string, needle: string)
    decreases |hay|
  {
    IsPrefix(needle, hay) || (|hay| > 0 && Contains(hay[1..], needle))
  }

  /** `needle` occurs in `hay` starting at index `i`. */
  ghost predicate OccursAt(hay: string, needle: string, i: int) {
    0 <= i && i + |needle| <= |hay| && hay[i..i + |needle|] == needle
  }

  /** The scan finds `needle` exactly when it occurs at some index. */
  lemma {:induction false} ContainsIffOccurs(hay: string, needle: string)
    ensures Contains(hay, needle) <==> exists i :: OccursAt(hay, needle, i)
    decreases |hay|
  {
    if Contains(hay, needle) {
      if IsPrefix(needle, hay) {
        assert OccursAt(hay, needle, 0);
      } else {
        ContainsIffOccurs(hay[1..], needle);
        assert |hay| > 0 && Contains(hay[1..], needle);
        var i :| OccursAt(hay[1..], needle, i);
        assert hay[i + 1..i + 1 + |needle|] == hay[1..][i..i + |needle|];
        assert OccursAt(hay, needle, i + 1);
      }
    }
    forall i | OccursAt(hay, needle, i) ensures Contains(hay, needle) {
      if i == 0 {
        assert IsPrefix(needle, hay);
      } else {
        ContainsIffOccurs(hay[1..], needle);
        assert hay[1..][i - 1..i - 1 + |needle|] == hay[i..i + |needle|];
        assert OccursAt(hay[1..], needle, i - 1);
      }
    }
  }

  /** Case-insensitive substring search as every page writes it:
      `field.toLowerCase().includes(term.toLowerCase())`. */
  predicate MatchesIgnoringCase(field: string, term: string) {
    Contains(Lower(field), Lower(term))
  }

  /** The letter case of the search term does not change a match, and the
      empty term matches every field. */
  lemma MatchIgnoresTermCase(field: string, term: string)
    ensures MatchesIgnoringCase(field, Upper(term)) == MatchesIgnoringCase(field, term)
    ensures MatchesIgnoringCase(field, Lower(term)) == MatchesIgnoringCase(field, term)
    ensures MatchesIgnoringCase(field, "")
  {
    LowerForgetsCase(term);
    assert IsPrefix(Lower(""), Lower(field));
  }

  /** The characters `String.prototype.trim` strips: the ECMAScript
      WhiteSpace and LineTerminator code points. */
  predicate IsJsWhitespace(c: char) {
    var n := c as int;
    n == 0x09 || n == 0x0A || n == 0x0B || n == 0x0C || n == 0x0D || n == 0x20
    || n == 0xA0 || n == 0x1680 || (0x2000 <= n <= 0x200A) || n == 0x2028
    || n == 0x2029 || n == 0x202F || n == 0x205F || n == 0x3000 || n == 0xFEFF
  }

  predicate AllWhitespace(s: string) {
    forall i :: 0 <= i < |s| ==> IsJsWhitespace(s[i])
  }

  function TrimStart(s: string): (r: string)
    ensures |r| <= |s| && r == s[|s| - |r|..]
    ensures |r| > 0 ==> !IsJsWhitespace(r[0])
  {
    if |s| > 0 && IsJsWhitespace(s[0]) then TrimStart(s[1..]) else s
  }

  function TrimEnd(s: string): (r: string)
    ensures |r| <= |s| && r == s[..|r|]
    ensures |r| > 0 ==> !IsJsWhitespace(r[|r| - 1])
  {
    if |s| > 0 && IsJsWhitespace(s[|s| - 1]) then TrimEnd(s[..|s| - 1]) else s
  }

  /** `TrimStart` drops only whitespace. */
  lemma {:induction false} TrimStartDropsWhitespace(s: string)
    ensures AllWhitespace(s[..|s| - |TrimStart(s)|])
  {
    if |s| > 0 && IsJsWhitespace(s[0]) {
      var r := TrimStart(s[1..]);
      TrimStartDropsWhitespace(s[1..]);
      assert s[..|s| - |r|] == [s[0]] + s[1..][..|s| - 1 - |r|];
    }
  }

  /** `TrimEnd` drops only whitespace. */
  lemma {:induction false} TrimEndDropsWhitespace(s: string)
    ensures AllWhitespace(s[|TrimEnd(s)|..])
  {
    if |s| > 0 && IsJsWhitespace(s[|s| - 1]) {
      var r := TrimEnd(s[..|s| - 1]);
      TrimEndDropsWhitespace(s[..|s| - 1]);
      assert s[|r|..] == s[..|s| - 1][|r|..] + [s[|s| - 1]];
    }
  }

  /** `s.trim()`. */
  function Trim(s: string): string {
    TrimEnd(TrimStart(s))
  }

  /** A trimmed string is empty exactly when the original is all
      whitespace. */
  lemma TrimEmptyIffBlank(s: string)
    ensures Trim(s) == "" <==> AllWhitespace(s)
  {
    var a := TrimStart(s);
    TrimStartDropsWhitespace(s);
    TrimEndDropsWhitespace(a);
    if TrimEnd(a) == "" {
      assert a == "";
      forall i | 0 <= i < |s| ensures IsJsWhitespace(s[i]) {
        assert s[i] == s[..|s| - |a|][i];
      }
    } else {
      assert a[0] == s[|s| - |a|];
    }
  }

  /** Trimming twice is trimming once. */
  lemma TrimIdempotent(s: string)
    ensures Trim(Trim(s)) == Trim(s)
  {
    var a := TrimStart(s);
    var b := TrimEnd(a);
    if b != "" {
      assert b[0] == a[0];
      TrimStartKeeps(b);
    }
  }

  /** The value of a digit character in bases up to 16, or -1. */
  function DigitOf(c: char): (d: int)
    ensures -1 <= d < 16
  {
    if '0' <= c <= '9' then c as int - '0' as int
    else if 'a' <= c <= 'f' then c as int - 'a' as int + 10
    else if 'A' <= c <= 'F' then c as int - 'A' as int + 10
    else -1
  }

  predicate IsDigitIn(c: char, radix: nat) {
    0 <= DigitOf(c) < radix
  }

  /** Every character of `ds` is a digit of the radix. */
  predicate IsNumeral(ds: string, radix: nat) {
    forall i :: 0 <= i < |ds| ==> IsDigitIn(ds[i], radix)
  }

  /** The longest prefix of `s` made of digits of the given radix. */
  function LeadingDigits(s: string, radix: nat): (ds: string)
    ensures ds <= s
    ensures IsNumeral(ds, radix)
    ensures |ds| < |s| ==> !IsDigitIn(s[|ds|], radix)
  {
    if |s| > 0 && IsDigitIn(s[0], radix) then [s[0]] + LeadingDigits(s[1..], radix) else []
  }

  /** The number that a string of digits denotes, most significant first. */
  function DigitsValue(ds: string, radix: nat): nat
    requires IsNumeral(ds, radix)
  {
    if |ds| == 0 then 0
    else
      assert IsDigitIn(ds[|ds| - 1], radix);
      DigitsValue(ds[..|ds| - 1], radix) * radix + DigitOf(ds[|ds| - 1])
  }

  /** `parseInt(s)` with no radix: leading whitespace is skipped, one sign
      is read, a `0x`/`0X` prefix selects base 16, and the longest run of
      digits that follows is converted. No digits gives `NaN`, which a row
      sent to the store serialises as `null`: that is `None` here. */
  function ParseInt(s: string): Option<int> {
    ParseSigned(TrimStart(s))
  }

  /** The part of `parseInt` after the whitespace: an optional sign. */
  function ParseSigned(t: string): Option<int> {
    if |t| > 0 && t[0] == '-' then
      match ParseUnsigned(t[1..])
      case None => None
      case Some(v) => Some(-v)
    else if |t| > 0 && t[0] == '+' then ParseUnsigned(t[1..])
    else ParseUnsigned(t)
  }

  /** The part of `parseInt` after the sign: radix prefix and digits. */
  function ParseUnsigned(u: string): Option<int> {
    if |u| >= 2 && u[0] == '0' && (u[1] == 'x' || u[1] == 'X') then
      var ds := LeadingDigits(u[2..], 16);
      if |ds| == 0 then None else Some(DigitsValue(ds, 16))
    else
      var ds := LeadingDigits(u, 10);
      if |ds| == 0 then None else Some(DigitsValue(ds, 10))
  }

  function DecimalDigit(d: nat): (c: char)
    requires d < 10
    ensures IsDigitIn(c, 10) && DigitOf(c) == d
  {
    ('0' as int + d) as char
  }

  /** The decimal rendering of a natural number (`String(n)`), which is what
      a number input holds once a user has typed a count into it. */
  function ShowNat(n: nat): (s: string)
    ensures |s| > 0
  {
    if n < 10 then [DecimalDigit(n)] else ShowNat(n / 10) + [DecimalDigit(n % 10)]
  }

  lemma {:induction false} ShowNatIsDecimal(n: nat)
    ensures IsNumeral(ShowNat(n), 10)
  {
    if n >= 10 {
      ShowNatIsDecimal(n / 10);
    }
  }

  lemma {:induction false} DigitsValueOfShowNat(n: nat)
    ensures IsNumeral(ShowNat(n), 10) && DigitsValue(ShowNat(n), 10) == n
  {
    ShowNatIsDecimal(n);
    var s := ShowNat(n);
    if n >= 10 {
      assert s[..|s| - 1] == ShowNat(n / 10);
      DigitsValueOfShowNat(n / 10);
    }
  }

  lemma {:induction false} LeadingDigitsOfDigits(s: string, radix: nat)
    requires IsNumeral(s, radix)
    ensures LeadingDigits(s, radix) == s
  {
    if |s| > 0 {
      LeadingDigitsOfDigits(s[1..], radix);
    }
  }

  /** No digit is whitespace, a sign, or the `x` of a radix prefix. */
  lemma DigitIsNoMarker(c: char)
    requires IsDigitIn(c, 16)
    ensures !IsJsWhitespace(c) && c != '-' && c != '+' && c != 'x' && c != 'X'
  {
  }

  lemma TrimStartKeeps(s: string)
    requires |s| > 0 && !IsJsWhitespace(s[0])
    ensures TrimStart(s) == s
  {
  }

  lemma ParseIntUnsigned(s: string)
    requires |s| > 0 && !IsJsWhitespace(s[0]) && s[0] != '-' && s[0] != '+'
    ensures ParseInt(s) == ParseUnsigned(s)
  {
    TrimStartKeeps(s);
  }

  /** A minus sign negates what the rest parses to. */
  lemma ParseIntNegated(s: string, v: int)
    requires ParseUnsigned(s) == Some(v)
    ensures ParseInt("-" + s) == Some(-v)
  {
    var m := "-" + s;
    assert m[0] == '-' && !IsJsWhitespace(m[0]);
    TrimStartKeeps(m);
    assert m[1..] == s;
    assert ParseSigned(m) == Some(-v);
  }

  lemma ParseUnsignedDecimal(s: string)
    requires |s| > 0
    requires IsNumeral(s, 10)
    ensures ParseUnsigned(s) == Some(DigitsValue(s, 10) as int)
  {
    LeadingDigitsOfDigits(s, 10);
    if |s| >= 2 {
      DigitIsNoMarker(s[1]);
    }
  }

  /** A run of decimal digits parses to its value. */
  lemma ParseIntOfDecimal(s: string)
    requires |s| > 0
    requires IsNumeral(s, 10)
    ensures ParseInt(s) == Some(DigitsValue(s, 10) as int)
  {
    ParseUnsignedDecimal(s);
    assert IsDigitIn(s[0], 10);
    DigitIsNoMarker(s[0]);
    ParseIntUnsigned(s);
  }

  /** The digit run stops at the first character that is not a digit. */
  lemma {:induction false} LeadingDigitsStops(ds: string, rest: string, radix: nat)
    requires IsNumeral(ds, radix)
    requires |rest| == 0 || !IsDigitIn(rest[0], radix)
    ensures LeadingDigits(ds + rest, radix) == ds
  {
    if |ds| == 0 {
      assert ds + rest == rest;
    } else {
      assert (ds + rest)[1..] == ds[1..] + rest;
      LeadingDigitsStops(ds[1..], rest, radix);
    }
  }

  /** What may follow a decimal numeral without extending it or turning a
      leading `0` into a radix prefix: nothing, or a first character that is
      neither a decimal digit nor `x`/`X` (a decimal point, an exponent). */
  predicate EndsDecimal(rest: string) {
    |rest| == 0 || (!IsDigitIn(rest[0], 10) && rest[0] != 'x' && rest[0] != 'X')
  }

  /** After the sign: the numeral is read in base 10 and the rest ignored. */
  lemma {:induction false} ParseUnsignedOfDecimalPrefix(ds: string, rest: string)
    requires |ds| > 0 && IsNumeral(ds, 10) && EndsDecimal(rest)
    ensures ParseUnsigned(ds + rest) == Some(DigitsValue(ds, 10) as int)
  {
    var u := ds + rest;
    assert LeadingDigits(u, 10) == ds by {
      LeadingDigitsStops(ds, rest, 10);
    }
    assert !(|u| >= 2 && u[0] == '0' && (u[1] == 'x' || u[1] == 'X')) by {
      if |u| >= 2 && |ds| >= 2 {
        assert u[1] == ds[1] && IsDigitIn(ds[1], 10);
        DigitIsNoMarker(ds[1]);
      } else if |u| >= 2 {
        assert u[1] == rest[0];
      }
    }
  }

  /** A decimal numeral followed by anything that is neither a digit nor
      the `x` of a radix prefix parses to the numeral's value: the rest is
      ignored. */
  lemma ParseIntOfDecimalPrefix(ds: string, rest: string)
    requires |ds| > 0 && IsNumeral(ds, 10) && EndsDecimal(rest)
    ensures ParseInt(ds + rest) == Some(DigitsValue(ds, 10) as int)
  {
    var u := ds + rest;
    ParseUnsignedOfDecimalPrefix(ds, rest);
    assert u[0] == ds[0] && IsDigitIn(ds[0], 10);
    DigitIsNoMarker(ds[0]);
    ParseIntUnsigned(u);
  }

  /** `parseInt` reads back what `ShowNat` writes. */
  lemma ParseIntShowNat(n: nat)
    ensures ParseInt(ShowNat(n)) == Some(n as int)
  {
    var s := ShowNat(n);
    DigitsValueOfShowNat(n);
    ParseIntOfDecimal(s);
  }
}
