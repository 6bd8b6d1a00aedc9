/**
 * Python's `int(s)` on a string and `str(n)` on an integer, as far as the request
 * handlers rely on them: `int(data["courseId"])` when a course id arrives as text,
 * and `f"Course ID {course_id}"` when a course has no catalog row.
 *
 * `int(s)` accepts surrounding whitespace, an optional sign and decimal digits with
 * single underscores between them; anything else raises ValueError (`None` here).
 */
module Conversions {
  import opened Wrappers

  predicate IsDigit(ch: char) { '0' <= ch <= '9' }

  /** The ASCII characters `int()` strips around its text: space, and tab through carriage return. */
  predicate IsSpace(ch: char) {
    ch == ' ' || 9 <= ch as int <= 13
  }

  function DigitValue(ch: char): nat { if IsDigit(ch) then (ch - '0') as nat else 0 }

  function DigitChar(d: nat): (ch: char)
    requires d < 10
    ensures IsDigit(ch) && DigitValue(ch) == d
  {
    ('0' as int + d) as char
  }

  /** Drops leading whitespace; the result is a suffix of `s`. */
  function TrimLeft(s: string): (r: string)
    ensures |r| <= |s| && r == s[|s| - |r|..]
    ensures r == [] || !IsSpace(r[0])
  {
    if |s| > 0 && IsSpace(s[0]) then TrimLeft(s[1..]) else s
  }

  /** Drops trailing whitespace; the result is a prefix of `s`. */
  function TrimRight(s: string): (r: string)
    ensures |r| <= |s| && r == s[..|r|]
    ensures r == [] || !IsSpace(r[|r| - 1])
  {
    if |s| > 0 && IsSpace(s[|s| - 1]) then TrimRight(s[..|s| - 1]) else s
  }

  function Strip(s: string): string { TrimRight(TrimLeft(s)) }

  /** A base-10 digit string as `int()` reads it: digits, with single underscores only between two digits. */
  predicate WellFormedDigits(d: string) {
    && |d| > 0 && IsDigit(d[0]) && IsDigit(d[|d| - 1])
    && (forall i :: 0 <= i < |d| ==> IsDigit(d[i]) || d[i] == '_')
    && (forall i, j :: 0 <= i < |d| && 0 <= j < |d| && j == i + 1 ==> d[i] != '_' || d[j] != '_')
  }

  /** The value of a digit string, underscores ignored. */
  function DigitsValue(d: string): nat {
    if d == [] then 0
    else if d[|d| - 1] == '_' then DigitsValue(d[..|d| - 1])
    else DigitsValue(d[..|d| - 1]) * 10 + DigitValue(d[|d| - 1])
  }

  /** `int(s)` for a string `s`: `None` stands for the ValueError. */
  function ParseIntLiteral(s: string): (r: Option<int>)
    ensures r.Some? ==> exists i :: 0 <= i < |s| && IsDigit(s[i])
  {
    var t := Strip(s);
    var left := TrimLeft(s);
    assert t == left[..|t|] && left == s[|s| - |left|..];
    var r := ParseSigned(t);
    if r.Some? then
      var k :| 0 <= k < |t| && IsDigit(t[k]);
      assert s[|s| - |left| + k] == t[k];
      r
    else r
  }

  /** An optional sign and then a well-formed digit string, with nothing around them. */
  function ParseSigned(t: string): (r: Option<int>)
    ensures r.Some? ==> exists k :: 0 <= k < |t| && IsDigit(t[k])
  {
    if |t| > 0 && (t[0] == '+' || t[0] == '-') then
      var d := t[1..];
      if WellFormedDigits(d) then
        assert t[1] == d[0];
        var v: int := DigitsValue(d);
        Some(if t[0] == '-' then -v else v)
      else None
    else if WellFormedDigits(t) then
      Some(DigitsValue(t))
    else None
  }

  /** `str(n)` for a non-negative `n`: its decimal digits, most significant first. */
  function NatDigits(n: nat): (s: string)
    ensures |s| > 0 && forall i :: 0 <= i < |s| ==> IsDigit(s[i])
  {
    if n < 10 then [DigitChar(n)] else NatDigits(n / 10) + [DigitChar(n % 10)]
  }

  /** `str(n)` for any integer `n`. */
  function DecimalString(n: int): string {
    if n < 0 then "-" + NatDigits(-n) else NatDigits(n)
  }

  lemma {:induction false} NatDigitsValue(n: nat)
    ensures WellFormedDigits(NatDigits(n)) && DigitsValue(NatDigits(n)) == n
  {
    if n >= 10 {
      NatDigitsValue(n / 10);
      var s := NatDigits(n);
      assert s[..|s| - 1] == NatDigits(n / 10);
    }
  }

  /** Leading and trailing whitespace, each side on its own, never changes what `int()` reads. */
  lemma {:induction false} PaddingIgnored(s: string, left: string, right: string)
    requires forall i :: 0 <= i < |left| ==> IsSpace(left[i])
    requires forall i :: 0 <= i < |right| ==> IsSpace(right[i])
    ensures ParseIntLiteral(left + s + right) == ParseIntLiteral(s)
  {
    StripPadded(s, left, right);
  }

  lemma {:induction false} StripPadded(s: string, left: string, right: string)
    requires forall i :: 0 <= i < |left| ==> IsSpace(left[i])
    requires forall i :: 0 <= i < |right| ==> IsSpace(right[i])
    ensures Strip(left + s + right) == Strip(s)
  {
    calc {
      Strip(left + s + right);
      { assert left + s + right == left + (s + right); }
      TrimRight(TrimLeft(left + (s + right)));
      { TrimLeftPadded(s + right, left); }
      TrimRight(TrimLeft(s + right));
      { TrimLeftAppend(s, right); }
      TrimRight(TrimLeft(s));
    }
  }

  lemma {:induction false} TrimLeftPadded(s: string, pad: string)
    requires forall i :: 0 <= i < |pad| ==> IsSpace(pad[i])
    ensures TrimLeft(pad + s) == TrimLeft(s)
  {
    if pad != [] {
      assert IsSpace((pad + s)[0]) && (pad + s)[1..] == pad[1..] + s;
      assert TrimLeft(pad + s) == TrimLeft(pad[1..] + s);
      TrimLeftPadded(s, pad[1..]);
    } else {
      assert pad + s == s;
    }
  }

  lemma {:induction false} TrimRightPadded(s: string, pad: string)
    requires forall i :: 0 <= i < |pad| ==> IsSpace(pad[i])
    ensures TrimRight(s + pad) == TrimRight(s)
  {
    if pad != [] {
      var p := pad[..|pad| - 1];
      assert IsSpace((s + pad)[|s + pad| - 1]) && (s + pad)[..|s + pad| - 1] == s + p;
      assert TrimRight(s + pad) == TrimRight(s + p);
      TrimRightPadded(s, p);
    } else {
      assert s + pad == s;
    }
  }

  /** Trimming the left of `s + pad` leaves `pad` at the end, unless `s` is all whitespace. */
  lemma {:induction false} TrimLeftAppend(s: string, pad: string)
    requires forall i :: 0 <= i < |pad| ==> IsSpace(pad[i])
    ensures TrimRight(TrimLeft(s + pad)) == TrimRight(TrimLeft(s))
  {
    if |s| > 0 && IsSpace(s[0]) {
      assert (s + pad)[1..] == s[1..] + pad;
      TrimLeftAppend(s[1..], pad);
    } else if |s| > 0 {
      assert TrimLeft(s + pad) == s + pad;
      TrimRightPadded(s, pad);
    } else {
      assert s + pad == pad;
      AllSpaceTrims(pad);
    }
  }

  lemma {:induction false} AllSpaceTrims(pad: string)
    requires forall i :: 0 <= i < |pad| ==> IsSpace(pad[i])
    ensures TrimLeft(pad) == []
  {
    if pad != [] { AllSpaceTrims(pad[1..]); }
  }

  /** `int(str(n)) == n`: the decimal text of an integer reads back as that integer. */
  lemma ParseDecimalString(n: int)
    ensures ParseIntLiteral(DecimalString(n)) == Some(n)
  {
    var s := DecimalString(n);
    StripDecimalString(n);
    assert Strip(s) == s;
    ParseSignedDecimalString(n);
  }

  lemma ParseSignedDecimalString(n: int)
    ensures ParseSigned(DecimalString(n)) == Some(n)
  {
    if n < 0 {
      var d := NatDigits(-n);
      NatDigitsValue(-n);
      var s := "-" + d;
      assert s[1..] == d;
    } else {
      NatDigitsValue(n);
    }
  }

  lemma StripDecimalString(n: int)
    ensures Strip(DecimalString(n)) == DecimalString(n)
  {
    var s := DecimalString(n);
    var d := NatDigits(if n < 0 then -n else n);
    assert s[|s| - 1] == d[|d| - 1];
    StripUnpadded(s);
  }

  lemma StripUnpadded(s: string)
    requires |s| > 0 && !IsSpace(s[0]) && !IsSpace(s[|s| - 1])
    ensures Strip(s) == s
  {
    assert TrimLeft(s) == s;
  }
}
