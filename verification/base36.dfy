/** Radix-36 text for integers, as the codec writes it with
    `Number.prototype.toString(36)` and reads it back with `parseInt(s, 36)`. */
module Base36 {
  import opened Optional

  /** The lower-case digit for a value below 36, as `toString(36)` writes it. */
  function DigitChar(v: nat): (c: char)
    requires v < 36
    ensures '0' <= c <= '9' || 'a' <= c <= 'z'
  {
    if v < 10 then ('0' as int + v) as char else ('a' as int + v - 10) as char
  }

  /** The value of a radix-36 digit; `parseInt` accepts both letter cases. */
  function DigitValue(c: char): (r: Option<nat>)
    ensures r.Some? ==> r.value < 36
  {
    if '0' <= c <= '9' then Some(c as int - '0' as int)
    else if 'a' <= c <= 'z' then Some(c as int - 'a' as int + 10)
    else if 'A' <= c <= 'Z' then Some(c as int - 'A' as int + 10)
    else None
  }

  predicate IsDigit(c: char)
  {
    DigitValue(c).Some?
  }

  lemma DigitCharValue(v: nat)
    requires v < 36
    ensures DigitValue(DigitChar(v)) == Some(v)
  {
  }

  /** `n.toString(36)` for a non-negative integer: lower-case digits, most
      significant first, without leading zeros. */
  function NatToBase36(n: nat): (r: string)
    ensures |r| >= 1
  {
    if n < 36 then [DigitChar(n)]
    else NatToBase36(n / 36) + [DigitChar(n % 36)]
  }

  /** `n.toString(36)` for any integer: a minus sign before the digits of
      the magnitude when `n` is negative. */
  function ToBase36(n: int): (r: string)
    ensures |r| >= 1
  {
    if n < 0 then "-" + NatToBase36(-n) else NatToBase36(n)
  }

  /** `toString(36)` writes only lower-case digits, with no leading zero. */
  lemma {:induction false} NatToBase36Alphabet(n: nat)
    ensures forall i :: 0 <= i < |NatToBase36(n)| ==> '0' <= NatToBase36(n)[i] <= '9' || 'a' <= NatToBase36(n)[i] <= 'z'
    ensures NatToBase36(n)[0] == '0' <==> n == 0
  {
    if n >= 36 {
      NatToBase36Alphabet(n / 36);
    }
  }

  /** The text of any integer is digits, with a minus sign first exactly
      when the integer is negative. */
  lemma Base36Alphabet(n: int)
    ensures forall i :: 0 <= i < |ToBase36(n)| ==> ToBase36(n)[i] == '-' || IsDigit(ToBase36(n)[i])
    ensures (ToBase36(n)[0] == '-') <==> n < 0
  {
    NatToBase36Alphabet(if n < 0 then -n else n);
  }

  /** The number written by a string of radix-36 digits. */
  function DigitsValue(s: string): nat
    requires forall i :: 0 <= i < |s| ==> IsDigit(s[i])
  {
    if |s| == 0 then 0
    else
      assert IsDigit(s[|s| - 1]);
      DigitsValue(s[..|s| - 1]) * 36 + DigitValue(s[|s| - 1]).value
  }

  /** The length of the longest prefix of `s` made of radix-36 digits. */
  function DigitPrefix(s: string): (k: nat)
    ensures k <= |s|
    ensures forall i :: 0 <= i < k ==> IsDigit(s[i])
    ensures k < |s| ==> !IsDigit(s[k])
  {
    if |s| == 0 || !IsDigit(s[0]) then 0 else 1 + DigitPrefix(s[1..])
  }

  /** The code units `parseInt` skips before the number: white space and
      line terminators of ECMAScript (section 12.2 and 12.3 of ECMA-262). */
  predicate IsWhiteSpace(c: char)
  {
    c == '\t' || c == '\n' || c == '\U{000B}' || c == '\U{000C}' || c == '\r' || c == ' '
    || c == '\U{00A0}' || c == '\U{1680}' || ('\U{2000}' <= c <= '\U{200A}')
    || c == '\U{2028}' || c == '\U{2029}' || c == '\U{202F}' || c == '\U{205F}'
    || c == '\U{3000}' || c == '\U{FEFF}'
  }

  /** `s` without its leading white space. */
  function TrimStart(s: string): string
  {
    if |s| > 0 && IsWhiteSpace(s[0]) then TrimStart(s[1..]) else s
  }

  /** `TrimStart` drops a prefix made only of white space, and what it
      keeps does not start with white space. */
  lemma {:induction false} TrimStartSpec(s: string)
    ensures |TrimStart(s)| <= |s|
    ensures TrimStart(s) == s[|s| - |TrimStart(s)|..]
    ensures forall i :: 0 <= i < |s| - |TrimStart(s)| ==> IsWhiteSpace(s[i])
    ensures |TrimStart(s)| > 0 ==> !IsWhiteSpace(TrimStart(s)[0])
  {
    if |s| > 0 && IsWhiteSpace(s[0]) {
      TrimStartSpec(s[1..]);
      assert forall i :: 1 <= i < |s| ==> s[i] == s[1..][i - 1];
    }
  }

  /** The number written by the longest run of digits at the start of
      `u`, or `None` when `u` does not start with a digit. */
  function LeadingNumber(u: string): Option<int>
  {
    var k := DigitPrefix(u);
    if k == 0 then None else Some(DigitsValue(u[..k]))
  }

  /** `parseInt(s, 36)`: skip leading white space, read an optional sign,
      then the longest run of radix-36 digits; `None` stands for `NaN`,
      which is the result when that run is empty. Characters after the run
      are ignored. */
  function ParseInt36(s: string): Option<int>
  {
    var t := TrimStart(s);
    if |t| > 0 && t[0] == '-' then
      match LeadingNumber(t[1..])
      case Some(m) => Some(-m)
      case None => None
    else if |t| > 0 && t[0] == '+' then LeadingNumber(t[1..])
    else LeadingNumber(t)
  }

  /** Text that starts with anything other than white space, a sign or a
      digit is not a number: `parseInt` yields `NaN`. */
  lemma ParseRejects(s: string)
    requires |s| > 0 && !IsWhiteSpace(s[0]) && s[0] != '-' && s[0] != '+' && !IsDigit(s[0])
    ensures ParseInt36(s) == None
  {
    assert TrimStart(s) == s;
  }

  lemma {:induction false} DigitsValueOfBase36(n: nat)
    ensures forall i :: 0 <= i < |NatToBase36(n)| ==> IsDigit(NatToBase36(n)[i])
    ensures DigitsValue(NatToBase36(n)) == n
  {
    var r := NatToBase36(n);
    if n >= 36 {
      var p := NatToBase36(n / 36);
      DigitsValueOfBase36(n / 36);
      assert r[..|r| - 1] == p;
      DigitCharValue(n % 36);
    } else {
      DigitCharValue(n);
    }
  }

  lemma DigitIsNotWhiteSpace(c: char)
    requires IsDigit(c)
    ensures !IsWhiteSpace(c) && c != '-' && c != '+'
  {
  }

  /** A non-empty run of digits parses to the number it writes. */
  lemma ParseDigits(s: string)
    requires |s| > 0
    requires forall i :: 0 <= i < |s| ==> IsDigit(s[i])
    ensures ParseInt36(s) == Some(DigitsValue(s))
  {
    DigitIsNotWhiteSpace(s[0]);
    assert TrimStart(s) == s;
    assert DigitPrefix(s) == |s|;
    assert s[..|s|] == s;
    assert LeadingNumber(s) == Some(DigitsValue(s));
  }

  /** `parseInt(n.toString(36), 36) == n` for every integer `n`, negative
      ones included. */
  lemma ParseToBase36(n: int)
    ensures ParseInt36(ToBase36(n)) == Some(n)
  {
    var m := if n < 0 then -n else n;
    var digits := NatToBase36(m);
    DigitsValueOfBase36(m);
    if n < 0 {
      var s := "-" + digits;
      assert !IsWhiteSpace(s[0]);
      assert TrimStart(s) == s;
      assert s[1..] == digits;
      assert DigitPrefix(digits) == |digits|;
      assert digits[..|digits|] == digits;
      assert LeadingNumber(digits) == Some(m);
    } else {
      ParseDigits(digits);
    }
  }
}
