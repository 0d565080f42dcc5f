/**
 * Python's `int(text)` on a `str`, base 10: surrounding whitespace is
 * ignored, one optional sign, then ASCII digits in which single underscores
 * may separate digits.
 *
 * The whitespace `int()` skips is not the set `str.strip()` removes: CPython
 * first turns every non-ASCII whitespace character into a space and then
 * skips only `\t\n\v\f\r` and the space, so the ASCII separators
 * U+001C to U+001F, which `str.isspace()` accepts, are not skipped.
 */
module Integers {
  import opened Wrappers
  import opened Errors
  import opened Text

  /** A character `int()` skips around the digits. */
  predicate IsIntSpace(c: char) {
    IsSpace(c) && !(28 <= c as int <= 31)
  }

  predicate AllIntSpace(s: string) {
    forall i :: 0 <= i < |s| ==> IsIntSpace(s[i])
  }

  predicate IsIntStripped(s: string) {
    s == [] || (!IsIntSpace(s[0]) && !IsIntSpace(s[|s| - 1]))
  }

  /** The number of characters skipped before the sign or the digits. */
  function LeadingIntSpaces(s: string): (n: nat)
    ensures n <= |s|
    ensures AllIntSpace(s[..n])
    ensures n < |s| ==> !IsIntSpace(s[n])
  {
    if s == [] || !IsIntSpace(s[0]) then 0 else 1 + LeadingIntSpaces(s[1..])
  }

  /** The number of characters skipped after the digits. */
  function TrailingIntSpaces(s: string): (n: nat)
    ensures n <= |s|
    ensures AllIntSpace(s[|s| - n..])
    ensures n < |s| ==> !IsIntSpace(s[|s| - 1 - n])
  {
    if s == [] || !IsIntSpace(s[|s| - 1]) then 0 else 1 + TrailingIntSpaces(s[..|s| - 1])
  }

  /** The text `int()` reads: `s` without the maximal runs of skipped characters at both ends. */
  function IntStrip(s: string): (r: string)
    ensures IsIntStripped(r)
    ensures var a := LeadingIntSpaces(s);
      && a + |r| <= |s| && s[a..a + |r|] == r
      && AllIntSpace(s[..a]) && AllIntSpace(s[a + |r|..])
  {
    var a := LeadingIntSpaces(s);
    var t := s[a..];
    var b := TrailingIntSpaces(t);
    assert t[..|t| - b] == s[a..|s| - b];
    assert t[|t| - b..] == s[|s| - b..];
    s[a..|s| - b]
  }

  /** Skipped characters around text with none at its ends are exactly what `int()` skips. */
  lemma {:induction false} IntStripPadded(pre: string, t: string, post: string)
    requires AllIntSpace(pre) && AllIntSpace(post) && IsIntStripped(t)
    requires t != [] || post == []
    ensures IntStrip(pre + t + post) == t
  {
    var s := pre + t + post;
    LeadingOfIntPadded(pre, t + post);
    assert s == pre + (t + post);
    assert s[|pre|..] == t + post;
    TrailingOfIntPadded(t, post);
  }

  lemma {:induction false} LeadingOfIntPadded(pre: string, rest: string)
    requires AllIntSpace(pre)
    requires rest == [] || !IsIntSpace(rest[0])
    ensures LeadingIntSpaces(pre + rest) == |pre|
  {
    if pre != [] {
      assert (pre + rest)[1..] == pre[1..] + rest;
      LeadingOfIntPadded(pre[1..], rest);
    } else {
      assert pre + rest == rest;
    }
  }

  lemma {:induction false} TrailingOfIntPadded(t: string, post: string)
    requires AllIntSpace(post) && IsIntStripped(t)
    requires t != [] || post == []
    ensures TrailingIntSpaces(t + post) == |post|
  {
    if post != [] {
      var s := t + post;
      assert s[..|s| - 1] == t + post[..|post| - 1];
      TrailingOfIntPadded(t, post[..|post| - 1]);
    } else {
      assert t + post == t;
    }
  }

  /** Digits with single underscores only between two digits (`1_000`, not `_1`, `1_` or `1__0`). */
  predicate IsDigitGroup(t: string) {
    && t != []
    && (forall i :: 0 <= i < |t| ==> IsDigit(t[i]) || t[i] == '_')
    && (forall i :: 0 <= i < |t| && t[i] == '_' ==> 0 < i < |t| - 1 && IsDigit(t[i - 1]) && IsDigit(t[i + 1]))
  }

  /** The digits of a digit group, underscores dropped. */
  function DigitsOf(t: string): (d: string)
    requires forall i :: 0 <= i < |t| ==> IsDigit(t[i]) || t[i] == '_'
    ensures AllDigits(d)
    ensures AllDigits(t) ==> d == t
  {
    if t == [] then []
    else (if t[0] == '_' then [] else [t[0]]) + DigitsOf(t[1..])
  }

  /**
   * The most digits `int()` reads from a string: the default of
   * `sys.get_int_max_str_digits()`. Longer literals raise `ValueError`;
   * underscores are not counted, leading zeros are.
   */
  const MaxStrDigits: nat := 4300

  /** A digit group `int()` accepts: well formed and within the digit limit. */
  predicate IsAcceptedGroup(t: string) {
    IsDigitGroup(t) && |DigitsOf(t)| <= MaxStrDigits
  }

  /** `t` (already stripped) is an integer literal `int()` reads as `n`. */
  predicate Literal(t: string, n: int) {
    if |t| > 0 && (t[0] == '+' || t[0] == '-') then
      IsAcceptedGroup(t[1..]) && n == (if t[0] == '-' then -1 else 1) * DecimalValue(DigitsOf(t[1..]))
    else
      IsAcceptedGroup(t) && n == DecimalValue(DigitsOf(t))
  }

  /**
   * `int(s)`: succeeds exactly when the stripped text is a literal of at most
   * `MaxStrDigits` digits, with its value; otherwise raises `ValueError`, here
   * `InvalidInteger(s)`.
   */
  function ParseInt(s: string): (r: Result<int, Error>)
    ensures r.Ok? ==> Literal(IntStrip(s), r.value)
    ensures r.Err? ==> r.error == InvalidInteger(s) && forall n :: !Literal(IntStrip(s), n)
  {
    var t := IntStrip(s);
    if |t| > 0 && (t[0] == '+' || t[0] == '-') then
      if IsAcceptedGroup(t[1..]) then
        Ok((if t[0] == '-' then -1 else 1) * DecimalValue(DigitsOf(t[1..])))
      else Err(InvalidInteger(s))
    else if IsAcceptedGroup(t) then Ok(DecimalValue(DigitsOf(t)))
    else Err(InvalidInteger(s))
  }

  /** The decimal digits of a natural number, with no leading zeros. */
  function NatToString(n: nat): (t: string)
    ensures t != [] && AllDigits(t)
    ensures DecimalValue(t) == n
    ensures t[0] != '0' || n == 0
  {
    if n < 10 then [DigitChar(n)]
    else
      var t := NatToString(n / 10) + [DigitChar(n % 10)];
      assert t[..|t| - 1] == NatToString(n / 10);
      t
  }

  /** Python's `str(n)` for an `int`. */
  function IntToString(n: int): (t: string)
    ensures t != []
  {
    if n < 0 then "-" + NatToString(-n) else NatToString(n)
  }

  /** The number of decimal digits of `n`, its sign not counted. */
  function DigitCount(n: int): (c: nat)
    ensures c >= 1
    ensures c == |IntToString(n)| - (if n < 0 then 1 else 0)
  {
    |NatToString(if n < 0 then -n else n)|
  }

  /** A literal is read as its value, whatever whitespace surrounds it. */
  lemma ParseLiteral(s: string, n: int)
    requires Literal(IntStrip(s), n)
    ensures ParseInt(s) == Ok(n)
  {
  }

  lemma NatToStringIsGroup(n: nat)
    ensures IsDigitGroup(NatToString(n)) && DigitsOf(NatToString(n)) == NatToString(n)
  {
  }

  lemma IntToStringIsLiteral(n: int)
    requires DigitCount(n) <= MaxStrDigits
    ensures IsIntStripped(IntToString(n)) && Literal(IntToString(n), n)
  {
    var t := IntToString(n);
    var m: nat := if n < 0 then -n else n;
    var digits := NatToString(m);
    NatToStringIsGroup(m);
    DigitNotIntSpace(digits[|digits| - 1]);
    if n < 0 {
      assert t[1..] == digits && t[|t| - 1] == digits[|digits| - 1];
      assert Literal(t, n);
    } else {
      DigitNotIntSpace(digits[0]);
    }
  }

  lemma DigitNotIntSpace(c: char)
    requires IsDigit(c)
    ensures !IsIntSpace(c)
  {
  }

  /** `int(str(n)) == n` within the digit limit, with any whitespace `int()` skips around the digits. */
  lemma ParseIntToString(pre: string, n: int, post: string)
    requires AllIntSpace(pre) && AllIntSpace(post)
    requires DigitCount(n) <= MaxStrDigits
    ensures ParseInt(pre + IntToString(n) + post) == Ok(n)
  {
    IntToStringIsLiteral(n);
    IntStripPadded(pre, IntToString(n), post);
    ParseLiteral(pre + IntToString(n) + post, n);
  }

  /** `int(str(n)) == n` within the digit limit. */
  lemma ParseIntOfString(n: int)
    requires DigitCount(n) <= MaxStrDigits
    ensures ParseInt(IntToString(n)) == Ok(n)
  {
    ParseIntToString([], n, []);
    assert [] + IntToString(n) + [] == IntToString(n);
  }

  lemma EmptyIsInvalid()
    ensures ParseInt("") == Err(InvalidInteger(""))
  {
  }

  /** `int("\x1c5")` raises although `"\x1c5".strip()` is `"5"`: U+001C is whitespace to `str` but not to `int()`. */
  lemma SeparatorNotSkipped()
    ensures Strip(['\U{001C}', '5']) == "5"
    ensures ParseInt(['\U{001C}', '5']) == Err(InvalidInteger(['\U{001C}', '5']))
  {
    var s := ['\U{001C}', '5'];
    assert IsSpace(s[0]) && !IsSpace(s[1]);
    assert LeadingSpaces(s) == 1;
    assert LeadingIntSpaces(s) == 0;
    assert TrailingIntSpaces(s) == 0;
    assert IntStrip(s) == s;
  }

  /** A literal of more than `MaxStrDigits` digits raises, whatever its sign and underscores. */
  lemma TooManyDigitsRejected(sign: string, group: string)
    requires |sign| <= 1 && (sign != [] ==> sign[0] == '+' || sign[0] == '-')
    requires IsDigitGroup(group) && |DigitsOf(group)| > MaxStrDigits
    ensures ParseInt(sign + group) == Err(InvalidInteger(sign + group))
  {
    SignedGroupStripped(sign, group);
    if sign != [] {
      SignedTooLong(sign, group);
    } else {
      assert sign + group == group;
      UnsignedTooLong(group);
    }
  }

  lemma SignedTooLong(sign: string, group: string)
    requires |sign| == 1 && (sign[0] == '+' || sign[0] == '-')
    requires IsDigitGroup(group) && !IsAcceptedGroup(group)
    requires IntStrip(sign + group) == sign + group
    ensures ParseInt(sign + group) == Err(InvalidInteger(sign + group))
  {
    var s := sign + group;
    assert s[1..] == group && s[0] == sign[0];
    UnacceptedRejected(s);
  }

  lemma UnsignedTooLong(group: string)
    requires IsDigitGroup(group) && !IsAcceptedGroup(group)
    requires IntStrip(group) == group
    ensures ParseInt(group) == Err(InvalidInteger(group))
  {
    assert IsDigit(group[0]);
    UnacceptedRejected(group);
  }

  /** A sign and a digit group have nothing for `int()` to skip. */
  lemma SignedGroupStripped(sign: string, group: string)
    requires |sign| <= 1 && (sign != [] ==> sign[0] == '+' || sign[0] == '-')
    requires IsDigitGroup(group)
    ensures IntStrip(sign + group) == sign + group
  {
    var s := sign + group;
    assert IsIntStripped(s) by {
      assert !IsIntSpace(group[|group| - 1]);
      assert s[|s| - 1] == group[|group| - 1];
      if sign == [] { assert s == group; assert !IsIntSpace(group[0]); }
    }
    IntStripOfStripped(s);
  }

  /** Stripped text whose digit group `int()` does not accept raises. */
  lemma UnacceptedRejected(s: string)
    requires var t := IntStrip(s); |t| > 0 && (t[0] == '+' || t[0] == '-') ==> !IsAcceptedGroup(t[1..])
    requires var t := IntStrip(s); !(|t| > 0 && (t[0] == '+' || t[0] == '-')) ==> !IsAcceptedGroup(t)
    ensures ParseInt(s) == Err(InvalidInteger(s))
  {
  }

  /** Text with no skipped character at either end is read as it is. */
  lemma IntStripOfStripped(s: string)
    requires IsIntStripped(s)
    ensures IntStrip(s) == s
  {
    IntStripPadded([], s, []);
    assert [] + s + [] == s;
  }

  /** `int("1" * 4301)` raises, and `int("1" * 4300)` does not. */
  lemma DigitLimitBoundary()
    ensures ParseInt(Ones(MaxStrDigits + 1)).Err?
    ensures ParseInt(Ones(MaxStrDigits)).Ok?
  {
    OnesAreGroup(MaxStrDigits + 1);
    TooManyDigitsRejected([], Ones(MaxStrDigits + 1));
    assert [] + Ones(MaxStrDigits + 1) == Ones(MaxStrDigits + 1);
    OnesAreGroup(MaxStrDigits);
    SignedGroupStripped([], Ones(MaxStrDigits));
    assert [] + Ones(MaxStrDigits) == Ones(MaxStrDigits);
    UnsignedAccepted(Ones(MaxStrDigits));
  }

  /** An unsigned digit group within the limit, with nothing to skip, is read as its digits' value. */
  lemma UnsignedAccepted(group: string)
    requires IsAcceptedGroup(group) && IntStrip(group) == group
    ensures ParseInt(group) == Ok(DecimalValue(DigitsOf(group)))
  {
    assert IsDigit(group[0]);
    ParseLiteral(group, DecimalValue(DigitsOf(group)));
  }

  /** `"1" * k`. */
  function Ones(k: nat): (t: string)
    ensures |t| == k && forall i :: 0 <= i < k ==> t[i] == '1'
  {
    seq(k, i => '1')
  }

  lemma OnesAreGroup(k: nat)
    requires k >= 1
    ensures IsDigitGroup(Ones(k)) && |DigitsOf(Ones(k))| == k
  {
    assert AllDigits(Ones(k));
  }

  /** Whitespace `int()` skips is whitespace to `str.strip()` as well. */
  lemma IntSpaceIsSpace(c: char)
    ensures IsIntSpace(c) ==> IsSpace(c)
    ensures IsSpace(c) && !IsIntSpace(c) <==> 28 <= c as int <= 31
  {
  }
}
