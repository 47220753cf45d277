/**
 The integer text the service accepts and the integer text it writes back.

 Reading follows Python's int() on a str, restricted to ASCII digits:
 surrounding whitespace, then an optional '+' or '-', then one or more of
 '0'..'9'. Writing follows str() of an int: a '-' for negatives, then the
 digits with no leading zero.

 Python has two notions of surrounding whitespace here. str.strip() removes
 every character str.isspace() accepts; int() skips the same characters
 except the four separators U+001C..U+001F, which make it raise ValueError.
 */
module Numerals {
  import opened Wrappers

  /* ---------------------------------------------------------------------
     Whitespace, strip() and the whitespace int() skips
     --------------------------------------------------------------------- */

  /** Which whitespace is meant: str.isspace() (what strip() removes), or
      the part of it that int() skips. */
  datatype Blank = StripBlank | IntBlank

  /** The characters str.isspace() accepts. */
  predicate IsSpace(c: char) {
    || ('\t' <= c <= '\r')
    || ('\U{1C}' <= c <= ' ')
    || c == '\U{85}' || c == '\U{A0}' || c == '\U{1680}'
    || ('\U{2000}' <= c <= '\U{200A}')
    || c == '\U{2028}' || c == '\U{2029}' || c == '\U{202F}' || c == '\U{205F}' || c == '\U{3000}'
  }

  /** c is whitespace of kind b. */
  predicate IsBlank(b: Blank, c: char) {
    IsSpace(c) && (b == IntBlank ==> !('\U{1C}' <= c <= '\U{1F}'))
  }

  predicate AllBlank(b: Blank, w: string) {
    forall k :: 0 <= k < |w| ==> IsBlank(b, w[k])
  }

  /** Neither end of t is whitespace of kind b. */
  predicate Unpadded(b: Blank, t: string) {
    t == [] || (!IsBlank(b, t[0]) && !IsBlank(b, t[|t| - 1]))
  }

  /** s without its leading whitespace of kind b. */
  function TrimStart(b: Blank, s: string): (t: string)
    ensures |t| <= |s| && t == s[|s| - |t|..]
    ensures forall k :: 0 <= k < |s| - |t| ==> IsBlank(b, s[k])
    ensures t == [] || !IsBlank(b, t[0])
  {
    if |s| > 0 && IsBlank(b, s[0]) then
      var t := TrimStart(b, s[1..]);
      assert s[1..][|s| - 1 - |t|..] == s[|s| - |t|..];
      assert forall k :: 1 <= k < |s| - |t| ==> s[k] == s[1..][k - 1];
      t
    else
      s
  }

  /** s without its trailing whitespace of kind b. */
  function TrimEnd(b: Blank, s: string): (t: string)
    ensures |t| <= |s| && t == s[..|t|]
    ensures forall k :: |t| <= k < |s| ==> IsBlank(b, s[k])
    ensures t == [] || !IsBlank(b, t[|t| - 1])
  {
    if |s| > 0 && IsBlank(b, s[|s| - 1]) then
      var t := TrimEnd(b, s[..|s| - 1]);
      assert s[..|s| - 1][..|t|] == s[..|t|];
      assert forall k :: |t| <= k < |s| - 1 ==> s[k] == s[..|s| - 1][k];
      t
    else
      s
  }

  /** s without its whitespace of kind b at either end. */
  function Trim(b: Blank, s: string): (t: string)
    ensures Unpadded(b, t)
  {
    TrimEnd(b, TrimStart(b, s))
  }

  /** str.strip() with no argument. */
  function Strip(s: string): (t: string)
    ensures |t| <= |s|
    ensures t == [] || (!IsSpace(t[0]) && !IsSpace(t[|t| - 1]))
  {
    Trim(StripBlank, s)
  }

  lemma {:induction false} TrimStartBlanks(b: Blank, w: string, x: string)
    requires AllBlank(b, w)
    ensures TrimStart(b, w + x) == TrimStart(b, x)
    decreases |w|
  {
    if |w| > 0 {
      assert (w + x)[0] == w[0];
      assert (w + x)[1..] == w[1..] + x;
      TrimStartBlanks(b, w[1..], x);
    } else {
      assert w + x == x;
    }
  }

  lemma {:induction false} TrimEndBlanks(b: Blank, x: string, w: string)
    requires AllBlank(b, w)
    ensures TrimEnd(b, x + w) == TrimEnd(b, x)
    decreases |w|
  {
    if |w| > 0 {
      assert (x + w)[|x + w| - 1] == w[|w| - 1];
      assert (x + w)[..|x + w| - 1] == x + w[..|w| - 1];
      TrimEndBlanks(b, x, w[..|w| - 1]);
    } else {
      assert x + w == x;
    }
  }

  lemma TrimStartSplit(b: Blank, s: string) returns (w: string)
    ensures AllBlank(b, w) && s == w + TrimStart(b, s)
  {
    var x := |s| - |TrimStart(b, s)|;
    w := s[..x];
    forall k | 0 <= k < |w|
      ensures IsBlank(b, w[k])
    {
      assert w[k] == s[k];
    }
    assert s == w + s[x..];
  }

  lemma TrimEndSplit(b: Blank, s: string) returns (w: string)
    ensures AllBlank(b, w) && s == TrimEnd(b, s) + w
  {
    var x := |TrimEnd(b, s)|;
    w := s[x..];
    forall k | 0 <= k < |w|
      ensures IsBlank(b, w[k])
    {
      assert w[k] == s[x + k];
    }
    assert s == s[..x] + w;
  }

  lemma Reassociate(a: string, b: string, c: string)
    ensures a + (b + c) == a + b + c
  {
  }

  /** Every string is its trimmed text between two runs of whitespace. */
  lemma TrimSplit(b: Blank, s: string) returns (w1: string, w2: string)
    ensures AllBlank(b, w1) && AllBlank(b, w2)
    ensures s == w1 + Trim(b, s) + w2
  {
    var u := TrimStart(b, s);
    w1 := TrimStartSplit(b, s);
    w2 := TrimEndSplit(b, u);
    Reassociate(w1, TrimEnd(b, u), w2);
  }

  /** Trimming removes exactly the surrounding whitespace and nothing else. */
  lemma TrimPadded(b: Blank, w1: string, t: string, w2: string)
    requires AllBlank(b, w1) && AllBlank(b, w2) && Unpadded(b, t)
    ensures Trim(b, w1 + t + w2) == t
  {
    assert w1 + t + w2 == w1 + (t + w2);
    TrimStartBlanks(b, w1, t + w2);
    if t == [] {
      assert t + w2 == w2 + [];
      TrimStartBlanks(b, w2, []);
    } else {
      assert TrimStart(b, t + w2) == t + w2;
      TrimEndBlanks(b, t, w2);
    }
  }

  /** Text with no whitespace at either end is left as it is. */
  lemma TrimUnpadded(b: Blank, t: string)
    requires Unpadded(b, t)
    ensures Trim(b, t) == t
  {
    TrimPadded(b, [], t, []);
    assert [] + t + [] == t;
  }

  lemma Regroup(a: string, b: string, c: string, d: string, e: string)
    ensures a + (b + c + d) + e == (a + b) + c + (d + e)
  {
  }

  /** Whitespace added around a text is removed along with the text's own. */
  lemma TrimAround(b: Blank, w1: string, s: string, w2: string)
    requires AllBlank(b, w1) && AllBlank(b, w2)
    ensures Trim(b, w1 + s + w2) == Trim(b, s)
  {
    var u1, u2 := TrimSplit(b, s);
    Regroup(w1, u1, Trim(b, s), u2, w2);
    TrimPadded(b, w1 + u1, Trim(b, s), u2 + w2);
  }

  /** Trimming twice is trimming once. */
  lemma TrimIdempotent(b: Blank, s: string)
    ensures Trim(b, Trim(b, s)) == Trim(b, s)
  {
    TrimUnpadded(b, Trim(b, s));
  }

  /** What int() skips is whitespace that strip() removes too. */
  lemma IntBlankIsStripBlank(w: string)
    requires AllBlank(IntBlank, w)
    ensures AllBlank(StripBlank, w)
  {
  }

  /* ---------------------------------------------------------------------
     Digits
     --------------------------------------------------------------------- */

  predicate IsDigit(c: char) {
    '0' <= c <= '9'
  }

  predicate AllDigits(s: string) {
    forall k :: 0 <= k < |s| ==> IsDigit(s[k])
  }

  function DigitValue(c: char): (v: nat)
    requires IsDigit(c)
    ensures v < 10
  {
    (c as int) - ('0' as int)
  }

  function DigitChar(v: nat): (c: char)
    requires v < 10
    ensures IsDigit(c) && DigitValue(c) == v
  {
    (('0' as int) + v) as char
  }

  /** The value of a digit string, accumulated left to right as int() does. */
  function DigitsValue(s: string): nat
    requires AllDigits(s)
  {
    if |s| == 0 then 0 else 10 * DigitsValue(s[..|s| - 1]) + DigitValue(s[|s| - 1])
  }

  function Pow10(k: nat): (p: nat)
    ensures p >= 1
  {
    if k == 0 then 1 else 10 * Pow10(k - 1)
  }

  /** The value of a digit string by place value: each digit times ten to
      the power of the number of digits after it. */
  function PlaceValue(s: string): nat
    requires AllDigits(s)
  {
    if |s| == 0 then 0 else DigitValue(s[0]) * Pow10(|s| - 1) + PlaceValue(s[1..])
  }

  /** Dropping the first digit of a string of at least two, seen from the
      accumulating side. */
  lemma DigitsValueOfTail(s: string)
    requires |s| > 1 && AllDigits(s)
    ensures DigitsValue(s[1..]) == 10 * DigitsValue(s[1..|s| - 1]) + DigitValue(s[|s| - 1])
  {
    assert s[1..][..|s| - 2] == s[1..|s| - 1];
  }

  /** Dropping the last digit of a string of at least two, seen from the
      place-value side. */
  lemma PlaceValueOfInit(s: string)
    requires |s| > 1 && AllDigits(s)
    ensures PlaceValue(s[..|s| - 1]) == DigitValue(s[0]) * Pow10(|s| - 2) + PlaceValue(s[1..|s| - 1])
  {
    assert s[..|s| - 1][1..] == s[1..|s| - 1];
  }

  lemma Regather(a: int, p: int, x: int, c: int)
    ensures 10 * (a * p + x) + c == a * (10 * p) + (10 * x + c)
  {
  }

  /** The left-to-right accumulation agrees with place value. */
  lemma {:induction false} DigitsValueIsPlaceValue(s: string)
    requires AllDigits(s)
    ensures DigitsValue(s) == PlaceValue(s)
    decreases |s|
  {
    if |s| > 1 {
      var m := |s|;
      DigitsValueIsPlaceValue(s[..m - 1]);
      DigitsValueIsPlaceValue(s[1..]);
      DigitsValueIsPlaceValue(s[1..m - 1]);
      DigitsValueOfTail(s);
      PlaceValueOfInit(s);
      Regather(DigitValue(s[0]), Pow10(m - 2), DigitsValue(s[1..m - 1]), DigitValue(s[m - 1]));
    }
  }

  /** A leading zero adds nothing to the value. */
  lemma {:induction false} LeadingZero(s: string)
    requires AllDigits(s)
    ensures AllDigits(['0'] + s) && DigitsValue(['0'] + s) == DigitsValue(s)
    decreases |s|
  {
    if |s| > 0 {
      assert (['0'] + s)[..|s|] == ['0'] + s[..|s| - 1];
      LeadingZero(s[..|s| - 1]);
    }
  }

  /** A digit string with a nonzero first digit is positive. */
  lemma {:induction false} LeadingNonzeroPositive(s: string)
    requires |s| > 0 && AllDigits(s) && s[0] != '0'
    ensures DigitsValue(s) >= 1
    decreases |s|
  {
    if |s| > 1 {
      LeadingNonzeroPositive(s[..|s| - 1]);
    }
  }

  /* ---------------------------------------------------------------------
     Reading: int(text)
     --------------------------------------------------------------------- */

  /** An optional sign and one or more digits, with nothing around them:
      its value, or None when the text is anything else. */
  function ParseLiteral(t: string): Option<int> {
    if |t| > 0 && (t[0] == '+' || t[0] == '-') then
      var body := t[1..];
      if |body| > 0 && AllDigits(body) then
        var v: int := DigitsValue(body);
        Some(if t[0] == '-' then -v else v)
      else
        None
    else if |t| > 0 && AllDigits(t) then
      Some(DigitsValue(t))
    else
      None
  }

  /** int() on a str: None where Python raises ValueError. */
  function ParseInt(s: string): (r: Option<int>)
    ensures r.Some? ==> var t := Trim(IntBlank, s);
      |t| > 0 && IsDigit(t[|t| - 1]) && (r.value < 0 ==> t[0] == '-')
  {
    ParseLiteral(Trim(IntBlank, s))
  }

  /** Whitespace that int() skips never changes what it reads. */
  lemma ParsePadded(w1: string, s: string, w2: string)
    requires AllBlank(IntBlank, w1) && AllBlank(IntBlank, w2)
    ensures ParseInt(w1 + s + w2) == ParseInt(s)
  {
    TrimAround(IntBlank, w1, s, w2);
  }

  /** A literal starts with a sign or a digit and ends with a digit, so it
      has no whitespace of either kind at its ends. */
  lemma LiteralUnpadded(t: string)
    requires ParseLiteral(t).Some?
    ensures Unpadded(StripBlank, t) && Unpadded(IntBlank, t)
  {
    assert IsDigit(t[|t| - 1]) by {
      if t[0] == '+' || t[0] == '-' {
        assert t[1..][|t| - 2] == t[|t| - 1];
      }
    }
  }

  /** Whatever int() accepts it also accepts after strip(), with the same
      value: the TCP handler's strip() before int() never loses a number. */
  lemma ParseAfterStrip(s: string)
    requires ParseInt(s).Some?
    ensures ParseInt(Strip(s)) == ParseInt(s)
  {
    var t := Trim(IntBlank, s);
    var w1, w2 := TrimSplit(IntBlank, s);
    IntBlankIsStripBlank(w1);
    IntBlankIsStripBlank(w2);
    LiteralUnpadded(t);
    TrimPadded(StripBlank, w1, t, w2);
    TrimUnpadded(IntBlank, t);
  }

  /** The converse fails: strip() removes a leading U+001C, which int()
      refuses. */
  lemma SeparatorExample()
    ensures ParseInt("\U{1C}7") == None
    ensures Strip("\U{1C}7") == "7"
    ensures ParseInt("7") == Some(7)
  {
    SeparatorRefused();
    SeparatorStripped();
    SevenRead();
  }

  lemma SeparatorRefused()
    ensures ParseInt("\U{1C}7") == None
  {
    TrimUnpadded(IntBlank, "\U{1C}7");
    assert !IsDigit("\U{1C}7"[0]);
  }

  lemma SeparatorStripped()
    ensures Strip("\U{1C}7") == "7"
  {
    TrimPadded(StripBlank, "\U{1C}", "7", []);
    assert "\U{1C}" + "7" + [] == "\U{1C}7";
  }

  lemma SevenRead()
    ensures ParseInt("7") == Some(7)
  {
    ReadDigits("7", false);
    assert DigitsValue("7") == 7;
  }

  /* ---------------------------------------------------------------------
     Writing: str(n)
     --------------------------------------------------------------------- */

  /** A digit string without a superfluous leading zero. */
  predicate CanonicalDigits(t: string) {
    |t| > 0 && AllDigits(t) && (t[0] != '0' || |t| == 1)
  }

  /** The integer texts str() can produce: no '+', no leading zero, no "-0". */
  predicate Canonical(t: string) {
    || CanonicalDigits(t)
    || (|t| > 1 && t[0] == '-' && CanonicalDigits(t[1..]) && t[1] != '0')
  }

  /** A canonical text ends in a digit. */
  lemma CanonicalEndsInDigit(t: string)
    requires Canonical(t)
    ensures |t| > 0 && IsDigit(t[|t| - 1])
  {
    if !CanonicalDigits(t) {
      assert t[1..][|t| - 2] == t[|t| - 1];
    }
  }

  /** The decimal digits of a natural number. */
  function Digits(n: nat): (s: string)
    ensures CanonicalDigits(s)
    ensures DigitsValue(s) == n
    ensures n > 0 ==> s[0] != '0'
  {
    if n < 10 then [DigitChar(n)] else Digits(n / 10) + [DigitChar(n % 10)]
  }

  /** A digit string, or a '-' and a digit string, as a literal. */
  lemma LiteralOfDigits(d: string, negative: bool)
    requires |d| > 0 && AllDigits(d)
    ensures var t := if negative then "-" + d else d;
      ParseLiteral(t) == Some(if negative then -(DigitsValue(d) as int) else DigitsValue(d) as int)
  {
    if negative {
      var t := "-" + d;
      assert t[0] == '-' && t[1..] == d;
    } else {
      assert IsDigit(d[0]);
    }
  }

  /** int() reads a digit string, or a '-' and a digit string, as its value. */
  lemma ReadDigits(d: string, negative: bool)
    requires |d| > 0 && AllDigits(d)
    ensures var t := if negative then "-" + d else d;
      ParseInt(t) == Some(if negative then -(DigitsValue(d) as int) else DigitsValue(d) as int)
  {
    var t := if negative then "-" + d else d;
    assert t[|t| - 1] == d[|d| - 1];
    assert IsDigit(t[|t| - 1]);
    TrimUnpadded(IntBlank, t);
    LiteralOfDigits(d, negative);
  }

  /** int() reads '+' and a digit string as the digits' value. */
  lemma PlusDigits(d: string)
    requires |d| > 0 && AllDigits(d)
    ensures ParseInt("+" + d) == Some(DigitsValue(d) as int)
  {
    var t := "+" + d;
    assert t[|t| - 1] == d[|d| - 1];
    assert IsDigit(t[|t| - 1]);
    TrimUnpadded(IntBlank, t);
    LiteralPlus(d);
  }

  lemma LiteralPlus(d: string)
    requires |d| > 0 && AllDigits(d)
    ensures ParseLiteral("+" + d) == Some(DigitsValue(d) as int)
  {
    var t := "+" + d;
    assert t[0] == '+' && t[1..] == d;
  }

  /** The grammar int() accepts, once its whitespace is gone: one or more
      digits, or a sign followed by one or more digits; n is the value. */
  predicate LiteralOf(lit: string, n: int) {
    || (|lit| > 0 && AllDigits(lit) && n == DigitsValue(lit))
    || (|lit| > 1 && lit[0] == '+' && AllDigits(lit[1..]) && n == DigitsValue(lit[1..]))
    || (|lit| > 1 && lit[0] == '-' && AllDigits(lit[1..]) && n == -(DigitsValue(lit[1..]) as int))
  }

  /** Every text int() accepts is whitespace, a literal of the value read,
      and whitespace. */
  lemma ParseIntShape(s: string) returns (w1: string, lit: string, w2: string)
    requires ParseInt(s).Some?
    ensures AllBlank(IntBlank, w1) && AllBlank(IntBlank, w2)
    ensures s == w1 + lit + w2
    ensures LiteralOf(lit, ParseInt(s).value)
  {
    w1, w2 := TrimSplit(IntBlank, s);
    lit := Trim(IntBlank, s);
  }

  /** Conversely, int() accepts every such text and reads the literal's value. */
  lemma ShapeParses(w1: string, lit: string, w2: string, n: int)
    requires AllBlank(IntBlank, w1) && AllBlank(IntBlank, w2)
    requires LiteralOf(lit, n)
    ensures ParseInt(w1 + lit + w2) == Some(n)
  {
    ParsePadded(w1, lit, w2);
    LiteralReads(lit, n);
  }

  lemma LiteralReads(lit: string, n: int)
    requires LiteralOf(lit, n)
    ensures ParseInt(lit) == Some(n)
  {
    LiteralParses(lit, n);
    LiteralUnpadded(lit);
    TrimUnpadded(IntBlank, lit);
  }

  lemma LiteralParses(lit: string, n: int)
    requires LiteralOf(lit, n)
    ensures ParseLiteral(lit) == Some(n)
  {
    if |lit| > 0 && AllDigits(lit) && n == DigitsValue(lit) {
      assert IsDigit(lit[0]);
    } else if lit[0] == '+' {
      var d := lit[1..];
      assert lit == "+" + d;
      LiteralPlus(d);
    } else {
      var d := lit[1..];
      assert lit == "-" + d;
      LiteralOfDigits(d, true);
    }
  }

  /** str(n): the text the replies show for n; int() reads it back as n. */
  function Decimal(n: int): (s: string)
    ensures Canonical(s)
    ensures ParseInt(s) == Some(n)
  {
    if n < 0 then
      ReadDigits(Digits(-n), true);
      "-" + Digits(-n)
    else
      ReadDigits(Digits(n), false);
      Digits(n)
  }

  /** A canonical digit string is the rendering of its own value. */
  lemma {:induction false} DigitsOfValue(t: string)
    requires CanonicalDigits(t)
    ensures Digits(DigitsValue(t)) == t
    decreases |t|
  {
    if |t| == 1 {
      assert DigitChar(DigitValue(t[0])) == t[0];
    } else {
      var init := t[..|t| - 1];
      LeadingNonzeroPositive(init);
      DigitsOfValue(init);
      var v := DigitsValue(t);
      assert v / 10 == DigitsValue(init);
      assert v % 10 == DigitValue(t[|t| - 1]);
      assert DigitChar(DigitValue(t[|t| - 1])) == t[|t| - 1];
    }
  }

  /**
   Decimal is a bijection between the integers and the canonical texts: a
   canonical text that reads as n is exactly Decimal(n). With the round trip
   in Decimal's contract, a reply therefore names the value that was read,
   never the text that was sent.
   */
  lemma DecimalUnique(t: string, n: int)
    requires Canonical(t) && ParseInt(t) == Some(n)
    ensures t == Decimal(n)
  {
    if CanonicalDigits(t) {
      ReadDigits(t, false);
      PositiveUnique(t, n);
    } else {
      var body := t[1..];
      assert t == "-" + body;
      ReadDigits(body, true);
      NegativeUnique(body, n);
    }
  }

  /** Canonical digits are str() of their value. */
  lemma PositiveUnique(t: string, n: int)
    requires CanonicalDigits(t) && n == DigitsValue(t) as int
    ensures t == Decimal(n)
  {
    DigitsOfValue(t);
    assert Decimal(n) == Digits(n);
  }

  /** A '-' before canonical nonzero digits is str() of the negated value. */
  lemma NegativeUnique(body: string, n: int)
    requires CanonicalDigits(body) && body[0] != '0'
    requires n == -(DigitsValue(body) as int)
    ensures "-" + body == Decimal(n)
  {
    LeadingNonzeroPositive(body);
    DigitsOfValue(body);
    NegativeDecimal(DigitsValue(body));
  }

  lemma NegativeDecimal(m: nat)
    requires m > 0
    ensures Decimal(-(m as int)) == "-" + Digits(m)
  {
  }

  /** Every canonical text is read by int(), and is str() of what it reads:
      with Decimal's contract, Decimal maps the integers onto the canonical
      texts one to one. */
  lemma CanonicalReads(t: string)
    requires Canonical(t)
    ensures ParseInt(t).Some?
    ensures t == Decimal(ParseInt(t).value)
  {
    if CanonicalDigits(t) {
      ReadDigits(t, false);
    } else {
      assert t == "-" + t[1..];
      ReadDigits(t[1..], true);
    }
    DecimalUnique(t, ParseInt(t).value);
  }

  /** Leading zeros and a '+' sign are read and then dropped. */
  lemma PlusLeadingZerosExample()
    ensures ParseInt("+007") == Some(7)
    ensures Decimal(7) == "7"
  {
    TrimUnpadded(IntBlank, "+007");
    assert "+007"[1..] == "007";
    assert "007"[..2] == "00" && "00"[..1] == "0" && "0"[..0] == "";
    assert DigitsValue("007") == 7;
  }
}
