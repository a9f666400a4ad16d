/** The string operations the importer's asset resolver uses: `str.lower`,
    `str.upper` on one character, `str.endswith`, decimal formatting of an
    index in an f-string, and `int()` applied to an XML attribute.

    Case mapping is modelled on ASCII; Python applies the full Unicode
    tables.  The whitespace `int()` strips is modelled in full; the
    non-ASCII decimal digits it also accepts are not. */
module Text {
  import opened Base

  function LowerChar(c: char): char {
    if 'A' <= c <= 'Z' then (c as int + 32) as char else c
  }

  function UpperChar(c: char): char {
    if 'a' <= c <= 'z' then (c as int - 32) as char else c
  }

  /** `s.lower()`. */
  function Lower(s: string): (t: string)
    ensures |t| == |s|
    ensures forall i :: 0 <= i < |s| ==> t[i] == LowerChar(s[i])
  {
    if |s| == 0 then [] else [LowerChar(s[0])] + Lower(s[1..])
  }

  /** `s[:1].upper() + s[1:]`: the first character upper-cased. */
  function CapitalizeFirst(s: string): (t: string)
    ensures |t| == |s|
    ensures |s| > 0 ==> t[0] == UpperChar(s[0]) && t[1..] == s[1..]
  {
    if |s| == 0 then [] else [UpperChar(s[0])] + s[1..]
  }

  /** `s.endswith(suffix)`. */
  predicate EndsWith(s: string, suffix: string) {
    |suffix| <= |s| && s[|s| - |suffix|..] == suffix
  }

  predicate IsDigit(c: char) {
    '0' <= c <= '9'
  }

  function DigitChar(d: nat): (c: char)
    requires d < 10
    ensures IsDigit(c) && c as int - '0' as int == d
  {
    ('0' as int + d) as char
  }

  /** `str(n)` / `f'{n}'` for a natural number. */
  function NatToString(n: nat): (s: string)
    ensures |s| >= 1
    ensures forall i :: 0 <= i < |s| ==> IsDigit(s[i])
    ensures n > 0 ==> s[0] != '0'
  {
    if n < 10 then [DigitChar(n)] else NatToString(n / 10) + [DigitChar(n % 10)]
  }

  /** The whitespace `int()` strips.  An ASCII character is kept as it is
      and only tab to carriage return and the space count, so the separators
      U+001C to U+001F, although `str.isspace` holds for them, are not
      stripped.  A non-ASCII character that is Unicode whitespace (NEL,
      no-break space, the Unicode space separators) is turned into a space
      first and so is stripped. */
  predicate IsSpace(c: char) {
    || c == ' ' || '\t' <= c <= '\r'
    || c == '\U{85}' || c == '\U{A0}' || c == '\U{1680}'
    || '\U{2000}' <= c <= '\U{200A}' || c == '\U{2028}' || c == '\U{2029}'
    || c == '\U{202F}' || c == '\U{205F}' || c == '\U{3000}'
  }

  function StripLeft(s: string): (t: string)
    ensures |t| <= |s|
    ensures |t| > 0 ==> !IsSpace(t[0])
  {
    if |s| > 0 && IsSpace(s[0]) then StripLeft(s[1..]) else s
  }

  function StripRight(s: string): (t: string)
    ensures |t| <= |s|
    ensures |t| > 0 ==> !IsSpace(t[|t| - 1])
    ensures t == s[..|t|]
  {
    if |s| > 0 && IsSpace(s[|s| - 1]) then StripRight(s[..|s| - 1]) else s
  }

  /** Digits with single underscores between them, as `int()` accepts in base 10. */
  predicate WellFormedDigits(s: string) {
    && |s| > 0
    && IsDigit(s[0])
    && IsDigit(s[|s| - 1])
    && (forall i :: 0 <= i < |s| ==> IsDigit(s[i]) || s[i] == '_')
    && (forall i :: 0 <= i < |s| - 1 ==> s[i] == '_' ==> s[i + 1] != '_')
  }

  /** The decimal value of the digits of `s`, underscores skipped. */
  function DigitsValue(s: string): nat
    requires forall i :: 0 <= i < |s| ==> IsDigit(s[i]) || s[i] == '_'
  {
    if |s| == 0 then 0
    else
      var last := s[|s| - 1];
      if last == '_' then DigitsValue(s[..|s| - 1])
      else
        assert IsDigit(last);
        10 * DigitsValue(s[..|s| - 1]) + (last as int - '0' as int)
  }

  /** `int(s)` for a `str` argument: surrounding whitespace, an optional sign,
      then decimal digits; anything else raises ValueError (`None`). */
  function ParseInt(s: string): Option<int> {
    var t := StripRight(StripLeft(s));
    if |t| == 0 then None
    else
      var negative := t[0] == '-';
      var body := if t[0] == '-' || t[0] == '+' then t[1..] else t;
      if !WellFormedDigits(body) then None
      else if negative then Some(-(DigitsValue(body) as int))
      else Some(DigitsValue(body))
  }

  lemma {:induction false} DigitsValueOfNatToString(n: nat)
    ensures DigitsValue(NatToString(n)) == n
  {
    if n >= 10 {
      var s := NatToString(n);
      assert s[..|s| - 1] == NatToString(n / 10);
      DigitsValueOfNatToString(n / 10);
    }
  }

  /** Formatting an index and reading it back with `int()` gives the index. */
  lemma {:induction false} ParseIntOfNatToString(n: nat)
    ensures ParseInt(NatToString(n)) == Some(n)
  {
    var s := NatToString(n);
    assert StripLeft(s) == s;
    assert StripRight(s) == s;
    DigitsValueOfNatToString(n);
  }

  /** Distinct indices format to distinct strings, so the clip names and
      file names built from them never collide. */
  lemma {:induction false} NatToStringInjective(a: nat, b: nat)
    requires NatToString(a) == NatToString(b)
    ensures a == b
  {
    DigitsValueOfNatToString(a);
    DigitsValueOfNatToString(b);
  }

  /** What `int()` accepts around the digits: whitespace and a sign, with
      underscores between digits. */
  lemma {:induction false} ParseIntAccepts()
    ensures ParseInt(" 3\n") == Some(3)
    ensures ParseInt("-1") == Some(-1)
    ensures ParseInt("1_0") == Some(10)
  {
    ParseIntSpaced();
    ParseIntSigned();
    ParseIntGrouped();
  }

  lemma {:induction false} ParseIntSpaced()
    ensures ParseInt(" 3\n") == Some(3)
  {
    var s := " 3\n";
    assert IsSpace(s[0]) && !IsSpace(s[1]) && IsSpace(s[2]);
    assert StripLeft(s[1..]) == s[1..];
    assert StripLeft(s) == "3\n";
    assert StripRight("3") == "3";
    assert StripRight("3\n") == "3";
  }

  lemma {:induction false} ParseIntSigned()
    ensures ParseInt("-1") == Some(-1)
  {
    var s := "-1";
    assert !IsSpace(s[0]) && !IsSpace(s[1]);
    assert StripLeft(s) == s && StripRight(s) == s;
    assert s[1..] == "1" && "1"[..0] == "";
    assert WellFormedDigits("1") && DigitsValue("1") == 1;
  }

  lemma {:induction false} ParseIntGrouped()
    ensures ParseInt("1_0") == Some(10)
  {
    var s := "1_0";
    assert !IsSpace(s[0]) && !IsSpace(s[2]);
    assert StripLeft(s) == s && StripRight(s) == s;
    assert s[..2] == "1_" && "1_"[..1] == "1" && "1"[..0] == "";
    assert DigitsValue("1") == 1 && DigitsValue("1_") == 1;
    assert WellFormedDigits(s) && DigitsValue(s) == 10;
  }

  /** `int()` strips Unicode spaces as well: a no-break space before the
      digits and an ideographic space after them. */
  lemma {:induction false} ParseIntStripsUnicodeSpace()
    ensures ParseInt("\U{A0}2\U{3000}") == Some(2)
  {
    var s := "\U{A0}2\U{3000}";
    assert IsSpace(s[0]) && !IsSpace(s[1]);
    assert StripLeft(s[1..]) == s[1..];
    assert StripLeft(s) == "2\U{3000}";
    assert StripRight("2") == "2";
    assert StripRight("2\U{3000}") == "2";
  }

  /** What `int()` refuses: nothing, doubled or leading underscores,
      anything that is not a digit, and an ASCII separator such as U+001C,
      which it does not strip. */
  lemma {:induction false} ParseIntRejects()
    ensures ParseInt("") == None
    ensures ParseInt("1__0") == None
    ensures ParseInt("_1") == None
    ensures ParseInt("x") == None
    ensures ParseInt("\U{1C}1") == None
  {
    ParseIntRejectsUnderscores();
    assert StripLeft("") == "" && StripRight("") == "";
    assert !IsSpace('x') && StripLeft("x") == "x" && StripRight("x") == "x";
    var u := "\U{1C}1";
    assert !IsSpace(u[0]) && !IsSpace(u[1]);
    assert StripLeft(u) == u && StripRight(u) == u;
    assert !IsDigit(u[0]);
  }

  lemma {:induction false} ParseIntRejectsUnderscores()
    ensures ParseInt("1__0") == None
    ensures ParseInt("_1") == None
  {
    var s, t := "1__0", "_1";
    assert !IsSpace(s[0]) && !IsSpace(s[3]) && !IsSpace(t[0]) && !IsSpace(t[1]);
    assert StripLeft(s) == s && StripRight(s) == s;
    assert StripLeft(t) == t && StripRight(t) == t;
    assert s[1] == '_' && s[2] == '_';
  }
}
