/** Decimal integers as Python reads and writes them: `int(text)` for the
    year of a period label and `str(year)` for a panel title. */
module PyInt {
  import opened Results

  predicate IsDigit(c: char)
  {
    '0' <= c <= '9'
  }

  function DigitValue(c: char): nat
    requires IsDigit(c)
  {
    c as int - '0' as int
  }

  function DigitChar(d: nat): char
    requires d < 10
  {
    ('0' as int + d) as char
  }

  /** The ASCII characters that `int` strips around a number: space, tab,
      line feed, vertical tab, form feed and carriage return. The separators
      U+001C to U+001F, which `str.isspace` accepts, are not among them. */
  predicate IsSpace(c: char)
  {
    c == ' ' || c == '\t' || c == '\n' || c == '\r' || c == '\U{000B}' || c == '\U{000C}'
  }

  function TrimStart(s: string): string
  {
    if s != [] && IsSpace(s[0]) then TrimStart(s[1..]) else s
  }

  function TrimEnd(s: string): string
  {
    if s != [] && IsSpace(s[|s| - 1]) then TrimEnd(s[..|s| - 1]) else s
  }

  /** Trimming drops only whitespace and keeps every other character. */
  lemma {:induction false} TrimStartDropsSpaces(s: string)
    ensures forall c :: c in TrimStart(s) ==> c in s
    ensures forall i :: 0 <= i < |s| && !IsSpace(s[i]) ==> s[i] in TrimStart(s)
  {
    if s != [] && IsSpace(s[0]) {
      TrimStartDropsSpaces(s[1..]);
      assert forall i :: 1 <= i < |s| ==> s[i] == s[1..][i - 1];
    }
  }

  lemma {:induction false} TrimEndDropsSpaces(s: string)
    ensures forall c :: c in TrimEnd(s) ==> c in s
    ensures forall i :: 0 <= i < |s| && !IsSpace(s[i]) ==> s[i] in TrimEnd(s)
  {
    if s != [] && IsSpace(s[|s| - 1]) {
      TrimEndDropsSpaces(s[..|s| - 1]);
      assert forall i :: 0 <= i < |s| - 1 ==> s[i] == s[..|s| - 1][i];
    }
  }

  /** A digit, followed by digits each of which may be preceded by one
      underscore: the digit part Python's `int` accepts in base 10. */
  predicate IsDigitGroup(s: string)
  {
    && s != []
    && IsDigit(s[0])
    && IsDigit(s[|s| - 1])
    && (forall i :: 0 <= i < |s| ==> IsDigit(s[i]) || s[i] == '_')
    && (forall i :: 0 <= i < |s| - 1 && s[i] == '_' ==> IsDigit(s[i + 1]))
  }

  /** The decimal value of the digits of `s`, underscores skipped. */
  function DigitsValue(s: string): nat
  {
    if s == [] then 0
    else if IsDigit(s[|s| - 1]) then 10 * DigitsValue(s[..|s| - 1]) + DigitValue(s[|s| - 1])
    else DigitsValue(s[..|s| - 1])
  }

  /** A character that can occur in a text `int` accepts. */
  predicate IsNumeral(c: char)
  {
    IsDigit(c) || IsSpace(c) || c == '+' || c == '-' || c == '_'
  }

  /** Python's `int(s)`: surrounding whitespace is ignored, one optional sign,
      then a digit group; anything else raises ValueError (`None`). So a text
      with a letter, a separator or any other character is refused, and so is
      a text without a digit. */
  function ParseInt(s: string): (r: Option<int>)
    ensures r.Some? ==> forall i :: 0 <= i < |s| ==> IsNumeral(s[i])
    ensures r.Some? ==> exists i :: 0 <= i < |s| && IsDigit(s[i])
  {
    var t := TrimEnd(TrimStart(s));
    if t != [] && (t[0] == '+' || t[0] == '-') then
      if IsDigitGroup(t[1..]) then
        AcceptedText(s);
        var magnitude: int := DigitsValue(t[1..]);
        Some(if t[0] == '-' then -magnitude else magnitude)
      else None
    else if IsDigitGroup(t) then
      AcceptedText(s);
      Some(DigitsValue(t))
    else None
  }

  /** A signed or unsigned digit group is made of numeral characters and
      holds a digit at its first or second position. */
  lemma SignedGroupNumerals(t: string)
    requires IsDigitGroup(t) || (t != [] && (t[0] == '+' || t[0] == '-') && IsDigitGroup(t[1..]))
    ensures forall c :: c in t ==> IsNumeral(c)
    ensures |t| >= 1 && (IsDigit(t[0]) || (|t| >= 2 && IsDigit(t[1])))
  {
    forall c | c in t
      ensures IsNumeral(c)
    {
      var k :| 0 <= k < |t| && t[k] == c;
      if !IsDigitGroup(t) && k >= 1 {
        assert t[1..][k - 1] == c;
      }
    }
  }

  /** A text whose trimmed part is a signed or unsigned digit group is made of
      numeral characters and holds a digit. */
  lemma AcceptedText(s: string)
    requires var t := TrimEnd(TrimStart(s));
      IsDigitGroup(t) || (t != [] && (t[0] == '+' || t[0] == '-') && IsDigitGroup(t[1..]))
    ensures forall i :: 0 <= i < |s| ==> IsNumeral(s[i])
    ensures exists i :: 0 <= i < |s| && IsDigit(s[i])
  {
    TrimStartDropsSpaces(s);
    TrimEndDropsSpaces(TrimStart(s));
    var t := TrimEnd(TrimStart(s));
    SignedGroupNumerals(t);
    var d := if IsDigit(t[0]) then t[0] else t[1];
    assert d in t;
    var i :| 0 <= i < |s| && s[i] == d;
    assert IsDigit(s[i]);
  }

  /** Python's `str(n)` for a non-negative integer: its decimal digits, no leading zero. */
  function NatToString(n: nat): (s: string)
    ensures s != [] && forall i :: 0 <= i < |s| ==> IsDigit(s[i])
    ensures s[0] == '0' ==> n == 0
  {
    if n < 10 then [DigitChar(n)] else NatToString(n / 10) + [DigitChar(n % 10)]
  }

  /** Python's `str(n)` for an integer: a minus sign exactly for a negative
      number, then its digits without a leading zero. */
  function IntToString(n: int): (s: string)
    ensures |s| >= 1 && (s[0] == '-' <==> n < 0)
    ensures n < 0 ==> |s| >= 2 && s[1] != '0'
    ensures n >= 0 ==> (s[0] == '0' ==> n == 0)
    ensures forall i :: (if n < 0 then 1 else 0) <= i < |s| ==> IsDigit(s[i])
  {
    if n < 0 then "-" + NatToString(-n) else NatToString(n)
  }

  lemma {:induction false} DigitsValueOfNatToString(n: nat)
    ensures DigitsValue(NatToString(n)) == n
  {
    var s := NatToString(n);
    if n >= 10 {
      DigitsValueOfNatToString(n / 10);
      assert s[..|s| - 1] == NatToString(n / 10);
    }
  }

  lemma TrimAround(s: string)
    requires s != [] && !IsSpace(s[0]) && !IsSpace(s[|s| - 1])
    ensures TrimEnd(TrimStart(s)) == s
  {
  }

  /** Reading back what `str` wrote gives the number again. */
  lemma ParseIntToString(n: int)
    ensures ParseInt(IntToString(n)) == Some(n)
  {
    var s := IntToString(n);
    var digits := NatToString(if n < 0 then -n else n);
    DigitsValueOfNatToString(if n < 0 then -n else n);
    assert IsDigitGroup(digits);
    TrimAround(s);
    if n < 0 {
      assert s[1..] == digits;
    }
  }

  /** Whitespace around a number does not change what `int` reads. */
  lemma {:induction false} ParseIntIgnoresSpaces(s: string, c: char)
    requires IsSpace(c)
    ensures ParseInt([c] + s) == ParseInt(s)
    ensures ParseInt(s + [c]) == ParseInt(s)
  {
    assert ([c] + s)[1..] == s;
    TrimEndAppendedSpace(TrimStart(s), c);
    TrimStartAppended(s, c);
  }

  lemma TrimEndAppendedSpace(s: string, c: char)
    requires IsSpace(c)
    ensures TrimEnd(s + [c]) == TrimEnd(s)
  {
    assert (s + [c])[..|s|] == s;
  }

  lemma {:induction false} TrimStartAppended(s: string, c: char)
    requires IsSpace(c)
    ensures TrimEnd(TrimStart(s + [c])) == TrimEnd(TrimStart(s))
  {
    if s != [] && IsSpace(s[0]) {
      assert (s + [c])[1..] == s[1..] + [c];
      TrimStartAppended(s[1..], c);
    } else if s == [] {
      assert TrimStart([c]) == [];
    } else {
      assert TrimStart(s + [c]) == s + [c];
      TrimEndAppendedSpace(s, c);
    }
  }

  /** Text that is not a number raises: a label with a letter among its
      digits, the empty text and a number after a file separator are refused. */
  lemma ParseIntRejectsLetters()
    ensures ParseInt("20JJ") == None
    ensures ParseInt("") == None
    ensures ParseInt("\U{001C}5") == None
    ensures ParseInt("2_0") == Some(20)
  {
    assert !IsNumeral("20JJ"[2]);
    assert !IsNumeral("\U{001C}5"[0]);
    TrimAround("2_0");
    assert IsDigitGroup("2_0");
    assert "2_0"[..2] == "2_" && "2_"[..1] == "2" && "2"[..0] == "";
    assert DigitsValue("2_") == 2;
  }
}
