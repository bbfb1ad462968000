/**
 * `int.Parse(string)` and `int.ToString()` for `System.Int32` under the
 * invariant number format: NumberStyles.Integer accepts optional leading and
 * trailing white space, one optional leading sign and at least one decimal digit.
 */
module NumberParsing {
  import opened Wrappers

  const Int32Min: int := -0x8000_0000
  const Int32Max: int := 0x7FFF_FFFF

  predicate IsInt32(n: int)
  {
    Int32Min <= n <= Int32Max
  }

  /** The white space number parsing skips: U+0009 to U+000D and U+0020. */
  predicate IsNumberWhite(c: char)
  {
    c == ' ' || ('\t' <= c <= '\r')
  }

  predicate IsDigit(c: char)
  {
    '0' <= c <= '9'
  }

  predicate AllDigits(s: string)
  {
    forall i :: 0 <= i < |s| ==> IsDigit(s[i])
  }

  /** Every character is white space a number may be surrounded by. */
  predicate AllWhite(s: string)
  {
    forall i :: 0 <= i < |s| ==> IsNumberWhite(s[i])
  }

  /** The characters a well-formed NumberStyles.Integer string may contain. */
  predicate IsNumberChar(c: char)
  {
    IsNumberWhite(c) || IsDigit(c) || c == '+' || c == '-'
  }

  /** The exceptions `int.Parse` throws. */
  datatype ParseError = ArgumentNull | Format | Overflow

  /** The number of leading white-space characters. */
  function LeadingWhite(s: string): (k: nat)
    ensures k <= |s|
    ensures forall i :: 0 <= i < k ==> IsNumberWhite(s[i])
    ensures k < |s| ==> !IsNumberWhite(s[k])
  {
    if s == [] || !IsNumberWhite(s[0]) then 0 else 1 + LeadingWhite(s[1..])
  }

  /** The number of trailing white-space characters. */
  function TrailingWhite(s: string): (k: nat)
    ensures k <= |s|
    ensures forall i :: |s| - k <= i < |s| ==> IsNumberWhite(s[i])
    ensures k < |s| ==> !IsNumberWhite(s[|s| - 1 - k])
  {
    if s == [] || !IsNumberWhite(s[|s| - 1]) then 0 else 1 + TrailingWhite(s[..|s| - 1])
  }

  /** The text between the leading and the trailing white space. */
  function Trim(s: string): string
  {
    var body := s[LeadingWhite(s)..];
    body[..|body| - TrailingWhite(body)]
  }

  /** The value of a string of decimal digits, most significant first. */
  function DigitsValue(ds: string): nat
    requires AllDigits(ds)
  {
    if ds == [] then 0 else 10 * DigitsValue(ds[..|ds| - 1]) + (ds[|ds| - 1] as int - '0' as int)
  }

  /** A sign followed by digits, or digits alone, without surrounding white space. */
  function ParseSigned(t: string): Option<int>
  {
    if |t| > 0 && (t[0] == '-' || t[0] == '+') then
      var ds := t[1..];
      if |ds| > 0 && AllDigits(ds) then
        var v: int := DigitsValue(ds);
        Some(if t[0] == '-' then -v else v)
      else None
    else if |t| > 0 && AllDigits(t) then Some(DigitsValue(t))
    else None
  }

  /** The integer a NumberStyles.Integer string denotes, before any range check. */
  function ParseInteger(s: string): (r: Option<int>)
    ensures r.Some? ==> forall i :: 0 <= i < |s| ==> IsNumberChar(s[i])
  {
    if ParseSigned(Trim(s)).Some? then
      NumberCharsOnly(s);
      ParseSigned(Trim(s))
    else None
  }

  /** The value of digits under an optional sign. */
  function SignedValue(sign: string, ds: string): int
    requires AllDigits(ds)
  {
    var v: int := DigitsValue(ds);
    if sign == "-" then -v else v
  }

  /**
   * The NumberStyles.Integer grammar `ws* [sign] digit+ ws*` as a reference
   * definition: `s` is white space, an optional sign, one or more digits and
   * white space, in that order, and those digits under that sign are `v`.
   */
  predicate IntegerSyntax(s: string, lead: string, sign: string, ds: string, trail: string, v: int)
  {
    && s == lead + sign + ds + trail
    && AllWhite(lead) && AllWhite(trail)
    && sign in {"", "+", "-"}
    && |ds| > 0 && AllDigits(ds)
    && v == SignedValue(sign, ds)
  }

  /** `s` is the leading white space, the trimmed text and the trailing white space. */
  lemma TrimSplit(s: string) returns (lead: string, trail: string)
    ensures s == lead + Trim(s) + trail
    ensures AllWhite(lead) && AllWhite(trail)
  {
    var k := LeadingWhite(s);
    var body := s[k..];
    var n := |body| - TrailingWhite(body);
    lead := s[..k];
    trail := body[n..];
    assert Trim(s) == body[..n];
    assert forall i :: 0 <= i < |lead| ==> lead[i] == s[i];
    assert forall i :: 0 <= i < |trail| ==> trail[i] == body[n + i];
    assert s == lead + body;
    assert body == body[..n] + trail;
  }

  /** A text without surrounding white space that parses is a sign and digits with that value. */
  lemma ParseSignedSplit(t: string) returns (sign: string, ds: string)
    requires ParseSigned(t).Some?
    ensures t == sign + ds && sign in {"", "+", "-"}
    ensures |ds| > 0 && AllDigits(ds) && ParseSigned(t).value == SignedValue(sign, ds)
  {
    if t[0] == '-' || t[0] == '+' {
      sign, ds := t[..1], t[1..];
      assert sign == [t[0]];
    } else {
      sign, ds := "", t;
    }
  }

  /** A string whose trimmed text parses holds only white space, signs and digits. */
  lemma NumberCharsOnly(s: string)
    requires ParseSigned(Trim(s)).Some?
    ensures forall i :: 0 <= i < |s| ==> IsNumberChar(s[i])
  {
    var lead, trail := TrimSplit(s);
    var sign, ds := ParseSignedSplit(Trim(s));
    assert s == lead + sign + ds + trail;
    forall i | 0 <= i < |s|
      ensures IsNumberChar(s[i])
    {
      if i < |lead| {
        assert s[i] == lead[i];
      } else if i < |lead| + |sign| {
        assert s[i] == sign[i - |lead|];
      } else if i < |lead| + |sign| + |ds| {
        assert s[i] == ds[i - |lead| - |sign|];
      } else {
        assert s[i] == trail[i - |lead| - |sign| - |ds|];
      }
    }
  }

  /** A sign followed by digits has no white space to trim. */
  lemma TrimBareNumber(sign: string, ds: string)
    requires sign in {"", "+", "-"} && |ds| > 0 && AllDigits(ds)
    ensures Trim(sign + ds) == sign + ds
  {
    var t := sign + ds;
    assert t[0] == (if sign == "" then ds[0] else sign[0]);
    assert t[|t| - 1] == ds[|ds| - 1];
  }

  /** A string that parses splits as the grammar says, with the value it parses to. */
  lemma ParseIntegerSplits(s: string) returns (lead: string, sign: string, ds: string, trail: string)
    requires ParseInteger(s).Some?
    ensures IntegerSyntax(s, lead, sign, ds, trail, ParseInteger(s).value)
  {
    lead, trail := TrimSplit(s);
    sign, ds := ParseSignedSplit(Trim(s));
    assert s == lead + sign + ds + trail;
  }

  /** A sign followed by digits parses to their signed value. */
  lemma ParseSignedBare(sign: string, ds: string)
    requires sign in {"", "+", "-"} && |ds| > 0 && AllDigits(ds)
    ensures ParseSigned(sign + ds) == Some(SignedValue(sign, ds))
  {
    var t := sign + ds;
    if sign != "" {
      assert t[0] == sign[0];
      assert t[1..] == ds;
    } else {
      assert t == ds;
    }
  }

  /** A string the grammar accepts parses to the value the grammar gives it. */
  lemma SyntaxParses(s: string, lead: string, sign: string, ds: string, trail: string, v: int)
    requires IntegerSyntax(s, lead, sign, ds, trail, v)
    ensures ParseInteger(s) == Some(v)
  {
    var t := sign + ds;
    assert s == lead + t + trail;
    SurroundingWhiteIgnored(lead, t, trail);
    TrimBareNumber(sign, ds);
    ParseSignedBare(sign, ds);
    assert ParseInteger(t) == ParseSigned(Trim(t)) == Some(v);
  }

  /** The grammar fixes which strings parse and to what: `ParseInteger` agrees with it exactly. */
  lemma ParseIntegerGrammar(s: string, v: int)
    ensures ParseInteger(s) == Some(v) <==>
      exists lead, sign, ds, trail :: IntegerSyntax(s, lead, sign, ds, trail, v)
  {
    if ParseInteger(s) == Some(v) {
      var lead, sign, ds, trail := ParseIntegerSplits(s);
    }
    if exists lead, sign, ds, trail :: IntegerSyntax(s, lead, sign, ds, trail, v) {
      var lead, sign, ds, trail :| IntegerSyntax(s, lead, sign, ds, trail, v);
      SyntaxParses(s, lead, sign, ds, trail, v);
    }
  }

  /** Inner white space and a doubled sign are refused; a plus sign and leading zeros are not. */
  lemma ParseIntegerExamples()
    ensures ParseInteger("1 2") == None
    ensures ParseInteger("+-1") == None
    ensures ParseInteger(" +007 ") == Some(7)
  {
    assert Trim("1 2") == "1 2";
    assert !AllDigits("1 2") by { assert !IsDigit("1 2"[1]); }
    assert Trim("+-1") == "+-1";
    assert !AllDigits("-1") by { assert !IsDigit("-1"[0]); }
    assert DigitsValue("007") == 7 by {
      assert "007"[..2] == "00" && "00"[..1] == "0" && "0"[..0] == "";
    }
    SyntaxParses(" +007 ", " ", "+", "007", " ", 7);
  }

  /** `int.Parse`: null throws ArgumentNull, a malformed string Format, a value outside Int32 Overflow. */
  function Int32Parse(s: Option<string>): (r: Result<int, ParseError>)
    ensures s.None? ==> r == Failure(ArgumentNull)
    ensures r.Success? <==> s.Some? && ParseInteger(s.value).Some? && IsInt32(ParseInteger(s.value).value)
    ensures r.Success? ==> r.value == ParseInteger(s.value).value
    ensures r == Failure(Format) <==> s.Some? && ParseInteger(s.value).None?
  {
    match s
    case None => Failure(ArgumentNull)
    case Some(text) =>
      match ParseInteger(text)
      case None => Failure(Format)
      case Some(v) => if IsInt32(v) then Success(v) else Failure(Overflow)
  }

  /** The decimal digits of a natural number, without leading zeros. */
  function FormatNat(n: nat): (ds: string)
    ensures |ds| > 0 && AllDigits(ds)
  {
    var d := ['0' + (n % 10) as char];
    if n < 10 then d else FormatNat(n / 10) + d
  }

  /** `int.ToString()`: a minus sign for negative values, then the digits. */
  function FormatInt(n: int): (r: string)
    ensures n >= 0 ==> |r| > 0 && AllDigits(r)
    ensures n < 0 ==> |r| > 1 && r[0] == '-' && AllDigits(r[1..])
  {
    if n < 0 then "-" + FormatNat(-n) else FormatNat(n)
  }

  lemma {:induction false} DigitsValueOfFormat(n: nat)
    ensures DigitsValue(FormatNat(n)) == n
  {
    var d := ['0' + (n % 10) as char];
    if n >= 10 {
      var ds := FormatNat(n / 10) + d;
      assert ds[..|ds| - 1] == FormatNat(n / 10);
      DigitsValueOfFormat(n / 10);
    }
  }

  /** Parsing the text `ToString` produces gives back the number. */
  lemma ParseFormatRoundTrip(n: int)
    ensures ParseInteger(FormatInt(n)) == Some(n)
  {
    var s := FormatInt(n);
    DigitsValueOfFormat(if n < 0 then -n else n);
    assert LeadingWhite(s) == 0;
    assert TrailingWhite(s) == 0;
    assert Trim(s) == s;
    if n < 0 {
      assert s[1..] == FormatNat(-n);
    }
  }

  lemma {:induction false} LeadingWhiteAppend(ws: string, s: string)
    requires AllWhite(ws)
    ensures LeadingWhite(ws + s) == |ws| + LeadingWhite(s)
  {
    if ws != [] {
      assert (ws + s)[0] == ws[0];
      assert (ws + s)[1..] == ws[1..] + s;
      LeadingWhiteAppend(ws[1..], s);
    } else {
      assert ws + s == s;
    }
  }

  lemma {:induction false} LeadingWhiteStops(s: string, t: string)
    requires LeadingWhite(s) < |s|
    ensures LeadingWhite(s + t) == LeadingWhite(s)
  {
    if IsNumberWhite(s[0]) {
      assert (s + t)[1..] == s[1..] + t;
      LeadingWhiteStops(s[1..], t);
    }
  }

  lemma {:induction false} TrailingWhiteAppend(s: string, ws: string)
    requires AllWhite(ws)
    ensures TrailingWhite(s + ws) == |ws| + TrailingWhite(s)
  {
    if ws != [] {
      var t := s + ws;
      assert t[..|t| - 1] == s + ws[..|ws| - 1];
      TrailingWhiteAppend(s, ws[..|ws| - 1]);
    } else {
      assert s + ws == s;
    }
  }

  lemma TrimLeadingWhite(lead: string, x: string)
    requires AllWhite(lead)
    ensures Trim(lead + x) == Trim(x)
  {
    LeadingWhiteAppend(lead, x);
    assert (lead + x)[|lead| + LeadingWhite(x)..] == x[LeadingWhite(x)..];
  }

  lemma TrimTrailingWhite(s: string, trail: string)
    requires AllWhite(trail)
    ensures Trim(s + trail) == Trim(s)
  {
    var k := LeadingWhite(s);
    if k < |s| {
      LeadingWhiteStops(s, trail);
      var rest := s[k..];
      var body := (s + trail)[k..];
      assert body == rest + trail;
      TrailingWhiteAppend(rest, trail);
      var n := |rest| - TrailingWhite(rest);
      assert body[..n] == rest[..n];
    } else {
      LeadingWhiteAppend(s, trail);
    }
  }

  /** White space around the number does not change what it denotes. */
  lemma SurroundingWhiteIgnored(lead: string, s: string, trail: string)
    requires AllWhite(lead)
    requires AllWhite(trail)
    ensures ParseInteger(lead + s + trail) == ParseInteger(s)
  {
    assert lead + s + trail == lead + (s + trail);
    TrimLeadingWhite(lead, s + trail);
    TrimTrailingWhite(s, trail);
  }
}
