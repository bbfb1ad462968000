/** The .NET string primitives the core relies on. */
module Text {
  import opened Wrappers
  import opened Models

  /** `Char.IsWhiteSpace`: the Unicode White_Space characters. */
  predicate IsWhiteSpace(c: char)
  {
    c == ' ' || ('\t' <= c <= '\r') || c == '\U{0085}' || c == '\U{00A0}' || c == '\U{1680}'
    || ('\U{2000}' <= c <= '\U{200A}') || c == '\U{2028}' || c == '\U{2029}' || c == '\U{202F}'
    || c == '\U{205F}' || c == '\U{3000}'
  }

  /** `string.IsNullOrEmpty`. */
  predicate IsNullOrEmpty(s: Option<string>)
  {
    s.None? || |s.value| == 0
  }

  /** `string.IsNullOrWhiteSpace`: null, empty, or white space only. */
  predicate IsNullOrWhiteSpace(s: Option<string>)
  {
    s.None? || forall i :: 0 <= i < |s.value| ==> IsWhiteSpace(s.value[i])
  }

  /** Lower-casing of one character; only the ASCII letters are mapped. */
  function ToLowerChar(c: char): char
  {
    if 'A' <= c <= 'Z' then (c as int + 32) as char else c
  }

  /** `string.ToLower` restricted to the ASCII case mapping. */
  function ToLower(s: string): (r: string)
    ensures |r| == |s|
    ensures forall i :: 0 <= i < |s| ==> r[i] == ToLowerChar(s[i])
  {
    if s == [] then [] else [ToLowerChar(s[0])] + ToLower(s[1..])
  }

  /** Lower-casing twice is lower-casing once. */
  lemma ToLowerIdempotent(s: string)
    ensures ToLower(ToLower(s)) == ToLower(s)
  {
    assert forall i :: 0 <= i < |s| ==> ToLower(ToLower(s))[i] == ToLower(s)[i];
  }

  /** Lower-casing keeps white space, so it never turns a blank argument into a usable one. */
  lemma ToLowerKeepsBlankness(s: string)
    ensures IsNullOrWhiteSpace(Some(ToLower(s))) == IsNullOrWhiteSpace(Some(s))
    ensures IsNullOrEmpty(Some(ToLower(s))) == IsNullOrEmpty(Some(s))
  {
  }

  /** The UTF-16 little-endian bytes of one Unicode scalar value (`Encoding.Unicode`). */
  function CharBytes(c: char): (r: seq<byte>)
    ensures |r| == 2 || |r| == 4
    ensures |r| == 4 <==> c as int >= 0x1_0000
  {
    var v := c as int;
    if v < 0x1_0000 then
      [v % 256, v / 256]
    else
      var high := 0xD800 + (v - 0x1_0000) / 0x400;
      var low := 0xDC00 + (v - 0x1_0000) % 0x400;
      [high % 256, high / 256, low % 256, low / 256]
  }

  /** `Encoding.Unicode.GetBytes`: UTF-16 little-endian, surrogate pairs for supplementary characters. */
  function Utf16Le(s: string): (r: seq<byte>)
    ensures |r| >= 2 * |s|
  {
    if s == [] then [] else CharBytes(s[0]) + Utf16Le(s[1..])
  }

  /** The encoding of a concatenation is the concatenation of the encodings. */
  lemma {:induction false} Utf16LeAppend(a: string, b: string)
    ensures Utf16Le(a + b) == Utf16Le(a) + Utf16Le(b)
  {
    if a == [] {
      assert a + b == b;
    } else {
      assert (a + b)[0] == a[0];
      assert (a + b)[1..] == a[1..] + b;
      Utf16LeAppend(a[1..], b);
    }
  }

  /** The number of bytes the first encoded character occupies, read from its first code unit. */
  function LeadWidth(b: seq<byte>): nat
    requires |b| >= 2
  {
    if 0xD8 <= b[1] < 0xDC then 4 else 2
  }

  /** The scalar value of the first encoded character. */
  function LeadScalar(b: seq<byte>): int
    requires |b| >= 2 && (LeadWidth(b) == 4 ==> |b| >= 4)
  {
    var first := b[0] as int + 256 * b[1] as int;
    if LeadWidth(b) == 2 then first
    else 0x1_0000 + (first - 0xD800) * 0x400 + (b[2] as int + 256 * b[3] as int - 0xDC00)
  }

  /** A character's encoding announces its own width and decodes back to it. */
  lemma CharBytesDecode(c: char, rest: seq<byte>)
    ensures var b := CharBytes(c) + rest;
      LeadWidth(b) == |CharBytes(c)| && LeadScalar(b) == c as int
  {
    var v := c as int;
    var b := CharBytes(c) + rest;
    if v >= 0x1_0000 {
      var h := (v - 0x1_0000) / 0x400;
      var l := (v - 0x1_0000) % 0x400;
      assert 0xD800 + h == (0xD800 + h) % 256 + 256 * ((0xD800 + h) / 256);
      assert 0xDC00 + l == (0xDC00 + l) % 256 + 256 * ((0xDC00 + l) / 256);
      assert b[0] as int + 256 * b[1] as int == 0xD800 + h;
      assert b[2] as int + 256 * b[3] as int == 0xDC00 + l;
    }
  }

  /** Distinct strings have distinct UTF-16 encodings. */
  lemma {:induction false} Utf16LeInjective(s: string, t: string)
    requires Utf16Le(s) == Utf16Le(t)
    ensures s == t
  {
    if s != [] && t != [] {
      var e := Utf16Le(s);
      CharBytesDecode(s[0], Utf16Le(s[1..]));
      CharBytesDecode(t[0], Utf16Le(t[1..]));
      assert s[0] == t[0];
      var w := |CharBytes(s[0])|;
      assert Utf16Le(s[1..]) == e[w..] == Utf16Le(t[1..]);
      Utf16LeInjective(s[1..], t[1..]);
      assert s == [s[0]] + s[1..];
      assert t == [t[0]] + t[1..];
    }
  }
}
