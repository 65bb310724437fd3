/** The pieces of the C and C++ string libraries the mailbox programs rely on:
    NUL-terminated buffers and `strncpy`, `tolower`, `std::to_string` and
    `std::stoi`. Bytes are modelled as `char`. */
module CStrings {
  import opened Options

  const NUL: char := '\0'

  /** Size of the `data` buffer of a mailbox record. */
  const PAYLOAD_SIZE: nat := 256

  predicate NoNul(s: string) {
    forall i :: 0 <= i < |s| ==> s[i] != NUL
  }

  /** The index of the first NUL at or after `from`, or `|s|` if there is none. */
  function NulFrom(s: string, from: nat): (n: nat)
    requires from <= |s|
    ensures from <= n <= |s|
    ensures forall i :: from <= i < n ==> s[i] != NUL
    ensures n < |s| ==> s[n] == NUL
    decreases |s| - from
  {
    if from == |s| || s[from] == NUL then from else NulFrom(s, from + 1)
  }

  /** `strlen`: the number of characters before the first NUL. */
  function CLength(s: string): (n: nat)
    ensures n <= |s|
    ensures forall i :: 0 <= i < n ==> s[i] != NUL
    ensures n < |s| ==> s[n] == NUL
  {
    NulFrom(s, 0)
  }

  function CString(s: string): (t: string)
    ensures NoNul(t)
    ensures t <= s
    ensures |t| < |s| ==> s[|t|] == NUL
  {
    s[..CLength(s)]
  }

  /** A NUL at `n` and none before it fixes the C length. */
  lemma CLengthAt(s: string, n: nat)
    requires n <= |s| && (forall i :: 0 <= i < n ==> s[i] != NUL)
    requires n < |s| ==> s[n] == NUL
    ensures CLength(s) == n
  {
  }

  lemma CStringOfText(s: string)
    requires NoNul(s)
    ensures CLength(s) == |s| && CString(s) == s
  {
  }

  function Min(a: nat, b: nat): nat {
    if a < b then a else b
  }

  /** `strncpy(buf, text, PAYLOAD_SIZE - 1); buf[PAYLOAD_SIZE - 1] = '\0';` on a
      `PAYLOAD_SIZE` buffer: the C string of `text`, cut to 255 characters,
      followed by NULs up to the end of the buffer. */
  function Payload(text: string): (p: seq<char>)
    ensures |p| == PAYLOAD_SIZE
    ensures CString(p) == CString(text)[..Min(CLength(text), PAYLOAD_SIZE - 1)]
    ensures forall i :: Min(CLength(text), PAYLOAD_SIZE - 1) <= i < PAYLOAD_SIZE ==> p[i] == NUL
  {
    var n := Min(CLength(text), PAYLOAD_SIZE - 1);
    var p := seq(PAYLOAD_SIZE, i requires 0 <= i < PAYLOAD_SIZE => if i < n then text[i] else NUL);
    CLengthAt(p, n);
    assert p[..n] == text[..n];
    p
  }

  /** A short text without NULs survives `Payload` unchanged. */
  lemma PayloadOfText(text: string)
    requires NoNul(text) && |text| < PAYLOAD_SIZE
    ensures CString(Payload(text)) == text
  {
    CStringOfText(text);
  }

  /** `tolower` in the C locale: only 'A'..'Z' change. */
  function ToLower(c: char): char {
    if 'A' <= c <= 'Z' then (c as int + 32) as char else c
  }

  function LowerCase(s: string): (t: string)
    ensures |t| == |s| && forall i :: 0 <= i < |s| ==> t[i] == ToLower(s[i])
  {
    seq(|s|, i requires 0 <= i < |s| => ToLower(s[i]))
  }

  predicate IsDigit(c: char) {
    '0' <= c <= '9'
  }

  function DigitValue(c: char): nat
    requires IsDigit(c)
  {
    c as int - '0' as int
  }

  function DigitChar(d: nat): (c: char)
    requires d < 10
    ensures IsDigit(c) && DigitValue(c) == d
  {
    ('0' as int + d) as char
  }

  predicate AllDigits(s: string) {
    forall i :: 0 <= i < |s| ==> IsDigit(s[i])
  }

  /** `std::to_string` of a non-negative number: its decimal digits, no leading zeros. */
  function NatToString(n: nat): (s: string)
    ensures |s| > 0 && AllDigits(s)
    ensures s[0] != '0' || n == 0
    decreases n
  {
    if n < 10 then [DigitChar(n)] else NatToString(n / 10) + [DigitChar(n % 10)]
  }

  /** `std::to_string` of an `int`: a '-' before the digits of a negative number. */
  function IntToString(n: int): (s: string)
    ensures |s| > 0 && NoNul(s)
    ensures forall i :: 0 <= i < |s| ==> IsDigit(s[i]) || (i == 0 && s[i] == '-')
  {
    if n < 0 then "-" + NatToString(-n) else NatToString(n)
  }

  /** Value of a run of decimal digits, most significant first. */
  function DigitsValue(d: string): nat
    requires AllDigits(d)
  {
    if d == [] then 0 else DigitsValue(d[..|d| - 1]) * 10 + DigitValue(d[|d| - 1])
  }

  /** `isspace` in the C locale. */
  predicate IsSpace(c: char) {
    c == ' ' || c == '\t' || c == '\n' || c == '\U{B}' || c == '\U{C}' || c == '\r'
  }

  function SkipSpaces(s: string): (t: string)
    ensures |t| <= |s| && t == s[|s| - |t|..]
    ensures forall i :: 0 <= i < |s| - |t| ==> IsSpace(s[i])
    ensures t == [] || !IsSpace(t[0])
  {
    if |s| > 0 && IsSpace(s[0]) then SkipSpaces(s[1..]) else s
  }

  /** Length of the run of digits at the start of `s`. */
  function DigitRun(s: string): (n: nat)
    ensures n <= |s| && AllDigits(s[..n])
    ensures n < |s| ==> !IsDigit(s[n])
  {
    if |s| > 0 && IsDigit(s[0]) then
      assert s[..1 + DigitRun(s[1..])] == [s[0]] + s[1..][..DigitRun(s[1..])];
      1 + DigitRun(s[1..])
    else 0
  }

  /** `std::stoi`: skip leading white space, take an optional '+' or '-' and
      the longest run of decimal digits after it; fail when that run is empty.
      Anything after the digits is ignored. The `out_of_range` exception for
      values beyond 32 bits is not modelled: numbers are unbounded here. */
  function Stoi(s: string): (r: Option<int>)
    ensures var t := SkipSpaces(s);
      r.Some? <==> (|t| > 0 && IsDigit(t[0])) || (|t| > 1 && (t[0] == '+' || t[0] == '-') && IsDigit(t[1]))
    ensures r.Some? && r.value < 0 ==> SkipSpaces(s)[0] == '-'
    ensures r.Some? && SkipSpaces(s)[0] == '-' ==> r.value <= 0
  {
    var t := SkipSpaces(s);
    ParseSignedIff(t);
    ParseSigned(t)
  }

  /** One digit, with or without a '+' in front, reads as its value. */
  lemma StoiOfDigit(sign: string, c: char)
    requires sign == "" || sign == "+"
    requires IsDigit(c)
    ensures Stoi(sign + [c]) == Some(DigitValue(c))
  {
    var t := sign + [c];
    assert !IsSpace(t[0]);
    assert SkipSpaces(t) == t;
    assert t[|sign|..] == [c];
    DigitOnItsOwn(c);
  }

  lemma DigitOnItsOwn(c: char)
    requires IsDigit(c)
    ensures ParseDigits([c]) == Some(DigitValue(c))
  {
    var u := [c];
    assert DigitRun(u[1..]) == 0;
    assert DigitRun(u) == 1;
    assert u[..1] == u && u[..0] == [];
    assert DigitsValue(u) == DigitsValue(u[..0]) * 10 + DigitValue(c);
  }

  /** After the white space: a digit, or a sign and a digit, and a minus
      sign exactly when the value can be negative. */
  lemma ParseSignedIff(t: string)
    ensures ParseSigned(t).Some? <==> (|t| > 0 && IsDigit(t[0])) || (|t| > 1 && (t[0] == '+' || t[0] == '-') && IsDigit(t[1]))
    ensures ParseSigned(t).Some? && ParseSigned(t).value < 0 ==> t[0] == '-'
    ensures ParseSigned(t).Some? && t[0] == '-' ==> ParseSigned(t).value <= 0
  {
    if |t| > 0 && (t[0] == '+' || t[0] == '-') {
      ParseDigitsIff(t[1..]);
    } else {
      ParseDigitsIff(t);
    }
  }

  /** A run of digits parses exactly when it starts with a digit. */
  lemma ParseDigitsIff(u: string)
    ensures ParseDigits(u).Some? <==> |u| > 0 && IsDigit(u[0])
  {
    if |u| > 0 && IsDigit(u[0]) {
      assert DigitRun(u) != 0;
    }
  }

  function ParseSigned(t: string): Option<int> {
    if |t| > 0 && t[0] == '-' then
      match ParseDigits(t[1..])
      case Some(v) => Some(-v)
      case None => None
    else if |t| > 0 && t[0] == '+' then ParseDigits(t[1..])
    else ParseDigits(t)
  }

  function ParseDigits(u: string): Option<int> {
    var n := DigitRun(u);
    if n == 0 then None else Some(DigitsValue(u[..n]))
  }

  lemma {:induction false} NatToStringValue(n: nat)
    ensures DigitsValue(NatToString(n)) == n
    decreases n
  {
    var s := NatToString(n);
    if n >= 10 {
      NatToStringValue(n / 10);
      assert s[..|s| - 1] == NatToString(n / 10);
    }
  }

  /** The digit run of digits followed by a non-digit ends at the non-digit. */
  lemma {:induction false} DigitRunOfDigits(d: string, rest: string)
    requires AllDigits(d) && (rest == [] || !IsDigit(rest[0]))
    ensures DigitRun(d + rest) == |d|
  {
    if |d| > 0 {
      assert (d + rest)[1..] == d[1..] + rest;
      DigitRunOfDigits(d[1..], rest);
    } else {
      assert d + rest == rest;
    }
  }

  /** White space at the front is skipped up to the first other character. */
  lemma {:induction false} SkipSpacesOver(ws: string, u: string)
    requires forall i :: 0 <= i < |ws| ==> IsSpace(ws[i])
    requires u == [] || !IsSpace(u[0])
    ensures SkipSpaces(ws + u) == u
  {
    if |ws| > 0 {
      assert (ws + u)[1..] == ws[1..] + u;
      SkipSpacesOver(ws[1..], u);
    } else {
      assert ws + u == u;
    }
  }

  /** `std::stoi` reads the value of the digits after the white space and an
      optional sign, and ignores whatever follows them. */
  lemma StoiValue(ws: string, sign: string, d: string, rest: string)
    requires forall i :: 0 <= i < |ws| ==> IsSpace(ws[i])
    requires sign == "" || sign == "+" || sign == "-"
    requires |d| > 0 && AllDigits(d)
    requires rest == [] || !IsDigit(rest[0])
    ensures var v: int := DigitsValue(d); Stoi(ws + sign + d + rest) == Some(if sign == "-" then -v else v)
  {
    var u := sign + (d + rest);
    RegroupFour(ws, sign, d, rest);
    assert !IsSpace(u[0]) by {
      if sign == "" { assert u[0] == d[0]; } else { assert u[0] == sign[0]; }
    }
    StoiAfterSpaces(ws, u);
    ParseSignedOf(sign, d, rest);
  }

  /** White space in front is skipped before the sign and the digits. */
  lemma StoiAfterSpaces(ws: string, t: string)
    requires forall i :: 0 <= i < |ws| ==> IsSpace(ws[i])
    requires t == [] || !IsSpace(t[0])
    ensures Stoi(ws + t) == ParseSigned(t)
  {
    SkipSpacesOver(ws, t);
  }

  /** An optional sign, then the value of the leading digits. */
  lemma ParseSignedOf(sign: string, d: string, rest: string)
    requires sign == "" || sign == "+" || sign == "-"
    requires |d| > 0 && AllDigits(d)
    requires rest == [] || !IsDigit(rest[0])
    ensures var v: int := DigitsValue(d); ParseSigned(sign + (d + rest)) == Some(if sign == "-" then -v else v)
  {
    var u := sign + (d + rest);
    if sign == "" {
      assert u == d + rest;
      ParseUnsigned(u, d, rest);
    } else {
      assert u[0] == sign[0] && u[1..] == d + rest;
      ParseAfterSign(u, d, rest);
    }
  }

  /** Without a sign, the leading digits give the value. */
  lemma ParseUnsigned(u: string, d: string, rest: string)
    requires |d| > 0 && AllDigits(d)
    requires rest == [] || !IsDigit(rest[0])
    requires u == d + rest
    ensures ParseSigned(u) == Some(DigitsValue(d))
  {
    assert u[0] == d[0];
    DigitsThenOther(d, rest);
  }

  /** After a sign, the leading digits give the value, negated after a minus. */
  lemma ParseAfterSign(u: string, d: string, rest: string)
    requires |d| > 0 && AllDigits(d)
    requires rest == [] || !IsDigit(rest[0])
    requires |u| > 0 && (u[0] == '+' || u[0] == '-') && u[1..] == d + rest
    ensures var v: int := DigitsValue(d); ParseSigned(u) == Some(if u[0] == '-' then -v else v)
  {
    DigitsThenOther(d, rest);
  }

  lemma RegroupFour(a: string, b: string, c: string, e: string)
    ensures a + b + c + e == a + (b + (c + e))
  {
  }

  /** The digits in front are read, and what follows them is ignored. */
  lemma DigitsThenOther(d: string, rest: string)
    requires |d| > 0 && AllDigits(d)
    requires rest == [] || !IsDigit(rest[0])
    ensures ParseDigits(d + rest) == Some(DigitsValue(d))
  {
    DigitRunOfDigits(d, rest);
    assert (d + rest)[..|d|] == d;
  }

  /** `std::stoi` reads back what `std::to_string` wrote. */
  lemma ParseDigitsOfNat(n: nat)
    ensures ParseDigits(NatToString(n)) == Some(n)
  {
    var d := NatToString(n);
    DigitRunOfDigits(d, []);
    assert d + [] == d && d[..|d|] == d;
    NatToStringValue(n);
  }

  /** `std::stoi` reads back what `std::to_string` wrote. */
  lemma StoiOfIntToString(n: int)
    ensures Stoi(IntToString(n)) == Some(n)
  {
    var s := IntToString(n);
    assert !IsSpace(s[0]);
    assert SkipSpaces(s) == s;
    if n < 0 {
      var d := NatToString(-n);
      assert s == "-" + d && s[1..] == d;
      ParseDigitsOfNat(-n);
      assert ParseSigned(s) == Some(n);
    } else {
      var d := NatToString(n);
      assert s == d && s[0] != '-' && s[0] != '+';
      ParseDigitsOfNat(n);
      assert ParseSigned(s) == ParseDigits(d);
    }
  }
}
