/** The C library string routines the debugger's parsers and formatters rely
    on, in the "C" locale: `strspn`/`strcspn`, `strtok`, `strtoull` in base 16,
    and the digits `printf("%X")` produces. Strings are the characters before a
    terminating NUL; none of the sequences here holds a NUL. */
module CLib {
  import opened Common

  const ULLONG_MAX: int := 0xFFFF_FFFF_FFFF_FFFF
  const TWO_64: int := 0x1_0000_0000_0000_0000

  /** The characters before the first NUL: what a C string routine sees. */
  function CStr(s: string): (r: string)
    ensures r <= s && '\0' !in r
    ensures |r| < |s| ==> s[|r|] == '\0'
  {
    if |s| == 0 || s[0] == '\0' then [] else [s[0]] + CStr(s[1..])
  }

  /** `isspace` in the "C" locale. */
  predicate IsSpace(c: char)
  {
    c == ' ' || c == '\t' || c == '\n' || c == '\U{B}' || c == '\U{C}' || c == '\r'
  }

  predicate IsHexDigit(c: char)
  {
    ('0' <= c <= '9') || ('a' <= c <= 'f') || ('A' <= c <= 'F')
  }

  /** The character classes the routines scan over. */
  datatype CharClass = Space | HexDigit | OneOf(chars: set<char>) | NoneOf(chars: set<char>)

  predicate InClass(c: char, cls: CharClass)
  {
    match cls
    case Space => IsSpace(c)
    case HexDigit => IsHexDigit(c)
    case OneOf(cs) => c in cs
    case NoneOf(cs) => c !in cs
  }

  /** Length of the longest prefix of `s` in the class: `strspn` for `OneOf`,
      `strcspn` for `NoneOf`. */
  function Span(s: string, cls: CharClass): (k: nat)
    ensures k <= |s|
    ensures k < |s| ==> !InClass(s[k], cls)
  {
    if |s| == 0 || !InClass(s[0], cls) then 0 else 1 + Span(s[1..], cls)
  }

  /** Every character of the prefix `Span` measures is in the class. */
  lemma {:induction false} SpanPrefix(s: string, cls: CharClass)
    ensures forall i :: 0 <= i < Span(s, cls) ==> InClass(s[i], cls)
  {
    if |s| > 0 && InClass(s[0], cls) {
      SpanPrefix(s[1..], cls);
      assert forall i :: 1 <= i < Span(s, cls) ==> s[i] == s[1..][i - 1];
    }
  }

  function DigitValue(c: char): (d: nat)
    requires IsHexDigit(c)
    ensures d < 16
  {
    if '0' <= c <= '9' then c as int - '0' as int
    else if 'a' <= c <= 'f' then c as int - 'a' as int + 10
    else c as int - 'A' as int + 10
  }

  predicate AllHex(s: string)
  {
    forall i :: 0 <= i < |s| ==> IsHexDigit(s[i])
  }

  /** Reference reading of a digit string: most significant digit first. */
  function HexValue(s: string): nat
    requires AllHex(s)
  {
    if |s| == 0 then 0 else HexValue(s[..|s| - 1]) * 16 + DigitValue(s[|s| - 1])
  }

  /** The `%X` digit for `d`. */
  function UpperDigit(d: nat): (c: char)
    requires d < 16
    ensures IsHexDigit(c) && DigitValue(c) == d
    ensures !('a' <= c <= 'f')
  {
    if d < 10 then ('0' as int + d) as char else ('A' as int + d - 10) as char
  }

  /** The digits `printf("%X", n)` writes: uppercase, no leading zeros, and a
      single "0" for zero. */
  function FormatHex(n: nat): (s: string)
    ensures 1 <= |s| && AllHex(s)
    ensures forall i :: 0 <= i < |s| ==> !('a' <= s[i] <= 'f')
    decreases n
  {
    if n < 16 then [UpperDigit(n)] else FormatHex(n / 16) + [UpperDigit(n % 16)]
  }

  /** Formatting and reading back are inverse. */
  lemma {:induction false} HexValueOfFormatHex(n: nat)
    ensures HexValue(FormatHex(n)) == n
    decreases n
  {
    var s := FormatHex(n);
    if n >= 16 {
      HexValueOfFormatHex(n / 16);
      assert s[..|s| - 1] == FormatHex(n / 16);
    }
  }

  /** No leading zero unless the value is zero itself. */
  lemma {:induction false} FormatHexLeadingDigit(n: nat)
    ensures FormatHex(n)[0] == '0' <==> n == 0
    decreases n
  {
    if n >= 16 {
      FormatHexLeadingDigit(n / 16);
    }
  }

  /** `%X` of a value below 16^k needs at most k digits. */
  lemma {:induction false} FormatHexLength(n: nat, k: nat)
    requires n < Pow16(k)
    ensures |FormatHex(n)| <= k || (k == 0 && |FormatHex(n)| == 1)
    decreases n
  {
    if n >= 16 {
      assert k > 1;
      assert n / 16 < Pow16(k - 1);
      FormatHexLength(n / 16, k - 1);
    }
  }

  function Pow16(k: nat): (p: nat)
    ensures p >= 1
  {
    if k == 0 then 1 else 16 * Pow16(k - 1)
  }

  /** A run of class characters that ends the string or meets one outside the
      class is exactly what `Span` measures. */
  lemma {:induction false} SpanExact(s: string, cls: CharClass, k: nat)
    requires k <= |s| && (forall i :: 0 <= i < k ==> InClass(s[i], cls))
    requires k < |s| ==> !InClass(s[k], cls)
    ensures Span(s, cls) == k
  {
    if k > 0 {
      assert forall i :: 0 <= i < k - 1 ==> s[1..][i] == s[i + 1];
      SpanExact(s[1..], cls, k - 1);
    }
  }

  /** The run of digits `Span` measures is all hex digits. */
  lemma HexDigitsRun(s: string)
    ensures AllHex(s[..Span(s, HexDigit)])
  {
    SpanPrefix(s, HexDigit);
  }

  /** The outcome of `strtoull(s, &end, 16)`: the value and how many characters
      `end` lies past the start (0 when no conversion was performed). */
  datatype ULLParse = ULLParse(value: nat, consumed: nat)

  /** Where strtoull's digits begin: after leading white space, an optional
      sign, and an optional "0x"/"0X" taken only when a hex digit follows it. */
  function NumberStart(s: string): (k: nat)
    ensures k <= |s|
  {
    var i := Span(s, Space);
    var j := if i < |s| && (s[i] == '+' || s[i] == '-') then i + 1 else i;
    if j + 2 < |s| && s[j] == '0' && (s[j + 1] == 'x' || s[j + 1] == 'X') && IsHexDigit(s[j + 2])
    then j + 2 else j
  }

  /** `strtoull(s, &end, 16)`: the longest run of hex digits after
      `NumberStart`. An out-of-range magnitude gives ULLONG_MAX; a minus sign
      negates modulo 2^64. */
  function StrToULL(s: string): (r: ULLParse)
    ensures r.value <= ULLONG_MAX && r.consumed <= |s|
    ensures r.consumed == 0 ==> r.value == 0
    ensures r.consumed > 0 ==> IsHexDigit(s[r.consumed - 1])
  {
    var k := NumberStart(s);
    var digits := s[k..];
    var n := Span(digits, HexDigit);
    if n == 0 then ULLParse(0, 0)
    else
      HexDigitsRun(digits);
      var magnitude := HexValue(digits[..n]);
      var i := Span(s, Space);
      var value := if magnitude > ULLONG_MAX then ULLONG_MAX
                   else if i < |s| && s[i] == '-' then (TWO_64 - magnitude) % TWO_64
                   else magnitude;
      ULLParse(value, k + n)
  }

  /** `*end == '\0'` after the call: the whole string was a number. */
  predicate ParsesFully(s: string)
  {
    |s| > 0 && StrToULL(s).consumed == |s|
  }

  /** A bare digit string has no prefix. */
  lemma NumberStartOfDigits(s: string)
    requires |s| > 0 && AllHex(s)
    ensures NumberStart(s) == 0
  {
    SpanExact(s, Space, 0);
    assert s[0] != '+' && s[0] != '-';
    assert |s| > 1 ==> s[1] != 'x' && s[1] != 'X';
  }

  /** A bare digit string is read in full as its value (saturated). */
  lemma StrToULLOfDigits(s: string)
    requires |s| > 0 && AllHex(s)
    ensures StrToULL(s) == ULLParse(if HexValue(s) > ULLONG_MAX then ULLONG_MAX else HexValue(s), |s|)
  {
    NumberStartOfDigits(s);
    assert s[0..] == s;
    SpanExact(s, HexDigit, |s|);
    assert s[..|s|] == s;
    SpanExact(s, Space, 0);
  }

  /** strtoull reads back what `%X` writes. */
  lemma StrToULLOfFormatHex(n: nat)
    requires n <= ULLONG_MAX
    ensures StrToULL(FormatHex(n)) == ULLParse(n, |FormatHex(n)|)
    ensures ParsesFully(FormatHex(n))
  {
    HexValueOfFormatHex(n);
    StrToULLOfDigits(FormatHex(n));
  }

  /** The characters a number read by strtoull may be made of. */
  predicate NumberChar(c: char)
  {
    IsHexDigit(c) || IsSpace(c) || c == '+' || c == '-' || c == 'x' || c == 'X'
  }

  /** Everything before the digits is a number character. */
  lemma NumberStartChars(s: string)
    ensures forall m :: 0 <= m < NumberStart(s) ==> NumberChar(s[m])
  {
    SpanPrefix(s, Space);
  }

  /** A string read in full holds nothing but number characters. */
  lemma FullParseChars(s: string)
    requires ParsesFully(s)
    ensures forall m :: 0 <= m < |s| ==> NumberChar(s[m])
  {
    var k := NumberStart(s);
    NumberStartChars(s);
    var digits := s[k..];
    SpanPrefix(digits, HexDigit);
    assert Span(digits, HexDigit) == |digits|;
    forall m | k <= m < |s|
      ensures NumberChar(s[m])
    {
      assert s[m] == digits[m - k];
    }
  }

  /** A string with a character no number can contain is never read in full. */
  lemma StrayCharacterStopsParse(s: string, i: nat)
    requires i < |s| && !NumberChar(s[i])
    ensures !ParsesFully(s)
  {
    if ParsesFully(s) {
      FullParseChars(s);
    }
  }

  /** One call of `strtok`: the token, the character that ended it (NUL at the
      end of the string) and where the next call resumes. */
  datatype TokResult = NoToken | Token(text: string, ended: char, rest: string)

  /** `strtok(s, delims)` continued on the remaining string `s`: leading
      delimiters are skipped; an empty remainder yields no token; otherwise the
      token runs to the next delimiter, which is overwritten and skipped. */
  function Strtok(s: string, delims: set<char>): (r: TokResult)
    requires '\0' !in delims
    ensures r.Token? ==> && |r.text| > 0 && |r.rest| < |s|
                         && (r.ended == '\0' ==> r.rest == [])
                         && (r.ended != '\0' ==> r.ended in delims)
  {
    var skip := Span(s, OneOf(delims));
    if skip == |s| then NoToken
    else
      var t := s[skip..];
      var n := Span(t, NoneOf(delims));
      if n == |t| then Token(t, '\0', []) else Token(t[..n], t[n], t[n + 1..])
  }

  /** No token exactly when the string is all delimiters; a token holds none. */
  lemma StrtokScan(s: string, delims: set<char>)
    requires '\0' !in delims
    ensures var r := Strtok(s, delims);
            && (r.NoToken? <==> forall i :: 0 <= i < |s| ==> s[i] in delims)
            && (r.Token? ==> forall i :: 0 <= i < |r.text| ==> r.text[i] !in delims)
  {
    var skip := Span(s, OneOf(delims));
    SpanPrefix(s, OneOf(delims));
    if skip < |s| {
      SpanPrefix(s[skip..], NoneOf(delims));
    }
  }

  /** The string is the skipped delimiters, the token, its end and the rest. */
  lemma StrtokReconstructs(s: string, delims: set<char>)
    requires '\0' !in delims && Strtok(s, delims).Token?
    ensures var r := Strtok(s, delims);
            exists skip :: 0 <= skip <= |s| && (forall i :: 0 <= i < skip ==> s[i] in delims)
              && s[skip..] == r.text + (if r.ended == '\0' then [] else [r.ended]) + r.rest
  {
    var r := Strtok(s, delims);
    var skip := Span(s, OneOf(delims));
    var t := s[skip..];
    var n := Span(t, NoneOf(delims));
    SpanPrefix(s, OneOf(delims));
    if n == |t| {
      assert t == r.text + [] + [];
    } else {
      assert t == t[..n] + [t[n]] + t[n + 1..];
    }
  }

  /** A token followed by one of the delimiters is returned as such. */
  lemma StrtokOfToken(text: string, d: char, rest: string, delims: set<char>)
    requires |text| > 0 && (forall i :: 0 <= i < |text| ==> text[i] !in delims)
    requires d in delims && '\0' !in delims
    ensures Strtok(text + [d] + rest, delims) == Token(text, d, rest)
  {
    var s := text + [d] + rest;
    assert s[0] == text[0];
    assert s[0..] == s;
    assert forall i :: 0 <= i < |text| ==> s[i] == text[i];
    assert s[|text|] == d;
    SpanExact(s, NoneOf(delims), |text|);
    assert s[..|text|] == text && s[|text| + 1..] == rest;
  }

  /** A token that ends the string is returned with a NUL as its end. */
  lemma StrtokOfLastToken(text: string, delims: set<char>)
    requires '\0' !in delims
    requires |text| > 0 && (forall i :: 0 <= i < |text| ==> text[i] !in delims)
    ensures Strtok(text, delims) == Token(text, '\0', [])
  {
    assert text[0..] == text;
    assert text[0] !in delims;
    SpanExact(text, NoneOf(delims), |text|);
  }
}
