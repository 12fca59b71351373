/** The version resolver: the first token of the PG_VERSION marker turned into the
    engine's version number, major * 10000 + minor * 100 (controldata.c:150-186). */
module VersionResolver {
  import opened Outcomes

  /** The width in the "%63s" conversion that reads the token. */
  const MaxTokenLength: nat := 63

  /** Version numbers below this one have no known control file layout. */
  const OldestSupportedVersion: int := 90300

  /** The characters C's isspace accepts in the "C" locale. */
  predicate IsSpace(c: char)
  {
    c == ' ' || '\t' <= c <= '\r'
  }

  predicate IsDigit(c: char)
  {
    '0' <= c <= '9'
  }

  predicate AllSpace(s: seq<char>)
  {
    forall i :: 0 <= i < |s| ==> IsSpace(s[i])
  }

  predicate NoSpace(s: seq<char>)
  {
    forall i :: 0 <= i < |s| ==> !IsSpace(s[i])
  }

  predicate AllDigits(s: seq<char>)
  {
    forall i :: 0 <= i < |s| ==> IsDigit(s[i])
  }

  // ---------------------------------------------------------------------------
  // White space and tokens, as fscanf(fp, "%63s", buf) and strtol skip and read them

  /** The index just past the run of white space that starts at i. */
  function SpaceEnd(s: seq<char>, i: nat): (j: nat)
    requires i <= |s|
    ensures i <= j <= |s|
    ensures forall k :: i <= k < j ==> IsSpace(s[k])
    ensures j == |s| || !IsSpace(s[j])
    decreases |s| - i
  {
    if i < |s| && IsSpace(s[i]) then SpaceEnd(s, i + 1) else i
  }

  /** The index where a token that starts at i stops: at white space, at the end of
      the text, or after limit characters. */
  function TokenEnd(s: seq<char>, i: nat, limit: nat): (j: nat)
    requires i <= |s|
    ensures i <= j <= |s| && j - i <= limit
    ensures forall k :: i <= k < j ==> !IsSpace(s[k])
    ensures j - i == limit || j == |s| || IsSpace(s[j])
    decreases |s| - i
  {
    if limit > 0 && i < |s| && !IsSpace(s[i]) then TokenEnd(s, i + 1, limit - 1) else i
  }

  /** The token "%63s" stores: None when the text holds nothing but white space, which
      is when fscanf returns EOF instead of 1. */
  function ScanToken(text: seq<char>): (token: Option<seq<char>>)
    ensures token.None? <==> AllSpace(text)
    ensures token.Some? ==> 1 <= |token.value| <= MaxTokenLength && NoSpace(token.value)
  {
    var start := SpaceEnd(text, 0);
    if start == |text| then None
    else
      var t := text[start..TokenEnd(text, start, MaxTokenLength)];
      assert forall k :: 0 <= k < |t| ==> t[k] == text[start + k];
      Some(t)
  }

  /** The character C reads at index i of a NUL-terminated copy of s. Past the end it
      reads the terminator, which is neither '.' nor a digit. */
  function CharAt(s: seq<char>, i: nat): (c: char)
    ensures c == '.' || IsDigit(c) ==> i < |s| && s[i] == c
    ensures i >= |s| ==> c == '\0'
  {
    if i < |s| then s[i] else '\0'
  }

  /** The index just past the run of decimal digits that starts at i. */
  function DigitEnd(s: seq<char>, i: nat): (j: nat)
    requires i <= |s|
    ensures i <= j <= |s|
    ensures forall k :: i <= k < j ==> IsDigit(s[k])
    ensures j == |s| || !IsDigit(s[j])
    decreases |s| - i
  {
    if i < |s| && IsDigit(s[i]) then DigitEnd(s, i + 1) else i
  }

  /** The value of a string of decimal digits, most significant first. */
  function DecimalValue(d: seq<char>): nat
    requires AllDigits(d)
  {
    if d == [] then 0
    else 10 * DecimalValue(d[..|d| - 1]) + (d[|d| - 1] as int - '0' as int)
  }

  /** What strtol returns, and the index it stores through its end pointer. */
  datatype Parsed = Parsed(value: int, end: nat)

  /** Where strtol's digits start: past the white space and an optional sign. */
  function DigitsStart(s: seq<char>, start: nat): (j: nat)
    requires start <= |s|
    ensures start <= j <= |s|
  {
    var i := SpaceEnd(s, start);
    if i < |s| && (s[i] == '-' || s[i] == '+') then i + 1 else i
  }

  /** Whether the sign strtol reads is '-'. */
  predicate Negative(s: seq<char>, start: nat)
    requires start <= |s|
  {
    var i := SpaceEnd(s, start);
    i < |s| && s[i] == '-'
  }

  /** strtol in base 10 on the NUL-terminated suffix of s that starts at start:
      white space, an optional sign, then the longest run of digits. With no digits the
      value is 0 and the end pointer is the start itself. Overflow clamping to
      LONG_MIN/LONG_MAX is not modelled. */
  function StrToL(s: seq<char>, start: nat): (p: Parsed)
    requires start <= |s|
    ensures start <= p.end <= |s|
    ensures p.end == start <==> !IsDigit(CharAt(s, DigitsStart(s, start)))
    ensures p.end == start ==> p.value == 0
    ensures p.end > start ==>
      && DigitsStart(s, start) < p.end
      && AllDigits(s[DigitsStart(s, start)..p.end])
      && (p.end == |s| || !IsDigit(s[p.end]))
      && p.value == if Negative(s, start) then -(DecimalValue(s[DigitsStart(s, start)..p.end]) as int)
                    else DecimalValue(s[DigitsStart(s, start)..p.end])
  {
    var j := DigitsStart(s, start);
    var k := DigitEnd(s, j);
    if k == j then Parsed(0, start)
    else
      assert forall m :: 0 <= m < k - j ==> s[j..k][m] == s[j + m];
      var magnitude: int := DecimalValue(s[j..k]);
      Parsed(if Negative(s, start) then -magnitude else magnitude, k)
  }

  // ---------------------------------------------------------------------------
  // The version number (controldata.c:174-180)

  /** major * 10000 + minor * 100, where the minor part is read only when the character
      right after the major part is '.'. The C code narrows both parts to int first;
      the model keeps mathematical integers. */
  function VersionNumber(token: seq<char>): (v: int)
    ensures !IsDigit(CharAt(token, DigitsStart(token, 0))) && CharAt(token, 0) != '.' ==> v == 0
  {
    var major := StrToL(token, 0);
    var minor := if CharAt(token, major.end) == '.' then StrToL(token, major.end + 1).value else 0;
    major.value * 10000 + minor * 100
  }

  /** The outcome of the marker part of the reader (controldata.c:150-186):
      the version number, or the exit taken. */
  function ResolveVersion(marker: Option<seq<char>>): (r: Result<int, Status>)
    ensures r.Success? ==> r.value >= OldestSupportedVersion
    ensures r.Failure? ==> r.error in {MarkerUnreadable, VersionUnparseable, VersionUnsupported}
    ensures r == Failure(MarkerUnreadable) <==> marker.None?
    ensures r == Failure(VersionUnparseable) <==> marker.Some? && AllSpace(marker.value)
  {
    match marker
    case None => Failure(MarkerUnreadable)
    case Some(text) =>
      match ScanToken(text)
      case None => Failure(VersionUnparseable)
      case Some(token) =>
        var version := VersionNumber(token);
        if version < OldestSupportedVersion then Failure(VersionUnsupported) else Success(version)
  }

  // ---------------------------------------------------------------------------
  // Decimal rendering, the inverse of the digit parser

  function DigitChar(d: nat): (c: char)
    requires d < 10
    ensures IsDigit(c) && c as int - '0' as int == d
  {
    ('0' as int + d) as char
  }

  /** The shortest decimal rendering of n. */
  function Decimal(n: nat): (d: seq<char>)
    ensures |d| >= 1 && AllDigits(d)
  {
    if n < 10 then [DigitChar(n)] else Decimal(n / 10) + [DigitChar(n % 10)]
  }

  lemma {:induction false} DecimalRoundTrip(n: nat)
    ensures DecimalValue(Decimal(n)) == n
  {
    if n >= 10 {
      var d := Decimal(n);
      assert d[..|d| - 1] == Decimal(n / 10);
      DecimalRoundTrip(n / 10);
    }
  }

  lemma {:induction false} DigitEndOfRun(s: seq<char>, i: nat, j: nat)
    requires i <= j <= |s|
    requires forall k :: i <= k < j ==> IsDigit(s[k])
    requires j == |s| || !IsDigit(s[j])
    ensures DigitEnd(s, i) == j
    decreases j - i
  {
    if i < j {
      DigitEndOfRun(s, i + 1, j);
    }
  }

  /** strtol reads a run of digits that stands at start, is not preceded by white
      space or a sign, and is not followed by another digit, as its decimal value. */
  lemma StrToLOfRun(s: seq<char>, start: nat, end: nat)
    requires start < end <= |s|
    requires forall k :: start <= k < end ==> IsDigit(s[k])
    requires end == |s| || !IsDigit(s[end])
    ensures StrToL(s, start) == Parsed(DecimalValue(s[start..end]), end)
  {
    assert IsDigit(s[start]);
    assert SpaceEnd(s, start) == start;
    DigitEndOfRun(s, start, end);
  }

  /** strtol reads a sign followed by a decimal rendering as the signed number. */
  lemma StrToLOfSigned(sign: char, n: nat, rest: seq<char>)
    requires sign == '-' || sign == '+'
    requires rest == [] || !IsDigit(rest[0])
    ensures StrToL([sign] + Decimal(n) + rest, 0) == Parsed(if sign == '-' then -(n as int) else n, 1 + |Decimal(n)|)
  {
    var d := Decimal(n);
    var s := [sign] + d + rest;
    var end := 1 + |d|;
    assert SpaceEnd(s, 0) == 0;
    assert DigitsStart(s, 0) == 1;
    assert s[1..end] == d;
    forall k | 1 <= k < end
      ensures IsDigit(s[k])
    {
      assert s[k] == d[k - 1];
    }
    assert end == |s| || s[end] == rest[0];
    DigitEndOfRun(s, 1, end);
    DecimalRoundTrip(n);
  }

  /** The version formula on a token laid out as digits, '.', digits, then a non-digit
      or the end. */
  lemma VersionOfRuns(token: seq<char>, dot: nat, end: nat)
    requires 0 < dot && dot + 1 < end <= |token|
    requires forall k :: 0 <= k < dot ==> IsDigit(token[k])
    requires token[dot] == '.'
    requires forall k :: dot + 1 <= k < end ==> IsDigit(token[k])
    requires end == |token| || !IsDigit(token[end])
    ensures VersionNumber(token) == DecimalValue(token[..dot]) * 10000 + DecimalValue(token[dot + 1..end]) * 100
  {
    StrToLOfRun(token, 0, dot);
    StrToLOfRun(token, dot + 1, end);
    assert token[0..dot] == token[..dot];
  }

  /** The version formula on a token laid out as digits, then neither a digit nor '.'. */
  lemma VersionOfRun(token: seq<char>, end: nat)
    requires 0 < end <= |token|
    requires forall k :: 0 <= k < end ==> IsDigit(token[k])
    requires end == |token| || (!IsDigit(token[end]) && token[end] != '.')
    ensures VersionNumber(token) == DecimalValue(token[..end]) * 10000
  {
    StrToLOfRun(token, 0, end);
    assert token[0..end] == token[..end];
  }

  /** "<major>.<minor>" gives major * 10000 + minor * 100, whatever non-digit text
      follows the minor part. */
  lemma VersionOfMajorMinor(major: nat, minor: nat, rest: seq<char>)
    requires rest == [] || !IsDigit(rest[0])
    ensures VersionNumber(Decimal(major) + "." + Decimal(minor) + rest) == major * 10000 + minor * 100
  {
    VersionOfDigitStrings(Decimal(major), Decimal(minor), rest);
    DecimalRoundTrip(major);
    DecimalRoundTrip(minor);
  }

  /** The version formula on two non-empty digit strings joined by '.'. */
  lemma VersionOfDigitStrings(a: seq<char>, b: seq<char>, rest: seq<char>)
    requires |a| >= 1 && AllDigits(a) && |b| >= 1 && AllDigits(b)
    requires rest == [] || !IsDigit(rest[0])
    ensures VersionNumber(a + "." + b + rest) == DecimalValue(a) * 10000 + DecimalValue(b) * 100
  {
    var token := a + "." + b + rest;
    var dot, end := |a|, |a| + 1 + |b|;
    assert token[..dot] == a;
    assert token[dot + 1..end] == b;
    forall k | 0 <= k < end && k != dot
      ensures IsDigit(token[k])
    {
      if k < dot {
        assert token[k] == a[k];
      } else {
        assert token[k] == b[k - dot - 1];
      }
    }
    assert end == |token| || token[end] == rest[0];
    VersionOfRuns(token, dot, end);
  }

  /** "<major>" alone, or followed by text that starts with neither a digit nor '.',
      gives major * 10000: the minor part defaults to 0. */
  lemma VersionOfMajorOnly(major: nat, rest: seq<char>)
    requires rest == [] || (!IsDigit(rest[0]) && rest[0] != '.')
    ensures VersionNumber(Decimal(major) + rest) == major * 10000
  {
    var a := Decimal(major);
    var token := a + rest;
    assert token[..|a|] == a;
    forall k | 0 <= k < |a|
      ensures IsDigit(token[k])
    {
      assert token[k] == a[k];
    }
    assert |a| == |token| || token[|a|] == rest[0];
    VersionOfRun(token, |a|);
    DecimalRoundTrip(major);
  }

  /** A token that starts with '.' has major part 0, and strtol then reads the digits
      after the '.' as the minor part: ".903" gives 90300. */
  lemma VersionOfLeadingDot(token: seq<char>, end: nat)
    requires 1 < end <= |token| && token[0] == '.'
    requires forall k :: 1 <= k < end ==> IsDigit(token[k])
    requires end == |token| || !IsDigit(token[end])
    ensures VersionNumber(token) == DecimalValue(token[1..end]) * 100
  {
    assert SpaceEnd(token, 0) == 0;
    assert StrToL(token, 0) == Parsed(0, 0);
    StrToLOfRun(token, 1, end);
  }

  /** A token with no digits after its optional sign, and that does not start with '.',
      parses as major 0 with minor 0. */
  lemma NoLeadingDigitsIsZero(token: seq<char>)
    requires token != [] && !IsSpace(token[0]) && !IsDigit(token[0]) && token[0] != '.'
    requires (token[0] == '+' || token[0] == '-') ==> |token| == 1 || !IsDigit(token[1])
    ensures VersionNumber(token) == 0
  {
  }

  lemma {:induction false} SpaceEndOfRun(s: seq<char>, i: nat, j: nat)
    requires i <= j <= |s|
    requires forall k :: i <= k < j ==> IsSpace(s[k])
    requires j == |s| || !IsSpace(s[j])
    ensures SpaceEnd(s, i) == j
    decreases j - i
  {
    if i < j {
      SpaceEndOfRun(s, i + 1, j);
    }
  }

  lemma {:induction false} TokenEndOfRun(s: seq<char>, i: nat, j: nat, limit: nat)
    requires i <= j <= |s| && j - i <= limit
    requires forall k :: i <= k < j ==> !IsSpace(s[k])
    requires j - i == limit || j == |s| || IsSpace(s[j])
    ensures TokenEnd(s, i, limit) == j
    decreases j - i
  {
    if i < j {
      TokenEndOfRun(s, i + 1, j, limit - 1);
    }
  }

  /** The token fscanf stores from a marker: white space, the token, then the end of
      the text or more white space. */
  lemma ScanTokenAfterSpace(space: seq<char>, token: seq<char>, rest: seq<char>)
    requires AllSpace(space) && NoSpace(token)
    requires 1 <= |token| <= MaxTokenLength
    requires rest == [] || IsSpace(rest[0])
    ensures ScanToken(space + token + rest) == Some(token)
  {
    var text := space + token + rest;
    var start, end := |space|, |space| + |token|;
    forall k | 0 <= k < start
      ensures IsSpace(text[k])
    {
      assert text[k] == space[k];
    }
    forall k | start <= k < end
      ensures !IsSpace(text[k])
    {
      assert text[k] == token[k - start];
    }
    SpaceEndOfRun(text, 0, start);
    assert end == |text| || text[end] == rest[0];
    TokenEndOfRun(text, start, end, MaxTokenLength);
    assert text[start..end] == token;
  }

  /** A first token longer than the "%63s" width is cut to its first 63 characters,
      whatever follows it. */
  lemma ScanTokenTruncated(space: seq<char>, long: seq<char>, rest: seq<char>)
    requires AllSpace(space) && NoSpace(long)
    requires |long| > MaxTokenLength
    ensures ScanToken(space + long + rest) == Some(long[..MaxTokenLength])
  {
    var text := space + long + rest;
    var start, end := |space|, |space| + MaxTokenLength;
    forall k | 0 <= k < start
      ensures IsSpace(text[k])
    {
      assert text[k] == space[k];
    }
    forall k | start <= k < end
      ensures !IsSpace(text[k])
    {
      assert text[k] == long[k - start];
    }
    SpaceEndOfRun(text, 0, start);
    TokenEndOfRun(text, start, end, MaxTokenLength);
    assert text[start..end] == long[..MaxTokenLength];
  }

  /** A marker whose token gives a supported version resolves to that version. */
  lemma ResolveOfToken(text: seq<char>, token: seq<char>)
    requires ScanToken(text) == Some(token)
    requires VersionNumber(token) >= OldestSupportedVersion
    ensures ResolveVersion(Some(text)) == Success(VersionNumber(token))
  {
  }

  /** Marker "9.6\n" resolves to 90600. */
  lemma ResolveNineSix()
    ensures ResolveVersion(Some("9.6\n")) == Success(90600)
  {
    assert Decimal(9) == "9" && Decimal(6) == "6";
    assert "9.6\n" == [] + "9.6" + "\n";
    ScanTokenAfterSpace([], "9.6", "\n");
    assert "9.6" == Decimal(9) + "." + Decimal(6) + [];
    VersionOfMajorMinor(9, 6, []);
  }

  /** The token ".903" has version number 90300. */
  lemma LeadingDotVersion()
    ensures VersionNumber(".903") == 90300
  {
    VersionOfLeadingDot(".903", 4);
    assert ".903"[1..4] == "903";
    NineHundredThree();
  }

  lemma NineHundredThree()
    ensures DecimalValue("903") == 903
  {
    assert "903"[..2] == "90" && "90"[..1] == "9";
  }

  /** Marker ".903\n" resolves to 90300, the 9.3 layout's version. */
  lemma ResolveLeadingDot()
    ensures ResolveVersion(Some(".903\n")) == Success(90300)
  {
    assert ".903\n" == [] + ".903" + "\n";
    ScanTokenAfterSpace([], ".903", "\n");
    LeadingDotVersion();
    ResolveOfToken(".903\n", ".903");
  }

  /** Marker "12\n" resolves to 120000. */
  lemma ResolveTwelve()
    ensures ResolveVersion(Some("12\n")) == Success(120000)
  {
    assert Decimal(12) == "12";
    assert "12\n" == [] + "12" + "\n";
    ScanTokenAfterSpace([], "12", "\n");
    assert "12" == Decimal(12) + [];
    VersionOfMajorOnly(12, []);
  }
}
