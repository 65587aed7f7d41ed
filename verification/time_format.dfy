/** Conversion between seconds-of-day and the "HH:MM:SS" text used by the
    timetable file (lista1/zad1/utils.h and lista1/zad1/main.cpp). */
module TimeFormat {

  /** The byte stored by `str[i] = v + '0'`: C++ truncates the int to an 8-bit char. */
  function DigitChar(v: int): char
    requires v >= 0
  {
    ((v + '0' as int) % 256) as char
  }

  predicate IsDigit(c: char) {
    '0' <= c <= '9'
  }

  function DigitValue(c: char): int
    requires IsDigit(c)
  {
    c as int - '0' as int
  }

  /** `time_to_str`: hours, minutes and seconds each written as two characters,
      separated by ':'. Hours are not reduced modulo 24. */
  function TimeToStr(t: int): (s: string)
    requires t >= 0
    ensures |s| == 8 && s[2] == ':' && s[5] == ':'
    ensures s[3] == DigitChar(((t / 60) % 60) / 10) && s[4] == DigitChar(((t / 60) % 60) % 10)
    ensures s[6] == DigitChar((t % 60) / 10) && s[7] == DigitChar((t % 60) % 10)
    ensures s[0] == DigitChar((t / 3600) / 10) && s[1] == DigitChar((t / 3600) % 10)
  {
    var hours := t / 3600;
    var minutes := t / 60 - hours * 60;
    var seconds := t - minutes * 60 - hours * 3600;
    MinutesSeconds(t);
    [DigitChar(hours / 10), DigitChar(hours % 10), ':',
     DigitChar(minutes / 10), DigitChar(minutes % 10), ':',
     DigitChar(seconds / 10), DigitChar(seconds % 10)]
  }

  /** The source's subtraction form of minutes and seconds is the usual
      "mod 60" split, and both parts lie in [0, 59]. */
  lemma MinutesSeconds(t: int)
    requires t >= 0
    ensures t / 60 - (t / 3600) * 60 == (t / 60) % 60
    ensures t - (t / 60 - (t / 3600) * 60) * 60 - (t / 3600) * 3600 == t % 60
    ensures 0 <= (t / 60) % 60 <= 59 && 0 <= t % 60 <= 59
  {
    var h := t / 3600;
    var m := t / 60;
    assert t == 3600 * h + t % 3600;
    assert t % 3600 == 60 * ((t % 3600) / 60) + (t % 3600) % 60;
    assert m == 60 * h + (t % 3600) / 60;
  }

  /** Below 100 hours every non-separator character is a decimal digit, and the
      digits spell t back. */
  lemma TimeToStrDigits(t: int)
    requires 0 <= t < 360000
    ensures var s := TimeToStr(t);
      && IsDigit(s[0]) && IsDigit(s[1]) && IsDigit(s[3])
      && IsDigit(s[4]) && IsDigit(s[6]) && IsDigit(s[7])
      && 36000 * DigitValue(s[0]) + 3600 * DigitValue(s[1])
         + 600 * DigitValue(s[3]) + 60 * DigitValue(s[4])
         + 10 * DigitValue(s[6]) + DigitValue(s[7]) == t
  {
    var s := TimeToStr(t);
    var h, m, sec := t / 3600, (t / 60) % 60, t % 60;
    MinutesSeconds(t);
    assert h < 100;
    TwoDigits(h);
    TwoDigits(m);
    TwoDigits(sec);
    assert t == 3600 * h + 60 * m + sec by {
      assert t == 60 * (t / 60) + sec;
      assert t / 60 == 60 * h + m;
    }
  }

  /** A value below 100 is written as two decimal digits that read back as it. */
  lemma TwoDigits(v: int)
    requires 0 <= v < 100
    ensures IsDigit(DigitChar(v / 10)) && DigitValue(DigitChar(v / 10)) == v / 10
    ensures IsDigit(DigitChar(v % 10)) && DigitValue(DigitChar(v % 10)) == v % 10
    ensures v == 10 * (v / 10) + v % 10
  {}

  // ---------------------------------------------------------------------
  // time_to_int, with the C library calls it relies on

  /** `strlen`: the position of the first NUL character, or the whole length. */
  function CStrLen(s: string): (n: nat)
    ensures n <= |s|
    ensures forall i :: 0 <= i < n ==> s[i] != '\0'
    ensures n < |s| ==> s[n] == '\0'
  {
    if |s| == 0 || s[0] == '\0' then 0 else 1 + CStrLen(s[1..])
  }

  /** `isspace` in the "C" locale. */
  predicate IsSpace(c: char) {
    c == ' ' || c == '\t' || c == '\n' || c == '\U{B}' || c == '\U{C}' || c == '\r'
  }

  /** Value of the longest run of digits at the front of s, and the run's length. */
  function LeadingDigits(s: string, acc: int): (r: (int, nat))
    ensures r.1 <= |s|
    ensures forall i :: 0 <= i < r.1 ==> IsDigit(s[i])
    ensures r.1 < |s| ==> !IsDigit(s[r.1])
  {
    if |s| == 0 || !IsDigit(s[0]) then (acc, 0)
    else
      var r := LeadingDigits(s[1..], 10 * acc + DigitValue(s[0]));
      (r.0, r.1 + 1)
  }

  /** `atoi` on a NUL-free buffer: optional white space, an optional sign, then
      decimal digits; 0 when no digit follows. */
  function Atoi(s: string): int
    decreases |s|
  {
    if |s| > 0 && IsSpace(s[0]) then Atoi(s[1..])
    else if |s| > 0 && s[0] == '-' then -LeadingDigits(s[1..], 0).0
    else if |s| > 0 && s[0] == '+' then LeadingDigits(s[1..], 0).0
    else LeadingDigits(s, 0).0
  }

  /** `time_to_int`: 0 unless the C string is exactly 8 characters long;
      otherwise the three two-character fields at 0, 3 and 6 are passed to
      `atoi` and combined. The characters at 2 and 5 are never read. */
  function TimeToInt(s: string): (t: int)
    ensures CStrLen(s) != 8 ==> t == 0
    ensures CStrLen(s) == 8 ==>
      t == Atoi(s[0..2]) * 3600 + Atoi(s[3..5]) * 60 + Atoi(s[6..8])
  {
    if CStrLen(s) != 8 then 0
    else
      var hours := Atoi([s[0], s[1]]);
      var minutes := Atoi([s[3], s[4]]);
      var seconds := Atoi([s[6], s[7]]);
      assert s[0..2] == [s[0], s[1]] && s[3..5] == [s[3], s[4]] && s[6..8] == [s[6], s[7]];
      hours * 3600 + minutes * 60 + seconds
  }

  lemma AtoiTwoDigits(a: char, b: char)
    requires IsDigit(a) && IsDigit(b)
    ensures Atoi([a, b]) == 10 * DigitValue(a) + DigitValue(b)
  {
    assert [a, b][1..] == [b];
    assert [b][1..] == [];
    assert LeadingDigits([b], DigitValue(a)) == (10 * DigitValue(a) + DigitValue(b), 1);
    assert LeadingDigits([a, b], 0) == (10 * DigitValue(a) + DigitValue(b), 2);
  }

  /** A well-formed "HH:MM:SS" reads as HH*3600 + MM*60 + SS. */
  lemma TimeToIntDigits(s: string)
    requires |s| == 8 && s[2] != '\0' && s[5] != '\0'
    requires IsDigit(s[0]) && IsDigit(s[1]) && IsDigit(s[3])
    requires IsDigit(s[4]) && IsDigit(s[6]) && IsDigit(s[7])
    ensures TimeToInt(s) ==
      (10 * DigitValue(s[0]) + DigitValue(s[1])) * 3600
      + (10 * DigitValue(s[3]) + DigitValue(s[4])) * 60
      + (10 * DigitValue(s[6]) + DigitValue(s[7]))
  {
    CStrLenAll(s);
    assert s[0..2] == [s[0], s[1]] && s[3..5] == [s[3], s[4]] && s[6..8] == [s[6], s[7]];
    AtoiTwoDigits(s[0], s[1]);
    AtoiTwoDigits(s[3], s[4]);
    AtoiTwoDigits(s[6], s[7]);
  }

  lemma CStrLenAll(s: string)
    requires forall i :: 0 <= i < |s| ==> s[i] != '\0'
    ensures CStrLen(s) == |s|
  {}

  /** The separator characters do not influence the result, provided they do
      not end the C string early. */
  lemma SeparatorsIgnored(s: string, c2: char, c5: char)
    requires |s| == 8 && c2 != '\0' && c5 != '\0'
    requires s[2] != '\0' && s[5] != '\0'
    ensures TimeToInt(s[2 := c2][5 := c5]) == TimeToInt(s)
  {
    var s' := s[2 := c2][5 := c5];
    assert forall i :: 0 <= i < 8 && i != 2 && i != 5 ==> s'[i] == s[i];
    CStrLenSame(s, s');
  }

  lemma {:induction false} CStrLenSame(s: string, s': string)
    requires |s| == |s'|
    requires forall i :: 0 <= i < |s| ==> (s[i] == '\0' <==> s'[i] == '\0')
    ensures CStrLen(s) == CStrLen(s')
    decreases |s|
  {
    if |s| > 0 && s[0] != '\0' {
      CStrLenSame(s[1..], s'[1..]);
    }
  }

  /** Round trip: formatting then parsing gives the time back, for every time
      below 100 hours. */
  lemma TimeRoundTrip(t: int)
    requires 0 <= t < 360000
    ensures TimeToInt(TimeToStr(t)) == t
  {
    var s := TimeToStr(t);
    TimeToStrDigits(t);
    TimeToIntDigits(s);
  }
}
