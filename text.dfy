/** String operations of the Python standard library that the books code
    relies on: `str.find`/`str.rfind`, `str.split('.')`, `os.path.splitext`
    (POSIX flavour) and `int()` on a string. Strings are `seq<char>`; only
    ASCII whitespace and ASCII digits are modelled. */
module Text {
  import opened Wrappers

  /** Index of the first `c` in `s`, or -1 (Python's `s.find(c)`). */
  function IndexOf(s: string, c: char): (r: int)
    ensures -1 <= r < |s|
    ensures r >= 0 ==> s[r] == c
    ensures forall j :: 0 <= j < |s| && (r < 0 || j < r) ==> s[j] != c
  {
    if |s| == 0 then -1
    else if s[0] == c then 0
    else
      var k := IndexOf(s[1..], c);
      if k < 0 then -1 else k + 1
  }

  /** Index of the last `c` in `s`, or -1 (Python's `s.rfind(c)`). */
  function LastIndexOf(s: string, c: char): (r: int)
    ensures -1 <= r < |s|
    ensures r >= 0 ==> s[r] == c
    ensures forall j :: r < j < |s| ==> s[j] != c
  {
    if |s| == 0 then -1
    else if s[|s| - 1] == c then |s| - 1
    else LastIndexOf(s[..|s| - 1], c)
  }

  /** The postcondition of `IndexOf` determines it. */
  lemma IndexOfAt(s: string, c: char, k: int)
    requires -1 <= k < |s|
    requires k >= 0 ==> s[k] == c
    requires forall j :: 0 <= j < |s| && (k < 0 || j < k) ==> s[j] != c
    ensures IndexOf(s, c) == k
  {
  }

  /** The postcondition of `LastIndexOf` determines it. */
  lemma LastIndexOfAt(s: string, c: char, k: int)
    requires -1 <= k < |s|
    requires k >= 0 ==> s[k] == c
    requires forall j :: k < j < |s| ==> s[j] != c
    ensures LastIndexOf(s, c) == k
  {
  }

  /** `s.split(c)[0]`: everything before the first `c`, or all of `s`. */
  function FirstSegment(s: string, c: char): (r: string)
    ensures c !in r
    ensures r <= s
    ensures r == s || s[|r|] == c
  {
    var i := IndexOf(s, c);
    if i < 0 then s else s[..i]
  }

  /** `s.split(c)[1]`: the piece between the first and the second `c`;
      `IndexError` when `s` has no `c` (there is then only one piece). */
  function SecondSegment(s: string, c: char): (r: Result<string>)
    ensures r.Failure? <==> c !in s
    ensures r.Failure? ==> r.error == IndexError
    ensures r.Success? ==> c !in r.value
    ensures r.Success? ==>
      var head := FirstSegment(s, c);
      && head + [c] + r.value <= s
      && (|head + [c] + r.value| == |s| || s[|head + [c] + r.value|] == c)
  {
    var i := IndexOf(s, c);
    if i < 0 then Failure(IndexError)
    else
      assert s[..i] + [c] + s[i + 1..] == s;
      Success(FirstSegment(s[i + 1..], c))
  }

  /** True when `s[lo..hi]` holds a character other than '.'
      (the leading-dots loop of `genericpath._splitext`). */
  predicate HasNonDot(s: string, lo: int, hi: int)
    requires 0 <= lo && hi <= |s|
  {
    exists i :: lo <= i < hi && s[i] != '.'
  }

  /** `os.path.splitext(p)` on POSIX: the extension starts at the last '.' of
      the last path component, unless that component consists only of dots up
      to there (".bashrc" has no extension). */
  function SplitExt(p: string): (r: (string, string))
    ensures r.0 + r.1 == p
    ensures r.1 == "" || (r.1[0] == '.' && '.' !in r.1[1..] && '/' !in r.1)
    ensures '.' !in p ==> r.1 == ""
    ensures r.1 != "" <==>
      exists i, j :: 0 <= i < j < |p| && p[i] != '.' && p[j] == '.' && '/' !in p[i..]
  {
    var sep := LastIndexOf(p, '/');
    var dot := LastIndexOf(p, '.');
    if dot > sep && HasNonDot(p, sep + 1, dot) then
      assert p[..dot] + p[dot..] == p;
      (p[..dot], p[dot..])
    else (p, "")
  }

  /** The extension part of `os.path.splitext`. */
  function Extension(p: string): string {
    SplitExt(p).1
  }

  /** The extension starts at the last dot. */
  lemma SplitExtAtLastDot()
    ensures SplitExt("b.tar.gz") == ("b.tar", ".gz")
  {
    var a := "b.tar.gz";
    LastIndexOfAt(a, '/', -1);
    LastIndexOfAt(a, '.', 5);
    assert a[0] != '.' && HasNonDot(a, 0, 5);
    assert a[..5] == "b.tar" && a[5..] == ".gz";
  }

  /** A leading dot does not start an extension. */
  lemma SplitExtLeadingDot()
    ensures SplitExt(".bashrc") == (".bashrc", "")
  {
    var b := ".bashrc";
    LastIndexOfAt(b, '.', 0);
  }

  /** A dot in a directory name does not start an extension. */
  lemma SplitExtDotInDirectory()
    ensures SplitExt("d.d/f") == ("d.d/f", "")
  {
    var d := "d.d/f";
    LastIndexOfAt(d, '/', 3);
    LastIndexOfAt(d, '.', 1);
  }

  // ----- str(uuid4()) -----

  predicate IsHexDigit(c: char) {
    '0' <= c <= '9' || 'a' <= c <= 'f'
  }

  /** The text form of a UUID: 32 lower-case hex digits in groups 8-4-4-4-12. */
  predicate IsUuidText(s: string) {
    && |s| == 36
    && forall i :: 0 <= i < |s| ==>
         if i == 8 || i == 13 || i == 18 || i == 23 then s[i] == '-' else IsHexDigit(s[i])
  }

  // ----- int() on a string -----

  predicate IsSpace(c: char) {
    c == ' ' || c == '\t' || c == '\n' || c == '\r' || c == '\U{0B}' || c == '\U{0C}'
  }

  predicate IsDigit(c: char) {
    '0' <= c <= '9'
  }

  predicate AllDigits(s: string) {
    forall i :: 0 <= i < |s| ==> IsDigit(s[i])
  }

  /** `s.strip()` for the ASCII whitespace characters. */
  function Strip(s: string): (r: string)
    ensures |r| <= |s|
    ensures r == "" || (!IsSpace(r[0]) && !IsSpace(r[|r| - 1]))
    ensures forall i :: 0 <= i < |s| && !IsSpace(s[i]) ==> s[i] in r
    decreases |s|
  {
    if |s| > 0 && IsSpace(s[0]) then Strip(s[1..])
    else if |s| > 0 && IsSpace(s[|s| - 1]) then Strip(s[..|s| - 1])
    else s
  }

  /** The value of a string of decimal digits. */
  function DigitsValue(s: string): (n: nat)
    requires AllDigits(s)
  {
    if |s| == 0 then 0
    else DigitsValue(s[..|s| - 1]) * 10 + (s[|s| - 1] as int - '0' as int)
  }

  /** `int(s)` for base 10: surrounding whitespace, an optional sign, then at
      least one digit; anything else raises `ValueError`. */
  function ParseInt(s: string): (r: Result<int>)
    ensures r.Failure? ==> r.error == ValueError
    ensures r.Success? ==> exists i :: 0 <= i < |s| && IsDigit(s[i])
    ensures (exists i :: 0 <= i < |s| && !IsDigit(s[i]) && !IsSpace(s[i]) && s[i] != '+' && s[i] != '-') ==> r.Failure?
  {
    var t := Strip(s);
    var signed := |t| > 0 && (t[0] == '-' || t[0] == '+');
    var body := if signed then t[1..] else t;
    if |body| > 0 && AllDigits(body) then
      StripKeepsChars(s, body[0]);
      var v: int := DigitsValue(body);
      Success(if signed && t[0] == '-' then -v else v)
    else Failure(ValueError)
  }

  lemma {:induction false} StripKeepsChars(s: string, c: char)
    requires c in Strip(s)
    ensures c in s
    decreases |s|
  {
    if |s| > 0 && IsSpace(s[0]) {
      StripKeepsChars(s[1..], c);
    } else if |s| > 0 && IsSpace(s[|s| - 1]) {
      StripKeepsChars(s[..|s| - 1], c);
    }
  }

  /** The decimal digits of `n` without leading zeros (`str(n)` for n >= 0). */
  function Digits(n: nat): (s: string)
    ensures |s| > 0 && AllDigits(s)
  {
    var d := [('0' as int + n % 10) as char];
    if n < 10 then d else Digits(n / 10) + d
  }

  /** `str(n)` for any integer. */
  function Decimal(n: int): string {
    if n < 0 then "-" + Digits(-n) else Digits(n)
  }

  lemma {:induction false} DigitsValueOfDigits(n: nat)
    ensures DigitsValue(Digits(n)) == n
  {
    var s := Digits(n);
    if n >= 10 {
      DigitsValueOfDigits(n / 10);
      assert s[..|s| - 1] == Digits(n / 10);
    }
  }

  /** Stripping removes exactly the whitespace around a text whose ends are
      not whitespace. */
  lemma {:induction false} StripPadded(a: string, d: string, b: string)
    requires forall i :: 0 <= i < |a| ==> IsSpace(a[i])
    requires forall i :: 0 <= i < |b| ==> IsSpace(b[i])
    requires |d| > 0 && !IsSpace(d[0]) && !IsSpace(d[|d| - 1])
    ensures Strip(a + d + b) == d
    decreases |a| + |b|
  {
    var s := a + d + b;
    if |a| > 0 {
      assert s[0] == a[0];
      assert s[1..] == a[1..] + d + b;
      StripPadded(a[1..], d, b);
    } else if |b| > 0 {
      assert s == d + b;
      assert s[0] == d[0] && s[|s| - 1] == b[|b| - 1];
      assert s[..|s| - 1] == a + d + b[..|b| - 1];
      StripPadded(a, d, b[..|b| - 1]);
    } else {
      assert s == d;
    }
  }

  /** `int(str(n)) == n`: the parser inverts the printer. */
  lemma ParseDecimal(n: int)
    ensures ParseInt(Decimal(n)) == Success(n)
  {
    var s := Decimal(n);
    var digits := if n < 0 then Digits(-n) else Digits(n);
    assert !IsSpace(s[0]) && !IsSpace(s[|s| - 1]);
    assert Strip(s) == s;
    DigitsValueOfDigits(if n < 0 then -n else n);
    if n < 0 {
      assert s[1..] == digits;
    } else {
      assert s[0] != '-' && s[0] != '+';
    }
  }

  /** `int()` ignores whitespace around the number: `int(ws + str(n) + ws) == n`. */
  lemma ParsePaddedDecimal(ws: string, n: int)
    requires forall i :: 0 <= i < |ws| ==> IsSpace(ws[i])
    ensures ParseInt(ws + Decimal(n) + ws) == Success(n)
  {
    var d := Decimal(n);
    ParseDecimal(n);
    assert !IsSpace(d[0]) && !IsSpace(d[|d| - 1]);
    StripPadded(ws, d, ws);
  }
}
