/** The string functions of the Go and JavaScript libraries that the text pipelines use. */
module Text {

  function Split(s: string, sep: char): (parts: seq<string>)
    ensures parts != []
  {
    if s == "" then [""]
    else if s[0] == sep then [""] + Split(s[1..], sep)
    else
      var rest := Split(s[1..], sep);
      [[s[0]] + rest[0]] + rest[1..]
  }

  function Join(parts: seq<string>, sep: char): string {
    if parts == [] then ""
    else if |parts| == 1 then parts[0]
    else parts[0] + [sep] + Join(parts[1..], sep)
  }

  // Every line followed by a newline.
  function Unlines(lines: seq<string>): string {
    if lines == [] then "" else lines[0] + "\n" + Unlines(lines[1..])
  }

  predicate OneLine(s: string) {
    '\n' !in s
  }

  function HasPrefix(s: string, prefix: string): bool {
    prefix <= s
  }

  predicate HasSuffix(s: string, suffix: string) {
    |suffix| <= |s| && s[|s| - |suffix|..] == suffix
  }

  // The first position of `sub` in `s`, or -1.
  function IndexOf(s: string, sub: string): (i: int)
    ensures -1 <= i <= |s|
    ensures i >= 0 ==> i + |sub| <= |s|
  {
    if sub <= s then 0
    else if s == "" then -1
    else
      var i := IndexOf(s[1..], sub);
      if i == -1 then -1 else i + 1
  }

  predicate Contains(s: string, sub: string) {
    IndexOf(s, sub) != -1
  }

  function ReplaceChar(s: string, from: char, to: char): (r: string)
    ensures |r| == |s|
    ensures forall i | 0 <= i < |s| :: r[i] == if s[i] == from then to else s[i]
  {
    seq(|s|, i requires 0 <= i < |s| => if s[i] == from then to else s[i])
  }

  lemma Assoc<T>(a: seq<T>, b: seq<T>, c: seq<T>)
    ensures (a + b) + c == a + (b + c)
  {}

  // ---------- Lines ----------

  lemma {:induction false} SplitOne(s: string, sep: char)
    requires sep !in s
    ensures Split(s, sep) == [s]
  {
    if s != "" {
      SplitOne(s[1..], sep);
      assert [s[0]] + s[1..] == s;
    }
  }

  lemma {:induction false} SplitFirst(s: string, sep: char, rest: string)
    requires sep !in s
    ensures Split(s + [sep] + rest, sep) == [s] + Split(rest, sep)
  {
    var whole := s + [sep] + rest;
    if s == "" {
      assert whole[1..] == rest;
    } else {
      SplitFirst(s[1..], sep, rest);
      assert whole[1..] == s[1..] + [sep] + rest && whole[0] == s[0] != sep;
      assert [s[0]] + s[1..] == s;
    }
  }

  lemma SplitLine(line: string, rest: string)
    requires OneLine(line)
    ensures Split(line + "\n" + rest, '\n') == [line] + Split(rest, '\n')
  {
    SplitFirst(line, '\n', rest);
  }

  lemma {:induction false} SplitUnlines(lines: seq<string>, rest: string)
    requires forall l <- lines :: OneLine(l)
    ensures Split(Unlines(lines) + rest, '\n') == lines + Split(rest, '\n')
  {
    hide Split, OneLine;
    if lines == [] {
      assert Unlines(lines) + rest == rest;
    } else {
      var line, more := lines[0], lines[1..];
      assert OneLine(line);
      SplitUnlines(more, rest);
      SplitLine(line, Unlines(more) + rest);
      Assoc(line + "\n", Unlines(more), rest);
      Assoc([line], more, Split(rest, '\n'));
    }
  }

  predicate AllLines(lines: seq<string>) {
    forall l <- lines :: OneLine(l)
  }

  lemma AllLinesConcat(a: seq<string>, b: seq<string>)
    requires AllLines(a) && AllLines(b)
    ensures AllLines(a + b)
  {
    hide OneLine;
  }

  lemma UnlinesEmpty()
    ensures Unlines([]) == ""
  {}

  lemma UnlinesSnoc(lines: seq<string>, line: string)
    ensures Unlines(lines + [line]) == Unlines(lines) + line + "\n"
  {
    UnlinesAppend(lines, [line]);
    assert Unlines([line]) == line + "\n" + Unlines([]);
  }

  lemma {:induction false} UnlinesAppend(a: seq<string>, b: seq<string>)
    ensures Unlines(a + b) == Unlines(a) + Unlines(b)
  {
    if a == [] {
      assert a + b == b;
    } else {
      UnlinesAppend(a[1..], b);
      assert (a + b)[1..] == a[1..] + b;
    }
  }

  lemma SplitEmpty()
    ensures Split("", '\n') == [""]
  {}

  lemma {:induction false} JoinUnlines(a: seq<string>, b: seq<string>)
    requires b != []
    ensures Join(a + b, '\n') == Unlines(a) + Join(b, '\n')
  {
    if a == [] {
      assert a + b == b;
    } else {
      JoinUnlines(a[1..], b);
      assert (a + b)[1..] == a[1..] + b;
      assert ['\n'] == "\n";
      Assoc(a[0] + "\n", Unlines(a[1..]), Join(b, '\n'));
    }
  }

  lemma {:induction false} SplitJoin(parts: seq<string>, sep: char)
    requires parts != [] && forall p <- parts :: sep !in p
    ensures Split(Join(parts, sep), sep) == parts
  {
    if |parts| == 1 {
      SplitOne(parts[0], sep);
    } else {
      SplitJoin(parts[1..], sep);
      SplitFirst(parts[0], sep, Join(parts[1..], sep));
    }
  }

  lemma {:induction false} SplitPartsLackSep(s: string, sep: char)
    ensures forall p <- Split(s, sep) :: sep !in p
  {
    if s != "" {
      SplitPartsLackSep(s[1..], sep);
    }
  }

  lemma {:induction false} JoinSplit(s: string, sep: char)
    ensures Join(Split(s, sep), sep) == s
  {
    if s != "" {
      JoinSplit(s[1..], sep);
    }
  }

  // ---------- Searching ----------

  lemma {:induction false} IndexOfFirst(a: string, sub: string, b: string)
    requires sub != "" && sub[0] !in a
    ensures IndexOf(a + sub + b, sub) == |a|
  {
    if a == "" {
      assert a + sub + b == sub + b;
    } else {
      IndexOfFirst(a[1..], sub, b);
      assert (a + sub + b)[1..] == a[1..] + sub + b;
      assert (a + sub + b)[0] == a[0];
    }
  }

  lemma {:induction false} NotContained(s: string, sub: string)
    requires sub != "" && sub[0] !in s
    ensures !Contains(s, sub)
  {
    if s != "" {
      NotContained(s[1..], sub);
    }
  }

  // ---------- Decimal numbers ----------

  predicate IsDigit(c: char) {
    '0' <= c <= '9'
  }

  predicate AllDigits(s: string) {
    forall c <- s :: IsDigit(c)
  }

  function DigitChar(d: nat): (c: char)
    requires d < 10
    ensures IsDigit(c)
  {
    ['0', '1', '2', '3', '4', '5', '6', '7', '8', '9'][d]
  }

  function DigitValue(c: char): nat
    requires IsDigit(c)
  {
    (c as int) - ('0' as int)
  }

  function Decimal(n: nat): (s: string)
    ensures s != "" && AllDigits(s)
  {
    if n < 10 then [DigitChar(n)] else Decimal(n / 10) + [DigitChar(n % 10)]
  }

  function Value(s: string): nat
    requires AllDigits(s)
  {
    if s == "" then 0 else 10 * Value(s[..|s| - 1]) + DigitValue(s[|s| - 1])
  }

  function Zeros(k: nat): (s: string)
    ensures |s| == k && forall c <- s :: c == '0'
  {
    seq(k, _ => '0')
  }

  // printf's %0<width>d.
  function Padded(n: nat, width: nat): (s: string)
    ensures s != "" && AllDigits(s)
  {
    var d := Decimal(n);
    if |d| < width then Zeros(width - |d|) + d else d
  }

  lemma {:induction false} ValueOfDecimal(n: nat)
    ensures Value(Decimal(n)) == n
  {
    if n >= 10 {
      ValueOfDecimal(n / 10);
    }
  }

  lemma {:induction false} ValueOfZeros(k: nat, s: string)
    requires AllDigits(s)
    ensures AllDigits(Zeros(k) + s) && Value(Zeros(k) + s) == Value(s)
  {
    var t := Zeros(k) + s;
    if s != "" {
      ValueOfZeros(k, s[..|s| - 1]);
      assert t[..|t| - 1] == Zeros(k) + s[..|s| - 1];
    } else if k > 0 {
      ValueOfZeros(k - 1, "");
      assert t[..|t| - 1] == Zeros(k - 1) + "";
    } else {
      assert t == "";
    }
  }

  lemma ValueOfPadded(n: nat, width: nat)
    ensures Value(Padded(n, width)) == n
  {
    ValueOfDecimal(n);
    if |Decimal(n)| < width {
      ValueOfZeros(width - |Decimal(n)|, Decimal(n));
    }
  }

  function Power(base: nat, k: nat): (p: nat)
    requires base > 0
    ensures p > 0
  {
    if k == 0 then 1 else
      var p := Power(base, k - 1);
      MulPositive(base, p);
      base * p
  }

  lemma MulPositive(a: nat, b: nat)
    requires a > 0 && b > 0
    ensures a * b > 0
  {}

  lemma {:induction false} DecimalLength(n: nat, width: nat)
    requires 0 < width && n < Power(10, width)
    ensures |Decimal(n)| <= width
  {
    if n >= 10 {
      DecimalLength(n / 10, width - 1);
    }
  }

  lemma PaddedLength(n: nat)
    requires n < 1000
    ensures |Padded(n, 3)| == 3 && Power(10, 3) == 1000
  {
    assert Power(10, 3) == 10 * Power(10, 2) == 10 * (10 * Power(10, 1));
    DecimalLength(n, 3);
  }

  // ---------- Trimming ----------

  function TrimLeft(s: string, space: char -> bool): string {
    if s != "" && space(s[0]) then TrimLeft(s[1..], space) else s
  }

  function TrimRight(s: string, space: char -> bool): string {
    if s != "" && space(s[|s| - 1]) then TrimRight(s[..|s| - 1], space) else s
  }

  function TrimBy(s: string, space: char -> bool): string {
    TrimLeft(TrimRight(s, space), space)
  }

  lemma {:induction false} TrimRightKeeps(s: string, space: char -> bool)
    ensures var t := TrimRight(s, space);
            && t <= s && (forall i | |t| <= i < |s| :: space(s[i]))
            && (t != "" ==> !space(t[|t| - 1]))
  {
    if s != "" && space(s[|s| - 1]) {
      TrimRightKeeps(s[..|s| - 1], space);
    }
  }

  lemma {:induction false} TrimLeftKeeps(s: string, space: char -> bool)
    ensures TrimLeft(s, space) == "" <==> forall c <- s :: space(c)
  {
    if s != "" && space(s[0]) {
      TrimLeftKeeps(s[1..], space);
      assert s == [s[0]] + s[1..];
    }
  }

  // Nothing is left of a string exactly when it is all space.
  lemma TrimmedAway(s: string, space: char -> bool)
    ensures TrimBy(s, space) == "" <==> forall c <- s :: space(c)
  {
    TrimRightKeeps(s, space);
    TrimLeftKeeps(TrimRight(s, space), space);
  }

  lemma TrimNothing(s: string, space: char -> bool)
    requires s != "" && !space(s[0]) && !space(s[|s| - 1])
    ensures TrimBy(s, space) == s
  {}

  lemma TrimOne(s: string, space: char -> bool, c: char)
    requires s != "" && !space(s[0]) && !space(s[|s| - 1]) && space(c)
    ensures TrimBy(s + [c], space) == s && TrimBy([c] + s, space) == s
  {
    assert (s + [c])[..|s|] == s && ([c] + s)[1..] == s;
    assert TrimRight(s, space) == s && TrimRight(s + [c], space) == s && TrimRight([c] + s, space) == [c] + s;
  }

  // Trimming takes away space only.
  lemma {:induction false} TrimKeeps(s: string, space: char -> bool, k: nat)
    requires k < |s| && !space(s[k])
    ensures s[k] in TrimBy(s, space)
  {
    TrimRightKeeps(s, space);
    var t := TrimRight(s, space);
    assert t == s[..|t|] && k < |t| && t[k] == s[k];
    TrimLeftKeepsAt(t, space, k);
  }

  lemma {:induction false} TrimLeftKeepsAt(s: string, space: char -> bool, k: nat)
    requires k < |s| && !space(s[k])
    ensures s[k] in TrimLeft(s, space)
  {
    if space(s[0]) {
      TrimLeftKeepsAt(s[1..], space, k - 1);
    }
  }

  // ---------- Decimal literals ----------

  // NaN stands for every result that is not a finite number.
  datatype Number = NaN | Num(value: real)

  function DigitRun(s: string): (n: nat)
    ensures n <= |s| && AllDigits(s[..n])
    ensures n < |s| ==> !IsDigit(s[n])
  {
    if s == "" || !IsDigit(s[0]) then 0
    else
      var n := 1 + DigitRun(s[1..]);
      assert s[..n] == [s[0]] + s[1..][..n - 1];
      n
  }

  // The value of `whole.frac`.
  function DecimalValue(whole: string, frac: string): real
    requires AllDigits(whole) && AllDigits(frac)
  {
    Value(whole) as real + Value(frac) as real / Power(10, |frac|) as real
  }

  // The longest unsigned decimal literal without exponent that `s` starts with, and its length.
  function Mantissa(s: string): (r: (Number, nat))
    ensures r.1 <= |s|
  {
    var i := DigitRun(s);
    if i < |s| && s[i] == '.' then
      var frac := s[i + 1..];
      var f := DigitRun(frac);
      if i + f == 0 then (NaN, 0)
      else (Num(DecimalValue(s[..i], frac[..f])), i + 1 + f)
    else if i == 0 then (NaN, 0)
    else (Num(DecimalValue(s[..i], "")), i)
  }

  // The exponent `s` starts with, and its length; no exponent counts as 0.
  function Exponent(s: string, mark: string): (r: (int, nat))
    ensures r.1 <= |s|
  {
    if s == "" || s[0] !in mark then (0, 0)
    else
      var signed := |s| > 1 && s[1] in "+-";
      var start := if signed then 2 else 1;
      var n := DigitRun(s[start..]);
      if n == 0 then (0, 0)
      else
        var e := Value(s[start..][..n]);
        (if signed && s[1] == '-' then 0 - e else e, start + n)
  }

  function Scaled(v: real, base: nat, e: int): real
    requires base > 0
  {
    if e >= 0 then v * Power(base, e) as real else v / Power(base, -e) as real
  }

  // The longest unsigned decimal literal `s` starts with, and its length.
  function Literal(s: string): (r: (Number, nat))
    ensures r.1 <= |s|
  {
    var (n, len) := Mantissa(s);
    if n.NaN? then (NaN, 0)
    else
      var (e, more) := Exponent(s[len..], "eE");
      (Num(Scaled(n.value, 10, e)), len + more)
  }

  function Signed(s: string): (r: (Number, nat))
    ensures r.1 <= |s|
  {
    if s != "" && s[0] in "+-" then
      var (n, len) := Literal(s[1..]);
      if n.NaN? then (NaN, 0) else (Num(if s[0] == '-' then -n.value else n.value), len + 1)
    else Literal(s)
  }

  lemma {:induction false} DigitRunOf(d: string, rest: string)
    requires AllDigits(d) && (rest != "" ==> !IsDigit(rest[0]))
    ensures DigitRun(d + rest) == |d|
  {
    if d == "" {
      assert d + rest == rest;
    } else {
      DigitRunOf(d[1..], rest);
      assert (d + rest)[1..] == d[1..] + rest;
    }
  }

  lemma LiteralOf(d: string, f: string)
    requires AllDigits(d) && d != "" && AllDigits(f)
    ensures Literal(d + "." + f) == (Num(DecimalValue(d, f)), |d| + 1 + |f|)
  {
    hide DecimalValue, AllDigits, IsDigit, DigitRun, Scaled;
    var t := d + "." + f;
    assert !IsDigit('.') by {
      DotIsNoDigit();
    }
    DigitRunOf(d, "." + f);
    DigitRunOf(f, "");
    assert t == d + ("." + f) && f + "" == f && f[..|f|] == f;
    assert t[..|d|] == d && t[|d| + 1..] == f;
    assert t[|t|..] == "";
    Unscaled(DecimalValue(d, f));
  }

  lemma Unscaled(v: real)
    ensures Scaled(v, 10, 0) == v
  {}

  lemma LiteralOfDigits(d: string)
    requires AllDigits(d) && d != ""
    ensures Literal(d) == (Num(DecimalValue(d, "")), |d|)
  {
    assert AllDigits("");
    hide DecimalValue, AllDigits, IsDigit, DigitRun, Scaled;
    DigitRunOf(d, "");
    assert d + "" == d && d[..|d|] == d;
    assert d[|d|..] == "";
    Unscaled(DecimalValue(d, ""));
  }

  lemma DotIsNoDigit()
    ensures !IsDigit('.')
  {}

  // ---------- Digits of other bases ----------

  // The value of a digit, or 16.
  function HexDigit(c: char): nat {
    if '0' <= c <= '9' then (c as int) - ('0' as int)
    else if 'a' <= c <= 'f' then (c as int) - ('a' as int) + 10
    else if 'A' <= c <= 'F' then (c as int) - ('A' as int) + 10
    else 16
  }

  predicate DigitsBelow(s: string, base: nat) {
    forall i | 0 <= i < |s| :: HexDigit(s[i]) < base
  }

  function BaseValue(s: string, base: nat): nat {
    if s == "" then 0 else BaseValue(s[..|s| - 1], base) * base + HexDigit(s[|s| - 1])
  }

  // The base that a prefix 0x, 0o or 0b gives, in either case, or 0.
  function PrefixBase(s: string): nat {
    if |s| < 2 || s[0] != '0' then 0
    else if s[1] in "xX" then 16
    else if s[1] in "oO" then 8
    else if s[1] in "bB" then 2
    else 0
  }

  // The characters of decimal and hexadecimal literals.
  predicate LiteralChar(c: char) {
    HexDigit(c) < 16 || c in ".pP+-"
  }

  predicate AllLiteral(s: string) {
    forall i | 0 <= i < |s| :: LiteralChar(s[i])
  }

  lemma RunChars(s: string)
    ensures AllLiteral(s[..DigitRun(s)])
  {
    assert forall c <- s[..DigitRun(s)] :: IsDigit(c);
    forall i | 0 <= i < DigitRun(s) ensures LiteralChar(s[i]) {
      assert s[..DigitRun(s)][i] == s[i];
    }
  }

  lemma MantissaChars(s: string)
    ensures AllLiteral(s[..Mantissa(s).1])
  {
    var i := DigitRun(s);
    RunChars(s);
    if i < |s| && s[i] == '.' {
      var frac := s[i + 1..];
      RunChars(frac);
      hide DigitRun, DecimalValue;
      assert s[..i + 1 + DigitRun(frac)] == s[..i] + "." + frac[..DigitRun(frac)];
    }
  }

  lemma ExponentChars(s: string, mark: string)
    requires mark in ["eE", "pP"]
    ensures AllLiteral(s[..Exponent(s, mark).1])
  {
    if s != "" && s[0] in mark {
      var start := if |s| > 1 && s[1] in "+-" then 2 else 1;
      RunChars(s[start..]);
      var n := DigitRun(s[start..]);
      hide DigitRun, Value;
      assert s[..start + n] == s[..start] + s[start..][..n];
    }
  }

  lemma LiteralChars(s: string)
    ensures AllLiteral(s[..Literal(s).1])
  {
    MantissaChars(s);
    var len := Mantissa(s).1;
    ExponentChars(s[len..], "eE");
    hide Mantissa, Exponent, Scaled, LiteralChar;
    var more := Exponent(s[len..], "eE").1;
    assert s[..len + more] == s[..len] + s[len..][..more];
  }
}
