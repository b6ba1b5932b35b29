/** The Go library's white space and its printing and reading of 64-bit integers. */
module GoText {
  import opened Options
  import opened Text

  // unicode.IsSpace
  predicate IsSpace(c: char) {
    || '\t' <= c <= '\r' || c == ' ' || c == '\U{85}' || c == '\U{A0}' || c == '\U{1680}'
    || '\U{2000}' <= c <= '\U{200A}'
    || c == '\U{2028}' || c == '\U{2029}' || c == '\U{202F}' || c == '\U{205F}' || c == '\U{3000}'
  }

  function TrimSpace(s: string): string {
    TrimBy(s, IsSpace)
  }

  const MAX_INT := 0x7FFF_FFFF_FFFF_FFFF

  predicate IsInt64(n: int) {
    -MAX_INT - 1 <= n <= MAX_INT
  }

  // printf's %d.
  function Integer(n: int): string {
    if n < 0 then "-" + Decimal(-n) else Decimal(n)
  }

  predicate Negative(s: string) {
    s != "" && s[0] == '-'
  }

  // What follows the sign, if there is one.
  function Unsigned(s: string): string {
    if s != "" && s[0] in "+-" then s[1..] else s
  }

  // The number of the given sign and magnitude, unless it is out of range.
  function Int64(negative: bool, magnitude: nat): Option<int> {
    var n: int := magnitude;
    if n > (if negative then MAX_INT + 1 else MAX_INT) then None else Some(if negative then -n else n)
  }

  function Magnitude(n: int): nat {
    if n < 0 then -n else n
  }

  // strconv.Atoi
  function Atoi(s: string): Option<int> {
    var digits := Unsigned(s);
    if digits == "" || !AllDigits(digits) then None else Int64(Negative(s), Value(digits))
  }

  lemma IntegerParts(n: int)
    ensures Negative(Integer(n)) <==> n < 0
    ensures Unsigned(Integer(n)) == Decimal(Magnitude(n))
    ensures Integer(n) != "" && !IsSpace(Integer(n)[0])
    ensures IsDigit(Integer(n)[|Integer(n)| - 1])
  {
    var d := Decimal(Magnitude(n));
    assert d[0] in d && d[|d| - 1] in d;
    hide Decimal;
    assert n < 0 ==> Integer(n)[1..] == d;
    assert Integer(n)[|Integer(n)| - 1] == d[|d| - 1];
  }

  lemma AtoiOfInteger(n: int)
    requires IsInt64(n)
    ensures Atoi(Integer(n)) == Some(n)
  {
    IntegerParts(n);
    ValueOfDecimal(Magnitude(n));
    hide Decimal, Value, Integer, Unsigned, Negative;
  }

  lemma TrimOfInteger(n: int)
    ensures TrimSpace(Integer(n)) == Integer(n)
  {
    IntegerParts(n);
    hide Integer;
    TrimNothing(Integer(n), IsSpace);
  }

  lemma IntegerInjective(m: int, n: int)
    requires Integer(m) == Integer(n)
    ensures m == n
  {
    IntegerParts(m);
    IntegerParts(n);
    ValueOfDecimal(Magnitude(m));
    ValueOfDecimal(Magnitude(n));
    hide Decimal, Integer, Unsigned, Negative, Value;
  }

  // ---------- strconv.ParseFloat ----------

  datatype Float = Finite(value: real) | Infinite(negative: bool) | NotANumber

  function Plus(a: Float, b: Float): Float {
    match (a, b)
    case (Finite(x), Finite(y)) => Finite(x + y)
    case (Infinite(_), Finite(_)) => a
    case (Finite(_), Infinite(_)) => b
    case (Infinite(p), Infinite(q)) => if p == q then a else NotANumber
    case _ => NotANumber
  }

  lemma PlusAssoc(a: Float, b: Float, c: Float)
    ensures Plus(Plus(a, b), c) == Plus(a, Plus(b, c))
  {}

  function Lowered(s: string): string {
    seq(|s|, i requires 0 <= i < |s| => if 'A' <= s[i] <= 'Z' then (s[i] as int + 32) as char else s[i])
  }

  // Underscores stand between digits, or between a base prefix and a digit; `afterDigit` and
  // `afterUnderscore` say what came before.
  predicate UnderscoresOk(s: string, hex: bool, afterDigit: bool, afterUnderscore: bool) {
    if s == "" then !afterUnderscore
    else if HexDigit(s[0]) < (if hex then 16 else 10) then UnderscoresOk(s[1..], hex, true, false)
    else if s[0] == '_' then afterDigit && UnderscoresOk(s[1..], hex, false, true)
    else !afterUnderscore && UnderscoresOk(s[1..], hex, false, false)
  }

  function WithoutUnderscores(s: string): string {
    if s == "" then "" else (if s[0] == '_' then "" else [s[0]]) + WithoutUnderscores(s[1..])
  }

  function HexRun(s: string): (n: nat)
    ensures n <= |s|
  {
    if s == "" || HexDigit(s[0]) >= 16 then 0 else 1 + HexRun(s[1..])
  }

  // What follows 0x: a hexadecimal mantissa and a binary exponent, which must be there.
  function HexFloat(s: string): Option<real> {
    var i := HexRun(s);
    var dot := i < |s| && s[i] == '.';
    var frac := if dot then s[i + 1..] else "";
    var f := HexRun(frac);
    var rest := if dot then frac[f..] else s[i..];
    var (e, len) := Exponent(rest, "pP");
    if i + f == 0 || len == 0 || len != |rest| then None
    else
      var mantissa := BaseValue(s[..i], 16) as real + BaseValue(frac[..f], 16) as real / Power(16, f) as real;
      Some(Scaled(mantissa, 2, e))
  }

  function UnsignedFloat(s: string): Option<real> {
    if |s| > 2 && PrefixBase(s) == 16 then HexFloat(s[2..])
    else
      var (n, len) := Literal(s);
      if n.Num? && len == |s| then Some(n.value) else None
  }

  function ParseFloat(s: string): Option<Float> {
    var body := Unsigned(s);
    var base := PrefixBase(body);
    var digits := if base > 0 then body[2..] else body;
    if Lowered(body) in ["inf", "infinity"] then Some(Infinite(Negative(s)))
    else if Lowered(s) == "nan" then Some(NotANumber)
    else if '_' in body && !UnderscoresOk(digits, base == 16, base > 0, false) then None
    else
      match UnsignedFloat(if '_' in body then WithoutUnderscores(body) else body)
      case None => None
      case Some(v) => Some(Finite(if Negative(s) then -v else v))
  }

  lemma UnsignedFloatOf(d: string, f: string)
    requires AllDigits(d) && d != "" && AllDigits(f)
    ensures UnsignedFloat(d + "." + f) == Some(DecimalValue(d, f))
  {
    var s := d + "." + f;
    LiteralOf(d, f);
    assert s[1] == if |d| > 1 then d[1] else '.';
    assert |d| > 1 ==> d[1] in d;
    hide Literal, DecimalValue, HexFloat;
  }

  lemma NoUnderscore(d: string, f: string)
    requires AllDigits(d) && d != "" && AllDigits(f)
    ensures var s := d + "." + f;
            '_' !in s && Unsigned(s) == s && !Negative(s) && IsDigit(s[0])
  {
    assert d[0] in d;
    var s := d + "." + f;
    assert s[0] == d[0];
  }

  lemma ParseFloatOf(d: string, f: string)
    requires AllDigits(d) && d != "" && AllDigits(f)
    ensures ParseFloat(d + "." + f) == Some(Finite(DecimalValue(d, f)))
  {
    var s := d + "." + f;
    NoUnderscore(d, f);
    assert Lowered(s)[0] == s[0];
    UnsignedFloatOf(d, f);
    hide UnsignedFloat, DecimalValue, Unsigned, Negative, PrefixBase, UnderscoresOk, AllDigits;
  }

  // ---------- No number has an s in it ----------

  lemma {:induction false} HexRunChars(s: string)
    ensures AllLiteral(s[..HexRun(s)])
  {
    if s != "" && HexDigit(s[0]) < 16 {
      HexRunChars(s[1..]);
      hide LiteralChar;
      assert s[..HexRun(s)] == [s[0]] + s[1..][..HexRun(s[1..])];
      assert LiteralChar(s[0]) by {
        HexIsLiteral(s[0]);
      }
    }
  }

  lemma HexIsLiteral(c: char)
    requires HexDigit(c) < 16
    ensures LiteralChar(c)
  {}

  lemma AllLiteralConcat(a: string, b: string)
    requires AllLiteral(a) && AllLiteral(b)
    ensures AllLiteral(a + b)
  {
    hide LiteralChar;
  }

  // A run of hexadecimal digits and an exponent.
  lemma HexTailChars(s: string, f: nat)
    requires f == HexRun(s) && Exponent(s[f..], "pP").1 == |s[f..]|
    ensures AllLiteral(s)
  {
    hide HexRun, Exponent, AllLiteral;
    HexRunChars(s);
    ExponentChars(s[f..], "pP");
    WholeSlice(s[f..]);
    AllLiteralConcat(s[..f], s[f..]);
    CutAt(s, f);
  }

  lemma WholeSlice(s: string)
    ensures s[..|s|] == s
  {}

  lemma CutAt(s: string, f: nat)
    requires f <= |s|
    ensures s[..f] + s[f..] == s
  {}

  lemma DotIsLiteral()
    ensures AllLiteral(".")
  {}

  lemma HexFloatChars(s: string)
    requires HexFloat(s).Some?
    ensures AllLiteral(s)
  {
    hide HexRun, AllLiteral, Exponent, Scaled, BaseValue, Power;
    var i := HexRun(s);
    if i < |s| && s[i] == '.' {
      var tail := s[i + 1..];
      HexTailChars(tail, HexRun(tail));
      hide HexFloat;
      HexRunChars(s);
      DotIsLiteral();
      AllLiteralConcat(".", tail);
      AllLiteralConcat(s[..i], "." + tail);
      assert s == s[..i] + ("." + tail);
    } else {
      HexTailChars(s, i);
    }
  }

  lemma LiteralLacksS(s: string)
    requires AllLiteral(s)
    ensures 's' !in s
  {
    assert !LiteralChar('s');
  }

  lemma UnsignedFloatLacksS(s: string)
    requires UnsignedFloat(s).Some?
    ensures 's' !in s
  {
    if |s| > 2 && PrefixBase(s) == 16 {
      HexFloatChars(s[2..]);
      LiteralLacksS(s[2..]);
      hide HexFloat;
      assert s == s[..2] + s[2..] && s[0] != 's' && s[1] != 's';
    } else {
      LiteralChars(s);
      hide Literal, AllLiteral;
      assert s[..|s|] == s;
      LiteralLacksS(s);
    }
  }

  lemma {:induction false} UnderscoresLeave(s: string)
    requires 's' in s
    ensures 's' in WithoutUnderscores(s)
  {
    if s[0] != 's' {
      UnderscoresLeave(s[1..]);
    }
  }

  lemma LoweredKeepsS(s: string)
    requires 's' in s
    ensures 's' in Lowered(s)
  {
    var k :| 0 <= k < |s| && s[k] == 's';
    assert Lowered(s)[k] == 's';
  }

  lemma NoFloatWithS(s: string)
    requires 's' in s
    ensures ParseFloat(s).None?
  {
    var body := Unsigned(s);
    LoweredKeepsS(s);
    LoweredKeepsS(body);
    UnderscoresLeave(body);
    var y := if '_' in body then WithoutUnderscores(body) else body;
    hide UnsignedFloat, WithoutUnderscores, UnderscoresOk, PrefixBase;
    if UnsignedFloat(y).Some? {
      UnsignedFloatLacksS(y);
    }
  }
}
