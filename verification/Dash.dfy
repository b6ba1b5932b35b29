/**
 DASH durations: the printer of pkg/dash/dash.go against the xs:duration grammar (section 3.2.6 of XML Schema
 Part 2), and the chapters of pkg/dash/handler.go as the manifest prints them.
 */
module Dash {
  import opened Options
  import opened Text
  import opened GoText

  // int(x), towards zero.
  function Truncated(x: real): int {
    if x >= 0.0 then x.Floor else -(-x).Floor
  }

  // int(d.Seconds()) of a duration of d nanoseconds.
  function WholeSeconds(d: int): int {
    Truncated(d as real / 1000000000.0)
  }

  // ---------- The printer ----------

  function Printed(total: int): string {
    if total < 60 then "PT" + Integer(total) + "S"
    else Fields(total / 3600, total / 60 % 60, total % 60)
  }

  // From a minute on, zero fields are left out, except for the minutes between hours and seconds.
  function Fields(hours: nat, minutes: nat, seconds: nat): string {
    "PT" + (HoursText(hours) + (MinutesText(hours, minutes, seconds) + SecondsText(seconds)))
  }

  function HoursText(hours: nat): string {
    if hours > 0 then Decimal(hours) + "H" else ""
  }

  function MinutesText(hours: nat, minutes: nat, seconds: nat): string {
    if hours == 0 || minutes > 0 || seconds > 0 then Decimal(minutes) + "M" else ""
  }

  function SecondsText(seconds: nat): string {
    if seconds > 0 then Decimal(seconds) + "S" else ""
  }

  lemma SixShapes(h: nat, m: nat, s: nat)
    ensures Fields(h, m, s)
         == if h == 0 then "PT" + Integer(m) + "M" + if s == 0 then "" else Integer(s) + "S"
            else if s == 0 && m == 0 then "PT" + Integer(h) + "H"
            else if s == 0 then "PT" + Integer(h) + "H" + Integer(m) + "M"
            else "PT" + Integer(h) + "H" + Integer(m) + "M" + Integer(s) + "S"
  {
    hide Decimal;
  }

  method FormatDuration(d: int) returns (s: string)
    ensures s == Printed(WholeSeconds(d))
  {
    hide Decimal, WholeSeconds, Fields;
    var seconds := WholeSeconds(d);
    if seconds < 60 {
      return "PT" + Integer(seconds) + "S";
    }
    SixShapes(seconds / 3600, seconds / 60 % 60, seconds % 60);
    hide Integer;
    assert seconds / 3600 == seconds / 60 / 60;
    var minutes := seconds / 60;
    seconds := seconds % 60;
    if minutes < 60 {
      if seconds == 0 {
        return "PT" + Integer(minutes) + "M";
      }
      return "PT" + Integer(minutes) + "M" + Integer(seconds) + "S";
    }
    var hours := minutes / 60;
    minutes := minutes % 60;
    if seconds == 0 && minutes == 0 {
      return "PT" + Integer(hours) + "H";
    }
    if seconds == 0 {
      return "PT" + Integer(hours) + "H" + Integer(minutes) + "M";
    }
    return "PT" + Integer(hours) + "H" + Integer(minutes) + "M" + Integer(seconds) + "S";
  }

  // ---------- The xs:duration grammar ----------

  // A duration in months and seconds.
  datatype Span = Span(months: int, seconds: real)

  // A number followed by its designator, if the text starts with one.
  function Field(s: string, designator: char): (Option<nat>, string) {
    var n := DigitRun(s);
    if 0 < n < |s| && s[n] == designator then (Some(Value(s[..n])), s[n + 1..]) else (None, s)
  }

  // The seconds may have a fraction.
  function SecondsField(s: string): (Option<real>, string) {
    var n := DigitRun(s);
    if n == 0 || n == |s| then (None, s)
    else if s[n] == 'S' then (Some(DecimalValue(s[..n], "")), s[n + 1..])
    else if s[n] != '.' then (None, s)
    else
      var frac := s[n + 1..];
      var f := DigitRun(frac);
      if 0 < f < |frac| && frac[f] == 'S' then (Some(DecimalValue(s[..n], frac[..f])), frac[f + 1..]) else (None, s)
  }

  function Or<T>(o: Option<T>, default: T): T {
    match o case Some(x) => x case None => default
  }

  // What may follow the T: hours, minutes and seconds, at least one of them.
  function TimePart(s: string): Option<real> {
    var (h, afterH) := Field(s, 'H');
    var (m, afterM) := Field(afterH, 'M');
    var (sec, rest) := SecondsField(afterM);
    if rest != "" || (h.None? && m.None? && sec.None?) then None
    else Some(Or(h, 0) as real * 3600.0 + Or(m, 0) as real * 60.0 + Or(sec, 0.0))
  }

  function Positive(s: string): Option<Span> {
    if s == "" || s[0] != 'P' then None
    else
      var (y, afterY) := Field(s[1..], 'Y');
      var (m, afterM) := Field(afterY, 'M');
      var (d, rest) := Field(afterM, 'D');
      var months, days := 12 * Or(y, 0) + Or(m, 0), Or(d, 0) as real * 86400.0;
      if rest == "" then if y.None? && m.None? && d.None? then None else Some(Span(months, days))
      else if rest[0] != 'T' then None
      else match TimePart(rest[1..]) case None => None case Some(t) => Some(Span(months, days + t))
  }

  function Parse(s: string): Option<Span> {
    if s != "" && s[0] == '-' then
      match Positive(s[1..]) case None => None case Some(p) => Some(Span(-p.months, -p.seconds))
    else Positive(s)
  }

  // ---------- Round trip ----------

  lemma FieldHit(n: nat, designator: char, rest: string)
    requires !IsDigit(designator)
    ensures Field(Decimal(n) + [designator] + rest, designator) == (Some(n), rest)
  {
    var d, s := Decimal(n), Decimal(n) + [designator] + rest;
    DigitRunOf(d, [designator] + rest);
    ValueOfDecimal(n);
    hide Decimal, Value, DigitRun;
    assert s == d + ([designator] + rest) && s[..|d|] == d && s[|d| + 1..] == rest;
  }

  lemma FieldMiss(n: nat, actual: char, rest: string, designator: char)
    requires !IsDigit(actual) && actual != designator
    ensures Field(Decimal(n) + [actual] + rest, designator) == (None, Decimal(n) + [actual] + rest)
  {
    var d, s := Decimal(n), Decimal(n) + [actual] + rest;
    DigitRunOf(d, [actual] + rest);
    hide Decimal, Value, DigitRun;
    assert s == d + ([actual] + rest);
  }

  lemma SecondsHit(n: nat)
    ensures SecondsField(Decimal(n) + "S") == (Some(n as real), "")
  {
    var d := Decimal(n);
    DigitRunOf(d, "S");
    ValueOfDecimal(n);
    assert Value("") == 0 && DecimalValue(d, "") == Value(d) as real;
    hide Decimal, Value, DigitRun, DecimalValue;
    assert (d + "S")[..|d|] == d && (d + "S")[|d| + 1..] == "";
  }

  lemma NoField(s: string, designator: char)
    requires s == "" || !IsDigit(s[0])
    ensures Field(s, designator) == (None, s) && SecondsField(s) == (None, s)
  {}

  lemma TimeCombines(t: string, afterH: string, afterM: string, h: nat, m: nat, s: nat)
    requires Field(t, 'H') == (if h > 0 then Some(h) else None, afterH)
    requires Or(Field(afterH, 'M').0, 0) == m && Field(afterH, 'M').1 == afterM
    requires SecondsField(afterM) == (if s > 0 then Some(s as real) else None, "")
    requires h > 0 || m > 0
    ensures TimePart(t) == Some((h * 3600 + m * 60 + s) as real)
  {
    hide Field, SecondsField;
    SumOfFields(h, m, s);
  }

  lemma SumOfFields(h: nat, m: nat, s: nat)
    ensures h as real * 3600.0 + m as real * 60.0 + s as real == (h * 3600 + m * 60 + s) as real
  {}

  lemma FieldsOf(total: nat)
    requires total >= 60
    ensures var h, m, s := total / 3600, total / 60 % 60, total % 60;
            h * 3600 + m * 60 + s == total && (h > 0 || m > 0)
  {
    assert total / 3600 == total / 60 / 60;
  }

  lemma TimeOfFields(h: nat, m: nat, s: nat)
    requires h > 0 || m > 0
    ensures TimePart(HoursText(h) + (MinutesText(h, m, s) + SecondsText(s))) == Some((h * 3600 + m * 60 + s) as real)
  {
    SecondsReads(s);
    MinutesReads(h, m, s);
    HoursReads(h, m, s);
    hide Field, SecondsField, HoursText, MinutesText, SecondsText, TimePart, Or;
    var rest := MinutesText(h, m, s) + SecondsText(s);
    TimeCombines(HoursText(h) + rest, rest, SecondsText(s), h, m, s);
  }

  lemma SecondsReads(s: nat)
    ensures SecondsField(SecondsText(s)) == (if s > 0 then Some(s as real) else None, "")
  {
    SecondsHit(s);
    NoField("", 'S');
    hide SecondsField, Decimal;
  }

  lemma MinutesReads(h: nat, m: nat, s: nat)
    requires h > 0 || m > 0
    ensures var (r, rest) := Field(MinutesText(h, m, s) + SecondsText(s), 'M');
            Or(r, 0) == m && (r.None? ==> h > 0 && s == 0) && rest == SecondsText(s)
  {
    FieldHit(m, 'M', SecondsText(s));
    NoField("", 'M');
    hide Field, Decimal;
    assert "M" == ['M'];
    assert s == 0 ==> "" + SecondsText(s) == "";
  }

  lemma HoursReads(h: nat, m: nat, s: nat)
    requires h > 0 || m > 0
    ensures var rest := MinutesText(h, m, s) + SecondsText(s);
            Field(HoursText(h) + rest, 'H') == (if h > 0 then Some(h) else None, rest)
  {
    var rest := MinutesText(h, m, s) + SecondsText(s);
    if h > 0 {
      FieldHit(h, 'H', rest);
      assert "H" == ['H'];
    } else {
      FieldMiss(m, 'M', SecondsText(s), 'H');
      hide Field, Decimal;
      assert "M" == ['M'];
      assert HoursText(h) + rest == rest;
    }
  }

  lemma TimeOfSeconds(n: nat)
    ensures TimePart(Decimal(n) + "S") == Some(n as real)
  {
    FieldMiss(n, 'S', "", 'H');
    FieldMiss(n, 'S', "", 'M');
    SecondsHit(n);
    hide Field, SecondsField, Decimal;
    assert Decimal(n) + ['S'] + "" == Decimal(n) + "S";
  }

  lemma TimeOfNegative(n: int)
    requires n < 0
    ensures TimePart(Integer(n) + "S").None?
  {
    var s := Integer(n) + "S";
    assert s[0] == '-';
    NoField(s, 'H');
    NoField(s, 'M');
    hide Field, SecondsField, Integer;
  }

  // No date part before the T.
  lemma PositiveTime(s: string, u: string)
    requires u != "" && u[0] == 'T' && s != "" && s[0] == 'P' && s[1..] == u
    ensures Positive(s) == match TimePart(u[1..]) case None => None case Some(x) => Some(Span(0, x))
  {
    NoField(u, 'Y');
    NoField(u, 'M');
    NoField(u, 'D');
    hide Field, TimePart;
  }

  lemma ParseTime(t: string)
    ensures Parse("PT" + t) == match TimePart(t) case None => None case Some(x) => Some(Span(0, x))
  {
    PositiveTime("PT" + t, "T" + t);
    hide Positive, TimePart;
    assert ("T" + t)[1..] == t;
  }

  lemma ShortRoundTrip(total: int)
    requires total < 60
    ensures Parse(Printed(total)) == if total >= 0 then Some(Span(0, total as real)) else None
  {
    ParseTime(Integer(total) + "S");
    assert "PT" + (Integer(total) + "S") == Printed(total);
    hide Parse, TimePart;
    if total < 0 {
      TimeOfNegative(total);
    } else {
      TimeOfSeconds(total);
    }
  }

  lemma LongRoundTrip(total: nat)
    requires total >= 60
    ensures Parse(Printed(total)) == Some(Span(0, total as real))
  {
    hide Parse, TimePart, HoursText, MinutesText, SecondsText, Integer;
    var h, m, s := total / 3600, total / 60 % 60, total % 60;
    FieldsOf(total);
    ParseTime(HoursText(h) + (MinutesText(h, m, s) + SecondsText(s)));
    TimeOfFields(h, m, s);
  }

  // Main result: what is printed is a duration of the grammar, and that of the whole seconds, exactly for the
  // durations that are not negative.
  lemma DurationRoundTrip(total: int)
    ensures Parse(Printed(total)) == if total >= 0 then Some(Span(0, total as real)) else None
  {
    hide Parse, Printed;
    if total < 60 {
      ShortRoundTrip(total);
    } else {
      LongRoundTrip(total);
    }
  }

  // A duration that is not negative is read back as its seconds, rounded down.
  lemma FormattedReads(d: nat)
    ensures Parse(Printed(WholeSeconds(d))) == Some(Span(0, (d / 1000000000) as real))
  {
    var n := d / 1000000000;
    assert n as real * 1000000000.0 == (n * 1000000000) as real;
    assert (d as real / 1000000000.0) * 1000000000.0 == d as real;
    assert (n + 1) as real * 1000000000.0 == ((n + 1) * 1000000000) as real;
    assert WholeSeconds(d) == n;
    DurationRoundTrip(n);
    hide Parse, Printed, WholeSeconds;
  }

  // The text of the printer tells all whole seconds apart.
  lemma PrinterInjective(a: int, b: int)
    requires Printed(a) == Printed(b)
    ensures a == b
  {
    DurationRoundTrip(a);
    DurationRoundTrip(b);
    hide Parse;
    if a < 0 && b < 0 {
      var s, t := Integer(a), Integer(b);
      hide Integer;
      assert s == Printed(a)[2..|Printed(a)| - 1] && t == Printed(b)[2..|Printed(b)| - 1];
      IntegerInjective(a, b);
    }
  }
}
