/**
 The subtitle pipeline: SubRip text is turned into WebVTT by the server (pkg/stream/stream.go)
 and parsed into cues by the player (web/ui/src/components/MediaPlayer.tsx).
 */
module Subtitles {
  import opened Text

  // ---------- srtToWebVTT ----------

  const SRT_ARROW := " --> "
  const HEADER := "WEBVTT\n\n"

  function FixLine(line: string): string {
    if Contains(line, SRT_ARROW) then ReplaceChar(line, ',', '.') else line
  }

  function FixLines(lines: seq<string>): (r: seq<string>)
    ensures |r| == |lines|
  {
    seq(|lines|, i requires 0 <= i < |lines| => FixLine(lines[i]))
  }

  function WebVtt(srt: string): string {
    HEADER + Unlines(FixLines(Split(srt, '\n')))
  }

  method SrtToWebVtt(srt: string) returns (b: string)
    ensures b == WebVtt(srt)
    ensures exists fixed: seq<string> | |fixed| == |Split(srt, '\n')| ::
              && b == "WEBVTT\n\n" + Unlines(fixed)
              && forall i | 0 <= i < |fixed| ::
                   var line := Split(srt, '\n')[i];
                   fixed[i] == if Contains(line, " --> ") then ReplaceChar(line, ',', '.') else line
  {
    hide Contains, ReplaceChar, Unlines;
    assert Unlines([]) == "" by {
      UnlinesEmpty();
    }
    b := HEADER;
    var lines := Split(srt, '\n');
    for i := 0 to |lines|
      invariant b == HEADER + Unlines(FixLines(lines[..i]))
    {
      var line := lines[i];
      if Contains(line, SRT_ARROW) {
        line := ReplaceChar(line, ',', '.');
      }
      assert FixLines(lines[..i + 1]) == FixLines(lines[..i]) + [line];
      UnlinesSnoc(FixLines(lines[..i]), line);
      b := b + line;
      b := b + "\n";
    }
    assert lines[..|lines|] == lines;
    ghost var fixed := FixLines(lines);
    assert b == "WEBVTT\n\n" + Unlines(fixed);
  }

  // ---------- JavaScript's trim, Number and parseFloat ----------

  predicate IsSpace(c: char) {
    || '\t' <= c <= '\r' || c == ' ' || c == '\U{A0}' || c == '\U{1680}' || '\U{2000}' <= c <= '\U{200A}'
    || c == '\U{2028}' || c == '\U{2029}' || c == '\U{202F}' || c == '\U{205F}' || c == '\U{3000}' || c == '\U{FEFF}'
  }

  function Trim(s: string): string {
    TrimBy(s, IsSpace)
  }

  predicate IsBlank(s: string) {
    Trim(s) == ""
  }

  // s.split(/\s/)[0]
  function FirstWord(s: string): string {
    if s == "" || IsSpace(s[0]) then "" else [s[0]] + FirstWord(s[1..])
  }

  function ParseFloat(s: string): Number {
    Signed(TrimLeft(s, IsSpace)).0
  }

  function ToNumber(s: string): Number {
    var t := Trim(s);
    if t == "" then Num(0.0)
    else if PrefixBase(t) > 0 then
      if |t| > 2 && DigitsBelow(t[2..], PrefixBase(t)) then Num(BaseValue(t[2..], PrefixBase(t)) as real) else NaN
    else
      var (n, len) := Signed(t);
      if len == |t| then n else NaN
  }

  // ---------- parseVTT ----------

  const ARROW := "-->"

  datatype Cue = Cue(start: real, end: real, text: string)

  function Seconds(h: Number, m: Number, s: Number): Number {
    if h.NaN? || m.NaN? || s.NaN? then NaN else Num(h.value * 3600.0 + m.value * 60.0 + s.value)
  }

  function ParseTime(t: string): Number {
    var p := Split(Trim(t), ':');
    if |p| == 3 then Seconds(ToNumber(p[0]), ToNumber(p[1]), ParseFloat(p[2]))
    else if |p| == 2 then Seconds(Num(0.0), ToNumber(p[0]), ParseFloat(p[1]))
    else NaN
  }

  // The cue a timing line announces, if it and its text are complete.
  function CueOf(line: string, body: seq<string>): seq<Cue>
    requires Contains(line, ARROW)
  {
    var arrow := IndexOf(line, ARROW);
    var start := ParseTime(Trim(line[..arrow]));
    var end := ParseTime(FirstWord(Trim(line[arrow + 3..])));
    if body != [] && start.Num? && end.Num? && end.value > start.value
    then [Cue(start.value, end.value, Join(body, '\n'))] else []
  }

  function Body(lines: seq<string>): (body: seq<string>)
    ensures |body| <= |lines|
  {
    if lines == [] || IsBlank(lines[0]) then [] else [lines[0]] + Body(lines[1..])
  }

  function CuesOf(lines: seq<string>): seq<Cue>
    decreases |lines|
  {
    if lines == [] then []
    else if !Contains(lines[0], ARROW) then CuesOf(lines[1..])
    else
      var body := Body(lines[1..]);
      CueOf(lines[0], body) + CuesOf(lines[1 + |body|..])
  }

  lemma CuesAt(lines: seq<string>, i: nat)
    requires i < |lines|
    ensures var body := Body(lines[i + 1..]);
            CuesOf(lines[i..]) == if Contains(lines[i], ARROW)
                                  then CueOf(lines[i], body) + CuesOf(lines[i + 1 + |body|..])
                                  else CuesOf(lines[i + 1..])
  {
    hide Contains, CueOf, Body;
    assert lines[i..][1..] == lines[i + 1..];
    var body := Body(lines[i + 1..]);
    assert lines[i..][1 + |body|..] == lines[i + 1 + |body|..];
  }

  lemma BodyAt(lines: seq<string>, i: nat)
    requires i < |lines| && !IsBlank(lines[i])
    ensures Body(lines[i..]) == [lines[i]] + Body(lines[i + 1..])
  {
    hide IsBlank;
    assert lines[i..][1..] == lines[i + 1..];
  }

  lemma BodyEnds(lines: seq<string>, i: nat)
    requires i <= |lines| && (i < |lines| ==> IsBlank(lines[i]))
    ensures Body(lines[i..]) == []
  {}

  lemma CueOfIs(line: string, body: seq<string>)
    requires Contains(line, ARROW)
    ensures var arrow := IndexOf(line, ARROW);
            var start, end := ParseTime(Trim(line[..arrow])), ParseTime(FirstWord(Trim(line[arrow + 3..])));
            CueOf(line, body) == if body != [] && start.Num? && end.Num? && end.value > start.value
                                 then [Cue(start.value, end.value, Join(body, '\n'))] else []
  {
    hide IndexOf, ParseTime, Trim, FirstWord, Join;
  }

  method ParseVtt(vtt: string) returns (cues: seq<Cue>)
    ensures cues == CuesOf(Split(vtt, '\n'))
  {
    hide IndexOf, ParseTime, Trim, FirstWord, Join, Split, IsBlank, CuesOf, CueOf, Body;
    cues := [];
    var lines := Split(vtt, '\n');
    NoCues(lines);
    var i := 0;
    while i < |lines|
      invariant i <= |lines|
      invariant CuesOf(lines) == cues + CuesOf(lines[i..])
    {
      CuesAt(lines, i);
      if Contains(lines[i], ARROW) {
        ghost var at := i;
        var arrow := IndexOf(lines[i], ARROW);
        var start := ParseTime(Trim(lines[i][..arrow]));
        var end := ParseTime(FirstWord(Trim(lines[i][arrow + 3..])));
        i := i + 1;
        var parts := [];
        while i < |lines| && !IsBlank(lines[i])
          invariant i <= |lines| && i == at + 1 + |parts|
          invariant Body(lines[at + 1..]) == parts + Body(lines[i..])
        {
          BodyAt(lines, i);
          Assoc(parts, [lines[i]], Body(lines[i + 1..]));
          parts := parts + [lines[i]];
          i := i + 1;
        }
        BodyEnds(lines, i);
        assert Body(lines[at + 1..]) == parts;
        CueOfIs(lines[at], parts);
        Assoc(cues, CueOf(lines[at], parts), CuesOf(lines[i..]));
        if parts != [] && start.Num? && end.Num? && end.value > start.value {
          cues := cues + [Cue(start.value, end.value, Join(parts, '\n'))];
        }
      } else {
        i := i + 1;
      }
    }
  }

  lemma NoCues(lines: seq<string>)
    ensures lines[0..] == lines && CuesOf(lines[|lines|..]) == []
  {}

  // ---------- The SubRip side ----------

  // A cue in milliseconds, as SubRip writes it.
  datatype SrtCue = SrtCue(startMs: nat, endMs: nat, lines: seq<string>)

  function Stamp(ms: nat, mark: char): string {
    Padded(ms / 3600000, 2) + [':'] + Padded(ms / 60000 % 60, 2) + [':'] + SecondsPart(ms, mark)
  }

  function SecondsPart(ms: nat, mark: char): string {
    Padded(ms / 1000 % 60, 2) + [mark] + Padded(ms % 1000, 3)
  }

  function TimeLine(c: SrtCue, mark: char): string {
    Stamp(c.startMs, mark) + SRT_ARROW + Stamp(c.endMs, mark)
  }

  // Number, times, text, blank line.
  function Blocks(cues: seq<SrtCue>, n: nat): seq<string> {
    if cues == [] then []
    else [Decimal(n), TimeLine(cues[0], ',')] + cues[0].lines + [""] + Blocks(cues[1..], n + 1)
  }

  function Srt(cues: seq<SrtCue>): string {
    Unlines(Blocks(cues, 1))
  }

  // What the player shows of them: cues with text and a positive duration, the lines as fixed.
  function ShownOne(c: SrtCue): seq<Cue> {
    if c.startMs < c.endMs && c.lines != []
    then [Cue(c.startMs as real / 1000.0, c.endMs as real / 1000.0, Join(FixLines(c.lines), '\n'))] else []
  }

  function Shown(cues: seq<SrtCue>): seq<Cue> {
    if cues == [] then [] else ShownOne(cues[0]) + Shown(cues[1..])
  }

  predicate IsText(line: string) {
    OneLine(line) && !IsBlank(line)
  }

  predicate AllText(cues: seq<SrtCue>) {
    forall c <- cues :: forall l <- c.lines :: IsText(l)
  }

  lemma AllTextTail(cues: seq<SrtCue>)
    requires AllText(cues) && cues != []
    ensures AllText(cues[1..]) && forall l <- cues[0].lines :: IsText(l)
  {
    hide IsText;
  }

  // --- what the fix does to each kind of line

  lemma ReplaceConcat(a: string, b: string)
    ensures ReplaceChar(a + b, ',', '.') == ReplaceChar(a, ',', '.') + ReplaceChar(b, ',', '.')
  {}

  lemma ReplaceNothing(a: string)
    requires ',' !in a
    ensures ReplaceChar(a, ',', '.') == a
  {}

  lemma DigitsAreSafe(s: string)
    requires AllDigits(s)
    ensures ',' !in s && ':' !in s && '-' !in s && '\n' !in s && ' ' !in s
    ensures forall c <- s :: !IsSpace(c)
  {}

  lemma StampReplaced(ms: nat)
    ensures ReplaceChar(Stamp(ms, ','), ',', '.') == Stamp(ms, '.')
  {
    var h, m := Padded(ms / 3600000, 2), Padded(ms / 60000 % 60, 2);
    var s, f := Padded(ms / 1000 % 60, 2), Padded(ms % 1000, 3);
    DigitsAreSafe(h);
    DigitsAreSafe(m);
    DigitsAreSafe(s);
    DigitsAreSafe(f);
    hide Padded, AllDigits, IsSpace;
    var before := h + ":" + m + ":" + s;
    assert Stamp(ms, ',') == before + "," + f && Stamp(ms, '.') == before + "." + f;
    CommaReplaced(before, f);
  }

  lemma CommaReplaced(before: string, after: string)
    requires ',' !in before && ',' !in after
    ensures ReplaceChar(before + "," + after, ',', '.') == before + "." + after
  {
    assert ReplaceChar(",", ',', '.') == ".";
    hide ReplaceChar;
    ReplaceNothing(before);
    ReplaceNothing(after);
    ReplaceConcat(before, ",");
    ReplaceConcat(before + ",", after);
  }

  lemma StampIsSafe(ms: nat, mark: char)
    requires mark == ',' || mark == '.'
    ensures '-' !in Stamp(ms, mark) && '\n' !in Stamp(ms, mark) && Stamp(ms, mark) != ""
    ensures forall c <- Stamp(ms, mark) :: !IsSpace(c)
  {
    DigitsAreSafe(Padded(ms / 3600000, 2));
    DigitsAreSafe(Padded(ms / 60000 % 60, 2));
    DigitsAreSafe(Padded(ms / 1000 % 60, 2));
    DigitsAreSafe(Padded(ms % 1000, 3));
    hide Padded;
  }

  lemma TimeLineFixed(c: SrtCue)
    ensures FixLine(TimeLine(c, ',')) == TimeLine(c, '.')
  {
    var a, b := Stamp(c.startMs, ','), Stamp(c.endMs, ',');
    StampIsSafe(c.startMs, ',');
    StampReplaced(c.startMs);
    StampReplaced(c.endMs);
    ReplaceNothing(SRT_ARROW);
    ReplaceConcat(a, SRT_ARROW);
    ReplaceConcat(a + SRT_ARROW, b);
    assert ' ' !in a by {
      assert IsSpace(' ');
    }
    IndexOfFirst(a, SRT_ARROW, b);
    hide Stamp, ReplaceChar;
  }

  lemma FixKeepsText(line: string)
    ensures IsBlank(FixLine(line)) == IsBlank(line)
  {
    assert forall i | 0 <= i < |line| :: IsSpace(FixLine(line)[i]) == IsSpace(line[i]);
    BlankMeansSpaces(line);
    BlankMeansSpaces(FixLine(line));
    hide FixLine, IsSpace;
    assert (forall c <- line :: IsSpace(c)) == (forall i | 0 <= i < |line| :: IsSpace(line[i]));
    assert (forall c <- FixLine(line) :: IsSpace(c)) == (forall i | 0 <= i < |line| :: IsSpace(FixLine(line)[i]));
  }

  lemma BlankMeansSpaces(s: string)
    ensures IsBlank(s) <==> forall c <- s :: IsSpace(c)
  {
    TrimmedAway(s, IsSpace);
  }

  // --- reading a time stamp back

  predicate NoSpace(s: string) {
    s != "" && forall c <- s :: !IsSpace(c)
  }

  lemma TrimSafe(s: string)
    requires NoSpace(s)
    ensures Trim(s) == s && Trim(s + " ") == s && Trim(" " + s) == s
  {
    TrimNothing(s, IsSpace);
    TrimOne(s, IsSpace, ' ');
  }

  lemma {:induction false} FirstWordSafe(s: string)
    requires forall c <- s :: !IsSpace(c)
    ensures FirstWord(s) == s
  {
    if s != "" {
      hide IsSpace;
      FirstWordSafe(s[1..]);
      assert s == [s[0]] + s[1..];
    }
  }

  lemma NoPrefix(d: string)
    requires AllDigits(d)
    ensures PrefixBase(d) == 0
  {
    assert |d| > 1 ==> d[1] in d;
  }

  lemma SignlessDigits(d: string)
    requires AllDigits(d) && d != ""
    ensures Signed(d) == Literal(d)
  {
    assert d[0] in d;
    hide Literal;
  }

  lemma NumberOfDigits(d: string)
    requires AllDigits(d) && d != ""
    ensures ToNumber(d) == Num(Value(d) as real)
  {
    assert DecimalValue(d, "") == Value(d) as real;
    NoPrefix(d);
    SignlessDigits(d);
    LiteralOfDigits(d);
    DigitsAreSafe(d);
    hide Value, Trim, DecimalValue, Literal, Signed, IsSpace, PrefixBase, AllDigits, DigitsBelow, BaseValue;
    TrimSafe(d);
  }

  lemma FloatOfDecimal(d: string, f: string)
    requires AllDigits(d) && d != "" && AllDigits(f)
    ensures ParseFloat(d + "." + f) == Num(DecimalValue(d, f))
  {
    hide DecimalValue, Literal;
    var t := d + "." + f;
    assert d[0] in d && t[0] == d[0];
    assert TrimLeft(t, IsSpace) == t;
    LiteralOf(d, f);
  }

  lemma StampArithmetic(ms: nat)
    ensures (ms / 3600000) as real * 3600.0 + (ms / 60000 % 60) as real * 60.0
            + ((ms / 1000 % 60) as real + (ms % 1000) as real / 1000.0) == ms as real / 1000.0
  {
    var q := ms / 1000;
    var m := q / 60;
    assert ms / 60000 == m && ms / 3600000 == m / 60;
    assert ms == ((m / 60 * 60 + m % 60) * 60 + q % 60) * 1000 + ms % 1000;
  }

  lemma StampSplits(ms: nat)
    ensures Split(Stamp(ms, '.'), ':')
         == [Padded(ms / 3600000, 2), Padded(ms / 60000 % 60, 2), SecondsPart(ms, '.')]
  {
    hide Padded, Split;
    var h, m, tail := Padded(ms / 3600000, 2), Padded(ms / 60000 % 60, 2), SecondsPart(ms, '.');
    DigitsAreSafe(h);
    DigitsAreSafe(m);
    DigitsAreSafe(Padded(ms / 1000 % 60, 2));
    DigitsAreSafe(Padded(ms % 1000, 3));
    SplitOne(tail, ':');
    SplitFirst(m, ':', tail);
    SplitFirst(h, ':', m + [':'] + tail);
    assert Stamp(ms, '.') == h + [':'] + (m + [':'] + tail);
  }

  lemma SecondsParse(ms: nat)
    ensures ParseFloat(SecondsPart(ms, '.')) == Num((ms / 1000 % 60) as real + (ms % 1000) as real / 1000.0)
  {
    hide Padded, Value, Power, ParseFloat;
    var s, f := Padded(ms / 1000 % 60, 2), Padded(ms % 1000, 3);
    FloatOfDecimal(s, f);
    ValueOfPadded(ms / 1000 % 60, 2);
    ValueOfPadded(ms % 1000, 3);
    PaddedLength(ms % 1000);
    assert SecondsPart(ms, '.') == s + "." + f;
  }

  lemma StampParses(ms: nat)
    ensures ParseTime(Stamp(ms, '.')) == Num(ms as real / 1000.0)
  {
    hide Padded, Value, ToNumber, ParseFloat, Split, Trim, Stamp, SecondsPart;
    StampIsSafe(ms, '.');
    TrimSafe(Stamp(ms, '.'));
    StampSplits(ms);
    NumberOfDigits(Padded(ms / 3600000, 2));
    NumberOfDigits(Padded(ms / 60000 % 60, 2));
    ValueOfPadded(ms / 3600000, 2);
    ValueOfPadded(ms / 60000 % 60, 2);
    SecondsParse(ms);
    StampArithmetic(ms);
  }

  lemma TimeLineParses(c: SrtCue, body: seq<string>)
    ensures Contains(TimeLine(c, '.'), ARROW)
    ensures CueOf(TimeLine(c, '.'), body)
         == if body != [] && c.startMs < c.endMs
            then [Cue(c.startMs as real / 1000.0, c.endMs as real / 1000.0, Join(body, '\n'))] else []
  {
    hide Stamp, IndexOf, Trim, FirstWord, ParseTime, Join, IsSpace;
    var a, b := Stamp(c.startMs, '.'), Stamp(c.endMs, '.');
    StampIsSafe(c.startMs, '.');
    StampIsSafe(c.endMs, '.');
    TrimSafe(a);
    TrimSafe(b);
    FirstWordSafe(b);
    StampParses(c.startMs);
    StampParses(c.endMs);
    var line := TimeLine(c, '.');
    IndexOfFirst(a + " ", ARROW, " " + b);
    assert line == a + " " + ARROW + (" " + b);
    assert line[..|a| + 1] == a + " " && line[|a| + 4..] == " " + b;
  }

  // --- other timing lines

  // A stamp without hours.
  function ShortStamp(minutes: nat, ms: nat): string {
    Decimal(minutes) + [':'] + SecondsPart(ms, '.')
  }

  lemma ShortStampSplits(minutes: nat, ms: nat)
    ensures Split(Trim(ShortStamp(minutes, ms)), ':') == [Decimal(minutes), SecondsPart(ms, '.')]
  {
    var m, tail := Decimal(minutes), SecondsPart(ms, '.');
    DigitsAreSafe(m);
    DigitsAreSafe(Padded(ms / 1000 % 60, 2));
    DigitsAreSafe(Padded(ms % 1000, 3));
    ColonIsNoSpace();
    hide Decimal, Padded, Split, Trim, IsSpace;
    TrimSafe(ShortStamp(minutes, ms));
    SplitOne(tail, ':');
    SplitFirst(m, ':', tail);
  }

  lemma ShortStampParses(minutes: nat, ms: nat)
    requires ms < 60000
    ensures ParseTime(ShortStamp(minutes, ms)) == Num(minutes as real * 60.0 + ms as real / 1000.0)
  {
    hide Decimal, Padded, Value, ToNumber, ParseFloat, Split, Trim, SecondsPart, ShortStamp;
    ShortStampSplits(minutes, ms);
    NumberOfDigits(Decimal(minutes));
    ValueOfDecimal(minutes);
    SecondsParse(ms);
    StampArithmetic(ms);
  }

  lemma ColonIsNoSpace()
    ensures !IsSpace(':') && !IsSpace('.')
  {}

  lemma {:induction false} FirstWordEnds(word: string, rest: string)
    requires (forall c <- word :: !IsSpace(c)) && (rest != "" ==> IsSpace(rest[0]))
    ensures FirstWord(word + rest) == word
  {
    if word == "" {
      assert word + rest == rest;
    } else {
      hide IsSpace;
      FirstWordEnds(word[1..], rest);
      assert (word + rest)[1..] == word[1..] + rest && [word[0]] + word[1..] == word;
    }
  }

  // The first word behind a space, whatever follows the space behind it.
  lemma WordBetweenSpaces(word: string, rest: string)
    requires NoSpace(word)
    ensures FirstWord(Trim(" " + word + " " + rest)) == word
  {
    var s := " " + word + " " + rest;
    TrimRightKeeps(s, IsSpace);
    var t := TrimRight(s, IsSpace);
    assert !IsSpace(s[|word|]) && IsSpace(' ');
    hide IsSpace;
    assert |word| < |t|;
    assert t == " " + (word + t[1 + |word|..]);
    var more := t[1 + |word|..];
    assert (word + more)[0] == word[0] && !IsSpace(word[0]);
    assert TrimLeft(t, IsSpace) == TrimLeft(word + more, IsSpace) == word + more;
    assert more != "" ==> more[0] == s[1 + |word|] == ' ';
    FirstWordEnds(word, more);
  }

  // Whatever settings follow the end of a cue, its times and text are the same.
  lemma SettingsAreIgnored(c: SrtCue, settings: string, body: seq<string>)
    ensures Contains(TimeLine(c, '.') + " " + settings, ARROW)
    ensures CueOf(TimeLine(c, '.') + " " + settings, body)
         == if body != [] && c.startMs < c.endMs
            then [Cue(c.startMs as real / 1000.0, c.endMs as real / 1000.0, Join(body, '\n'))] else []
  {
    hide Stamp, IndexOf, Trim, FirstWord, ParseTime, Join, IsSpace;
    var a, b := Stamp(c.startMs, '.'), Stamp(c.endMs, '.');
    StampIsSafe(c.startMs, '.');
    StampIsSafe(c.endMs, '.');
    TrimSafe(a);
    WordBetweenSpaces(b, settings);
    StampParses(c.startMs);
    StampParses(c.endMs);
    var line, tail := TimeLine(c, '.') + " " + settings, " " + b + " " + settings;
    assert line == a + " " + ARROW + tail;
    IndexOfFirst(a + " ", ARROW, tail);
    assert line[..|a| + 1] == a + " " && line[|a| + 4..] == tail;
  }

  lemma TrimLacks(s: string, c: char)
    requires c !in s
    ensures c !in Trim(s)
  {
    TrimRightKeeps(s, IsSpace);
    TrimLeftLacks(TrimRight(s, IsSpace), c);
  }

  lemma {:induction false} TrimLeftLacks(s: string, c: char)
    requires c !in s
    ensures c !in TrimLeft(s, IsSpace)
  {
    if s != "" && IsSpace(s[0]) {
      TrimLeftLacks(s[1..], c);
    }
  }

  // A line with an arrow but no colon in front of it announces nothing.
  lemma NoStampNoCue(line: string, body: seq<string>)
    requires Contains(line, ARROW) && ':' !in line[..IndexOf(line, ARROW)]
    ensures CueOf(line, body) == []
  {
    var before := line[..IndexOf(line, ARROW)];
    TrimLacks(before, ':');
    TrimLacks(Trim(before), ':');
    SplitOne(Trim(Trim(before)), ':');
    hide Trim, Split, IndexOf, FirstWord, ToNumber, ParseFloat;
  }

  // --- whole files

  lemma FixLinesConcat(a: seq<string>, b: seq<string>)
    ensures FixLines(a + b) == FixLines(a) + FixLines(b)
  {}

  lemma PlainLineFixed(line: string)
    requires ' ' !in line && '-' !in line
    ensures FixLine(line) == line && !Contains(line, ARROW)
  {
    NotContained(line, SRT_ARROW);
    NotContained(line, ARROW);
  }

  lemma {:induction false} BodyOfText(text: seq<string>, rest: seq<string>)
    requires forall l <- text :: !IsBlank(l)
    ensures Body(text + [""] + rest) == text
  {
    var all := text + [""] + rest;
    if text == [] {
      assert all[0] == "";
    } else {
      BodyOfText(text[1..], rest);
      hide IsBlank;
      assert all[1..] == text[1..] + [""] + rest && all[0] == text[0];
    }
  }

  lemma FixedTextIsText(lines: seq<string>)
    requires forall l <- lines :: IsText(l)
    ensures forall l <- FixLines(lines) :: !IsBlank(l)
  {
    hide FixLine, IsBlank;
    forall i | 0 <= i < |lines|
      ensures !IsBlank(FixLine(lines[i]))
    {
      FixKeepsText(lines[i]);
      assert IsText(lines[i]);
    }
  }

  // The lines of one block, after the fix.
  function FixedBlock(c: SrtCue, n: nat): seq<string> {
    [Decimal(n), TimeLine(c, '.')] + FixLines(c.lines) + [""]
  }

  lemma SkipLine(line: string, rest: seq<string>)
    requires !Contains(line, ARROW)
    ensures CuesOf([line] + rest) == CuesOf(rest)
  {
    hide Contains;
    assert ([line] + rest)[1..] == rest;
  }

  lemma TimedText(line: string, text: seq<string>, rest: seq<string>)
    requires Contains(line, ARROW) && forall l <- text :: !IsBlank(l)
    ensures CuesOf([line] + (text + [""] + rest)) == CueOf(line, text) + CuesOf([""] + rest)
  {
    hide Contains, CueOf, IsBlank, Body;
    var all := [line] + (text + [""] + rest);
    BodyOfText(text, rest);
    assert all[1..] == text + [""] + rest && all[1 + |text|..] == [""] + rest;
  }

  lemma BlockParses(c: SrtCue, n: nat, rest: seq<string>)
    requires forall l <- c.lines :: IsText(l)
    ensures CuesOf(FixedBlock(c, n) + rest) == ShownOne(c) + CuesOf(rest)
  {
    hide Contains, CueOf, IsBlank, FixLine, FixLines, Decimal, TimeLine, CuesOf, IsText;
    var line, text := TimeLine(c, '.'), FixLines(c.lines);
    FixedTextIsText(c.lines);
    DigitsAreSafe(Decimal(n));
    PlainLineFixed(Decimal(n));
    PlainLineFixed("");
    TimeLineParses(c, text);
    SkipLine(Decimal(n), [line] + (text + [""] + rest));
    TimedText(line, text, rest);
    SkipLine("", rest);
    assert FixedBlock(c, n) + rest == [Decimal(n)] + ([line] + (text + [""] + rest));
  }

  lemma BlockFixed(c: SrtCue, n: nat, more: seq<string>)
    ensures FixLines([Decimal(n), TimeLine(c, ',')] + c.lines + [""] + more) == FixedBlock(c, n) + FixLines(more)
  {
    hide Decimal, TimeLine, FixLine;
    DigitsAreSafe(Decimal(n));
    PlainLineFixed(Decimal(n));
    PlainLineFixed("");
    TimeLineFixed(c);
  }

  lemma {:induction false} BlocksParse(cues: seq<SrtCue>, n: nat, tail: seq<string>)
    requires AllText(cues)
    ensures CuesOf(FixLines(Blocks(cues, n)) + tail) == Shown(cues) + CuesOf(tail)
  {
    if cues == [] {
      assert FixLines([]) + tail == tail;
    } else {
      hide CuesOf, FixLines, FixedBlock, ShownOne, IsText, AllText, Decimal, TimeLine;
      var c := cues[0];
      var more := Blocks(cues[1..], n + 1);
      AllTextTail(cues);
      BlocksParse(cues[1..], n + 1, tail);
      BlockParses(c, n, FixLines(more) + tail);
      BlockFixed(c, n, more);
      Assoc(FixedBlock(c, n), FixLines(more), tail);
      Assoc(ShownOne(c), Shown(cues[1..]), CuesOf(tail));
    }
  }

  lemma HeadIsLines(c: SrtCue, n: nat)
    ensures OneLine(Decimal(n)) && OneLine(TimeLine(c, ',')) && OneLine("")
  {
    DigitsAreSafe(Decimal(n));
    StampIsSafe(c.startMs, ',');
    StampIsSafe(c.endMs, ',');
    hide Decimal, Stamp;
  }

  lemma {:induction false} BlocksAreLines(cues: seq<SrtCue>, n: nat)
    requires AllText(cues)
    ensures AllLines(Blocks(cues, n))
  {
    if cues != [] {
      AllTextTail(cues);
      assert AllLines(cues[0].lines);
      hide AllText, OneLine, IsText, Decimal, TimeLine;
      HeadIsLines(cues[0], n);
      assert AllLines([Decimal(n), TimeLine(cues[0], ',')]) && AllLines([""]);
      hide AllLines;
      BlocksAreLines(cues[1..], n + 1);
      AllLinesConcat([Decimal(n), TimeLine(cues[0], ',')], cues[0].lines);
      AllLinesConcat([Decimal(n), TimeLine(cues[0], ',')] + cues[0].lines, [""]);
      AllLinesConcat([Decimal(n), TimeLine(cues[0], ',')] + cues[0].lines + [""], Blocks(cues[1..], n + 1));
    } else {
      assert AllLines([]);
    }
  }

  // Main result: whatever the subtitles, what the player shows of the converted file is every cue
  // that has text and a positive duration, in order, its lines as the converter fixed them.
  lemma SubtitlesSurvive(cues: seq<SrtCue>)
    requires AllText(cues)
    ensures CuesOf(Split(WebVtt(Srt(cues)), '\n')) == Shown(cues)
  {
    hide FixLine, FixLines, Split, Unlines, CuesOf, Shown;
    var blocks := Blocks(cues, 1);
    BlocksAreLines(cues, 1);
    FileLines(blocks);
    var fixed := FixLines(blocks) + ["", ""];
    BlocksParse(cues, 1, ["", ""]);
    HeaderIsSkipped(fixed);
  }

  // The lines of a converted file.
  lemma FileLines(lines: seq<string>)
    requires AllLines(lines)
    ensures Split(WebVtt(Unlines(lines)), '\n') == ["WEBVTT", ""] + (FixLines(lines) + ["", ""])
  {
    hide FixLine, Split, Unlines, OneLine;
    var text := Unlines(lines);
    SplitUnlines(lines, "");
    SplitEmpty();
    assert text + "" == text;
    var fixed := FixLines(lines + [""]);
    FixLinesConcat(lines, [""]);
    PlainLineFixed("");
    assert FixLines([""]) == [""];
    HeadIsLines(SrtCue(0, 0, []), 0);
    AllLinesConcat(lines, [""]);
    FixedAreLines(lines + [""]);
    HeaderLines(fixed);
    assert OneLine("WEBVTT") by {
      HeaderIsLine();
    }
    AllLinesConcat(["WEBVTT", ""], fixed);
    SplitUnlines(["WEBVTT", ""] + fixed, "");
    assert WebVtt(text) + "" == WebVtt(text);
    assert ["WEBVTT", ""] + fixed + [""] == ["WEBVTT", ""] + (FixLines(lines) + ["", ""]);
  }

  lemma HeaderIsLine()
    ensures OneLine("WEBVTT")
  {}

  lemma HeaderLines(rest: seq<string>)
    ensures Unlines(["WEBVTT", ""] + rest) == HEADER + Unlines(rest)
  {
    UnlinesAppend(["WEBVTT", ""], rest);
    assert ["WEBVTT", ""][1..] == [""] && [""][1..] == [];
  }

  lemma FixedAreLines(lines: seq<string>)
    requires AllLines(lines)
    ensures AllLines(FixLines(lines))
  {
    forall i | 0 <= i < |lines|
      ensures OneLine(FixLine(lines[i]))
    {
      assert OneLine(lines[i]);
    }
    hide FixLine;
  }

  lemma HeaderIsSkipped(rest: seq<string>)
    ensures CuesOf(["WEBVTT", ""] + rest) == CuesOf(rest)
    ensures CuesOf(["", ""]) == []
  {
    PlainLineFixed("WEBVTT");
    PlainLineFixed("");
    var all := ["WEBVTT", ""] + rest;
    assert all[1..] == [""] + rest && ([""] + rest)[1..] == rest;
    assert ["", ""][1..] == [""] && [""][1..] == [];
  }

  // ---------- Exactly when nothing changes ----------

  // The cues as their author wrote them.
  function Written(c: SrtCue): Cue {
    Cue(c.startMs as real / 1000.0, c.endMs as real / 1000.0, Join(c.lines, '\n'))
  }

  function AsWritten(cues: seq<SrtCue>): seq<Cue> {
    if cues == [] then [] else [Written(cues[0])] + AsWritten(cues[1..])
  }

  predicate Untouched(line: string) {
    !Contains(line, SRT_ARROW) || ',' !in line
  }

  lemma UntouchedIffFixed(line: string)
    ensures FixLine(line) == line <==> Untouched(line)
  {
    if Contains(line, SRT_ARROW) && ',' in line {
      var i :| 0 <= i < |line| && line[i] == ',';
      assert FixLine(line)[i] == '.';
    } else if Contains(line, SRT_ARROW) {
      ReplaceNothing(line);
    }
  }

  predicate CueUntouched(c: SrtCue) {
    forall l <- c.lines :: Untouched(l)
  }

  predicate Showable(c: SrtCue) {
    c.startMs < c.endMs && c.lines != [] && forall l <- c.lines :: IsText(l)
  }

  lemma {:induction false} ShownAsWritten(cues: seq<SrtCue>)
    requires forall c <- cues :: Showable(c)
    ensures Shown(cues) == AsWritten(cues) <==> forall c <- cues :: CueUntouched(c)
  {
    if cues != [] {
      var c, rest := cues[0], cues[1..];
      assert Showable(c);
      CueUntouchedIff(c);
      hide Showable, CueUntouched;
      ShownAsWritten(rest);
      ConsEqual(ShownOne(c)[0], Written(c), Shown(rest), AsWritten(rest));
      assert cues == [c] + rest;
    }
  }

  lemma ConsEqual<T>(x: T, y: T, a: seq<T>, b: seq<T>)
    ensures [x] + a == [y] + b <==> x == y && a == b
  {
    if [x] + a == [y] + b {
      assert ([x] + a)[0] == x && ([y] + b)[0] == y;
      assert ([x] + a)[1..] == a && ([y] + b)[1..] == b;
    }
  }

  lemma CueUntouchedIff(c: SrtCue)
    requires Showable(c)
    ensures ShownOne(c) != [] && (ShownOne(c)[0] == Written(c) <==> CueUntouched(c))
  {
    TextUntouchedIff(c.lines);
    hide Join, FixLines, IsText, Untouched;
  }

  // Main result: cues with text and a positive duration come back exactly as written if and only
  // if no text line has both the SubRip arrow and a comma.
  lemma RoundTripIff(cues: seq<SrtCue>)
    requires forall c <- cues :: Showable(c)
    ensures CuesOf(Split(WebVtt(Srt(cues)), '\n')) == AsWritten(cues) <==> forall c <- cues :: CueUntouched(c)
  {
    SubtitlesSurvive(cues);
    ShownAsWritten(cues);
  }

  lemma TextUntouchedIff(lines: seq<string>)
    requires lines != [] && forall l <- lines :: IsText(l)
    ensures Join(FixLines(lines), '\n') == Join(lines, '\n') <==> forall l <- lines :: Untouched(l)
  {
    var fixed := FixLines(lines);
    forall i | 0 <= i < |lines|
      ensures fixed[i] == lines[i] <==> Untouched(lines[i])
      ensures '\n' !in fixed[i] && '\n' !in lines[i]
    {
      assert IsText(lines[i]);
      UntouchedIffFixed(lines[i]);
    }
    SplitJoin(fixed, '\n');
    SplitJoin(lines, '\n');
    hide FixLine, Untouched, Join, Split;
    assert fixed == lines <==> forall i | 0 <= i < |lines| :: fixed[i] == lines[i];
  }
}
