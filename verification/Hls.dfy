/**
 The HLS variant playlist: printed by pkg/hls/hls.go, its segment lines given a suffix by
 pkg/stream/stream.go, and read back by the parsers of pkg/hls/hls.go.
 */
module Hls {
  import opened Options
  import opened Text
  import opened GoText

  // A segment, with its duration in the milliseconds that %.3f prints.
  datatype Segment = Segment(path: string, ms: nat)

  // ---------- Printing ----------

  function Seconds3(ms: nat): string {
    Decimal(ms / 1000) + "." + Padded(ms % 1000, 3)
  }

  const TARGET := "#EXT-X-TARGETDURATION:"
  const EXTINF := "#EXTINF:"

  function HeaderLines(target: int): seq<string> {
    ["#EXTM3U", "#EXT-X-VERSION:4", TARGET + Integer(target), "#EXT-X-MEDIA-SEQUENCE:0", "#EXT-X-PLAYLIST-TYPE:VOD",
     "#EXT-X-INDEPENDENT-SEGMENTS"]
  }

  function SegmentLines(segments: seq<Segment>): seq<string> {
    if segments == [] then []
    else [EXTINF + Seconds3(segments[0].ms) + ",", segments[0].path] + SegmentLines(segments[1..])
  }

  const END := "#EXT-X-ENDLIST"

  function PlaylistLines(segments: seq<Segment>, target: int): seq<string> {
    HeaderLines(target) + (SegmentLines(segments) + [END])
  }

  // One WriteString of a line and its newline, from the lines `written` to the lines `now`.
  method WriteLine(b: string, line: string, ghost written: seq<string>, ghost now: seq<string>) returns (r: string)
    requires b == Unlines(written) && now == written + [line]
    ensures r == Unlines(now)
  {
    UnlinesSnoc(written, line);
    hide Unlines;
    r := b + line + "\n";
  }

  method VariantPlaylist(segments: seq<Segment>, target: int) returns (b: string)
    ensures b == Unlines(PlaylistLines(segments, target))
  {
    hide Unlines, Seconds3, Integer;
    UnlinesEmpty();
    ghost var l := HeaderLines(target);
    b := WriteLine("", "#EXTM3U", [], l[..1]);
    b := WriteLine(b, "#EXT-X-VERSION:4", l[..1], l[..2]);
    b := WriteLine(b, TARGET + Integer(target), l[..2], l[..3]);
    b := WriteLine(b, "#EXT-X-MEDIA-SEQUENCE:0", l[..3], l[..4]);
    b := WriteLine(b, "#EXT-X-PLAYLIST-TYPE:VOD", l[..4], l[..5]);
    b := WriteLine(b, "#EXT-X-INDEPENDENT-SEGMENTS", l[..5], l);
    hide HeaderLines;
    ghost var written := HeaderLines(target);
    assert segments[0..] == segments;
    for i := 0 to |segments|
      invariant b == Unlines(written)
      invariant written + SegmentLines(segments[i..]) == HeaderLines(target) + SegmentLines(segments)
    {
      var seg := segments[i];
      SegmentAt(segments, i, written);
      ghost var halfway := written + [EXTINF + Seconds3(seg.ms) + ","];
      b := WriteLine(b, EXTINF + Seconds3(seg.ms) + ",", written, halfway);
      written := halfway + [seg.path];
      b := WriteLine(b, seg.path, halfway, written);
    }
    assert segments[|segments|..] == [];
    Assoc(HeaderLines(target), SegmentLines(segments), [END]);
    b := WriteLine(b, END, written, PlaylistLines(segments, target));
  }

  lemma SegmentAt(segments: seq<Segment>, i: nat, written: seq<string>)
    requires i < |segments|
    ensures var line, path := EXTINF + Seconds3(segments[i].ms) + ",", segments[i].path;
            written + SegmentLines(segments[i..]) == written + [line] + [path] + SegmentLines(segments[i + 1..])
  {
    hide Seconds3;
    assert segments[i..][1..] == segments[i + 1..];
  }

  // ---------- The suffix of the segment lines ----------

  // The token and the audio index, as a query string.
  function UrlSuffix(token: string, audioIndex: nat): string {
    if token != "" then "?token=" + token + if audioIndex > 0 then "&audio=" + Decimal(audioIndex) else ""
    else if audioIndex > 0 then "?audio=" + Decimal(audioIndex)
    else ""
  }

  const TS := ".ts"

  function TagLine(line: string, suffix: string): string {
    if HasSuffix(line, TS) then line + suffix else line
  }

  function TagLines(lines: seq<string>, suffix: string): (r: seq<string>)
    ensures |r| == |lines|
  {
    seq(|lines|, i requires 0 <= i < |lines| => TagLine(lines[i], suffix))
  }

  function Tagged(playlist: string, suffix: string): string {
    if suffix == "" then playlist else Join(TagLines(Split(playlist, '\n'), suffix), '\n')
  }

  method RewritePlaylist(playlist: string, suffix: string) returns (r: string)
    ensures r == Tagged(playlist, suffix)
  {
    r := playlist;
    if suffix != "" {
      hide Split, HasSuffix, Join;
      ghost var was := Split(playlist, '\n');
      var lines := Split(playlist, '\n');
      for i := 0 to |lines|
        invariant |lines| == |was|
        invariant forall k | 0 <= k < i :: lines[k] == TagLine(was[k], suffix)
        invariant forall k | i <= k < |was| :: lines[k] == was[k]
      {
        var line := lines[i];
        if HasSuffix(line, TS) {
          lines := lines[i := line + suffix];
        }
      }
      assert lines == TagLines(was, suffix);
      r := Join(lines, '\n');
    }
  }

  // ---------- Reading ----------

  function AfterPrefix(s: string, prefix: string): string
    requires HasPrefix(s, prefix)
  {
    s[|prefix|..]
  }

  function TargetIn(line: string): Option<int> {
    if HasPrefix(line, TARGET) then Atoi(TrimSpace(AfterPrefix(line, TARGET))) else None
  }

  function TargetOf(lines: seq<string>): int {
    if lines == [] then 4
    else match TargetIn(lines[0]) case Some(d) => d case None => TargetOf(lines[1..])
  }

  method ParseTargetDuration(content: string) returns (d: int)
    ensures d == TargetOf(Split(content, '\n'))
  {
    hide Split, TargetIn;
    var lines := Split(content, '\n');
    for i := 0 to |lines|
      invariant TargetOf(lines[i..]) == TargetOf(lines)
    {
      assert lines[i..][1..] == lines[i + 1..];
      var target := TargetIn(lines[i]);
      if target.Some? {
        return target.value;
      }
    }
    return 4;
  }

  // The target is that of the first line with a readable one, and four seconds if there is none.
  lemma {:induction false} TargetIsFirst(lines: seq<string>)
    ensures (forall l <- lines :: TargetIn(l).None?) ==> TargetOf(lines) == 4
    ensures forall i | 0 <= i < |lines| && TargetIn(lines[i]).Some? ::
              (forall j | 0 <= j < i :: TargetIn(lines[j]).None?) ==> TargetOf(lines) == TargetIn(lines[i]).value
  {
    hide TargetIn;
    if lines != [] {
      TargetIsFirst(lines[1..]);
      assert forall i | 0 < i < |lines| :: lines[i] == lines[1..][i - 1];
      assert forall l <- lines[1..] :: l in lines;
    }
  }

  // The duration of a segment line; nothing of any other.
  function DurationIn(line: string): Float {
    if !HasPrefix(line, EXTINF) then Finite(0.0)
    else
      var val := AfterPrefix(line, EXTINF);
      var trimmed := if HasSuffix(val, ",") then val[..|val| - 1] else val;
      match ParseFloat(TrimSpace(trimmed)) case Some(d) => d case None => Finite(0.0)
  }

  function Total(lines: seq<string>): Float {
    if lines == [] then Finite(0.0) else Plus(DurationIn(lines[0]), Total(lines[1..]))
  }

  method GetPlaylistDuration(content: string) returns (total: Float)
    ensures total == Total(Split(content, '\n'))
  {
    hide Split, DurationIn, Plus;
    total := Finite(0.0);
    var lines := Split(content, '\n');
    PlusZero(Total(lines));
    for i := 0 to |lines|
      invariant Plus(total, Total(lines[i..])) == Total(lines)
    {
      assert lines[i..][1..] == lines[i + 1..];
      PlusAssoc(total, DurationIn(lines[i]), Total(lines[i + 1..]));
      total := Plus(total, DurationIn(lines[i]));
    }
    PlusZero(total);
  }

  lemma PlusZero(a: Float)
    ensures Plus(Finite(0.0), a) == a == Plus(a, Finite(0.0))
  {}

  // A line ends at a line feed, or at a carriage return and a line feed.
  function WithoutReturn(line: string): string {
    if HasSuffix(line, "\r") then line[..|line| - 1] else line
  }

  // The URI lines of a playlist: neither blank nor starting with '#' (section 4.1 of RFC 8216).
  function Uris(lines: seq<string>): seq<string> {
    if lines == [] then [] else UriIn(lines[0]) + Uris(lines[1..])
  }

  function UriIn(line: string): seq<string> {
    var l := WithoutReturn(line);
    if l == "" || l[0] == '#' then [] else [l]
  }

  // ---------- What survives ----------

  // A line whose last character is not that of ".ts" keeps its form.
  lemma Untagged(line: string, suffix: string)
    requires line != "" && line[|line| - 1] != 's'
    ensures TagLine(line, suffix) == line
  {}

  lemma HeaderUntagged(target: int, suffix: string)
    ensures TagLines(HeaderLines(target), suffix) == HeaderLines(target)
  {
    var l := HeaderLines(target);
    IntegerParts(target);
    hide Integer, TagLine;
    assert l[2][|l[2]| - 1] == Integer(target)[|Integer(target)| - 1];
    for i := 0 to 6
      invariant forall k | 0 <= k < i :: TagLine(l[k], suffix) == l[k]
    {
      Untagged(l[i], suffix);
    }
  }

  lemma TargetReads(target: int)
    requires IsInt64(target)
    ensures TargetIn(TARGET + Integer(target)) == Some(target)
  {
    TrimOfInteger(target);
    AtoiOfInteger(target);
    hide Integer, Atoi, TrimSpace;
    assert (TARGET + Integer(target))[|TARGET|..] == Integer(target);
  }

  lemma NoTarget(line: string)
    requires |line| > 7 ==> line[7] != 'T'
    ensures TargetIn(line).None?
  {
    hide Atoi, TrimSpace;
  }

  lemma FirstTarget(a: string, b: string, line: string, rest: seq<string>)
    requires TargetIn(a).None? && TargetIn(b).None? && TargetIn(line).Some?
    ensures TargetOf([a, b, line] + rest) == TargetIn(line).value
  {
    hide TargetIn;
    assert TargetOf([line] + rest) == TargetIn(line).value;
    assert TargetOf([b, line] + rest) == TargetOf([line] + rest) by {
      assert ([b, line] + rest)[1..] == [line] + rest;
    }
    assert ([a, b, line] + rest)[1..] == [b, line] + rest;
  }

  lemma TargetOfHeader(target: int, rest: seq<string>)
    requires IsInt64(target)
    ensures TargetOf(HeaderLines(target) + rest) == target
  {
    hide TargetIn, Integer, TargetOf;
    var l := HeaderLines(target);
    TargetReads(target);
    NoTarget(l[0]);
    NoTarget(l[1]);
    FirstTarget(l[0], l[1], l[2], l[3..] + rest);
    assert l[..3] == [l[0], l[1], l[2]];
    hide HeaderLines;
    assert l + rest == l[..3] + (l[3..] + rest);
  }

  // Main result: whatever the paths and the suffix are, the target duration is read back.
  lemma TargetSurvives(segments: seq<Segment>, target: int, suffix: string)
    requires IsInt64(target)
    ensures TargetOf(Split(Tagged(Unlines(PlaylistLines(segments, target)), suffix), '\n')) == target
  {
    var header, more := HeaderLines(target), SegmentLines(segments) + [END];
    HeaderIsLines(target);
    hide HeaderLines, Split, Unlines, Join, TagLine, TargetOf;
    var body := Unlines(more);
    UnlinesAppend(header, more);
    SplitUnlines(header, body);
    if suffix == "" {
      TargetOfHeader(target, Split(body, '\n'));
    } else {
      var tagged := TagLines(Split(body, '\n'), suffix);
      HeaderUntagged(target, suffix);
      assert TagLines(header + Split(body, '\n'), suffix) == header + tagged;
      JoinUnlines(header, tagged);
      SplitUnlines(header, Join(tagged, '\n'));
      TargetOfHeader(target, Split(Join(tagged, '\n'), '\n'));
    }
  }

  lemma HeaderIsLines(target: int)
    ensures AllLines(HeaderLines(target))
  {
    assert OneLine(Integer(target));
    hide Integer;
  }

  // ---------- Segment names ----------

  function Suffixed(segments: seq<Segment>, suffix: string): seq<Segment> {
    if segments == [] then []
    else [segments[0].(path := segments[0].path + suffix)] + Suffixed(segments[1..], suffix)
  }

  // A segment file name: one line ending in .ts.
  predicate SegmentName(path: string) {
    HasSuffix(path, TS) && OneLine(path)
  }

  // A line that is read as the URI it is.
  predicate UriLine(path: string) {
    path != "" && path[0] != '#' && !HasSuffix(path, "\r")
  }

  predicate Named(segments: seq<Segment>) {
    forall s <- segments :: SegmentName(s.path)
  }

  lemma TagConcat(a: seq<string>, b: seq<string>, suffix: string)
    ensures TagLines(a + b, suffix) == TagLines(a, suffix) + TagLines(b, suffix)
  {
    hide TagLine;
  }

  lemma TagSegment(segment: Segment, suffix: string)
    requires SegmentName(segment.path)
    ensures var info := EXTINF + Seconds3(segment.ms) + ",";
            TagLines([info, segment.path], suffix) == [info, segment.path + suffix]
  {
    hide Seconds3;
    Untagged(EXTINF + Seconds3(segment.ms) + ",", suffix);
  }

  lemma {:induction false} TagSegments(segments: seq<Segment>, suffix: string)
    requires Named(segments)
    ensures TagLines(SegmentLines(segments), suffix) == SegmentLines(Suffixed(segments, suffix))
  {
    hide TagLines, Seconds3, SegmentName;
    if segments == [] {
      TagNone(suffix);
    } else {
      var first, more := segments[0], segments[1..];
      TagSegment(first, suffix);
      TagSegments(more, suffix);
      var info := EXTINF + Seconds3(first.ms) + ",";
      TagConcat([info, first.path], SegmentLines(more), suffix);
      assert Suffixed(segments, suffix)[1..] == Suffixed(more, suffix);
    }
  }

  lemma TagNone(suffix: string)
    ensures TagLines([], suffix) == []
  {}

  lemma TagEnd(suffix: string)
    ensures TagLines([END], suffix) == [END] && TagLines([""], suffix) == [""]
  {}

  lemma JoinBlank()
    ensures Join([""], '\n') == ""
  {}

  lemma TaggedIsJoin(lines: seq<string>, suffix: string)
    requires AllLines(lines)
    ensures Tagged(Unlines(lines), suffix) == Join(TagLines(lines + [""], suffix), '\n')
  {
    hide TagLine, Split, Unlines, Join;
    SplitUnlines(lines, "");
    SplitEmpty();
    assert Unlines(lines) + "" == Unlines(lines);
    if suffix == "" {
      hide TagLines;
      TagsNothing(lines + [""]);
      JoinUnlines(lines, [""]);
      JoinBlank();
    }
  }

  lemma TagsNothing(lines: seq<string>)
    ensures TagLines(lines, "") == lines
  {
    forall i | 0 <= i < |lines| ensures TagLine(lines[i], "") == lines[i] {
      assert lines[i] + "" == lines[i];
    }
  }

  lemma PlaylistIsLines(segments: seq<Segment>, target: int)
    requires forall s <- segments :: OneLine(s.path)
    ensures AllLines(PlaylistLines(segments, target))
  {
    HeaderIsLines(target);
    SegmentsAreLines(segments);
    hide HeaderLines, SegmentLines, Named;
    AllLinesConcat(SegmentLines(segments), [END]);
    AllLinesConcat(HeaderLines(target), SegmentLines(segments) + [END]);
  }

  lemma InfoIsLine(segment: Segment)
    requires OneLine(segment.path)
    ensures AllLines([EXTINF + Seconds3(segment.ms) + ",", segment.path])
  {
    assert OneLine(Seconds3(segment.ms));
    hide Seconds3;
  }

  lemma {:induction false} SegmentsAreLines(segments: seq<Segment>)
    requires forall s <- segments :: OneLine(s.path)
    ensures AllLines(SegmentLines(segments))
  {
    hide Seconds3, OneLine;
    if segments != [] {
      InfoIsLine(segments[0]);
      SegmentsAreLines(segments[1..]);
      hide AllLines;
      AllLinesConcat([EXTINF + Seconds3(segments[0].ms) + ",", segments[0].path], SegmentLines(segments[1..]));
    }
  }

  // Main result: giving the segment lines of a printed playlist a suffix is printing the playlist of the
  // suffixed segments.
  lemma RewritingIsPrinting(segments: seq<Segment>, target: int, suffix: string)
    requires Named(segments)
    ensures Tagged(Unlines(PlaylistLines(segments, target)), suffix)
         == Unlines(PlaylistLines(Suffixed(segments, suffix), target))
  {
    var header, body, tagged := HeaderLines(target), SegmentLines(segments), SegmentLines(Suffixed(segments, suffix));
    PlaylistIsLines(segments, target);
    TaggedIsJoin(header + (body + [END]), suffix);
    HeaderUntagged(target, suffix);
    TagSegments(segments, suffix);
    TagEnd(suffix);
    hide HeaderLines, SegmentLines, TagLines, Tagged, Unlines, Join, Named, Suffixed;
    TagConcat(header + (body + [END]), [""], suffix);
    TagConcat(header, body + [END], suffix);
    TagConcat(body, [END], suffix);
    JoinUnlines(header + (tagged + [END]), [""]);
    JoinBlank();
  }

  // ---------- Reading a printed playlist ----------

  lemma {:induction false} TotalConcat(a: seq<string>, b: seq<string>)
    ensures Total(a + b) == Plus(Total(a), Total(b))
  {
    hide DurationIn, Plus;
    if a == [] {
      assert a + b == b;
      PlusZero(Total(b));
    } else {
      TotalConcat(a[1..], b);
      assert (a + b)[1..] == a[1..] + b;
      PlusAssoc(DurationIn(a[0]), Total(a[1..]), Total(b));
    }
  }

  lemma {:induction false} UrisConcat(a: seq<string>, b: seq<string>)
    ensures Uris(a + b) == Uris(a) + Uris(b)
  {
    hide UriIn;
    if a == [] {
      assert a + b == b;
    } else {
      UrisConcat(a[1..], b);
      assert (a + b)[1..] == a[1..] + b;
      Assoc(UriIn(a[0]), Uris(a[1..]), Uris(b));
    }
  }

  // A tag other than #EXTINF, or a blank line.
  predicate Quiet(line: string) {
    line != "" ==> |line| > 4 && line[0] == '#' && line[4] != 'I'
  }

  lemma QuietReads(line: string)
    requires Quiet(line)
    ensures DurationIn(line) == Finite(0.0) && UriIn(line) == []
  {}

  lemma {:induction false} Silent(lines: seq<string>)
    requires forall i | 0 <= i < |lines| :: Quiet(lines[i])
    ensures Total(lines) == Finite(0.0) && Uris(lines) == []
  {
    PlusZero(Finite(0.0));
    hide DurationIn, UriIn, Quiet, Plus;
    if lines != [] {
      QuietReads(lines[0]);
      Silent(lines[1..]);
    }
  }

  lemma Seconds3Trimmed(ms: nat)
    ensures TrimSpace(Seconds3(ms)) == Seconds3(ms)
  {
    var d, f, s := Decimal(ms / 1000), Padded(ms % 1000, 3), Seconds3(ms);
    assert d[0] in d && f[|f| - 1] in f;
    hide Decimal, Padded;
    assert s[0] == d[0] && s[|s| - 1] == f[|f| - 1];
    assert !IsSpace(s[0]) && !IsSpace(s[|s| - 1]);
    TrimNothing(s, IsSpace);
  }

  lemma Thousandths(d: string, f: string, ms: nat)
    requires AllDigits(d) && AllDigits(f) && |f| == 3 && Value(d) == ms / 1000 && Value(f) == ms % 1000
    ensures DecimalValue(d, f) == ms as real / 1000.0
  {
    PaddedLength(0);
    hide Value, Power, AllDigits;
    assert ms as real == (ms / 1000) as real * 1000.0 + (ms % 1000) as real;
  }

  lemma Seconds3Parses(ms: nat)
    ensures ParseFloat(Seconds3(ms)) == Some(Finite(ms as real / 1000.0))
  {
    hide Decimal, Padded, Value, Power, ParseFloat, DecimalValue, AllDigits;
    var d, f := Decimal(ms / 1000), Padded(ms % 1000, 3);
    ValueOfDecimal(ms / 1000);
    ValueOfPadded(ms % 1000, 3);
    PaddedLength(ms % 1000);
    ParseFloatOf(d, f);
    Thousandths(d, f, ms);
  }

  lemma InfoReads(ms: nat)
    ensures DurationIn(EXTINF + Seconds3(ms) + ",") == Finite(ms as real / 1000.0)
  {
    Seconds3Trimmed(ms);
    Seconds3Parses(ms);
    hide Seconds3, TrimSpace, ParseFloat;
    var line, val := EXTINF + Seconds3(ms) + ",", Seconds3(ms) + ",";
    assert line == EXTINF + val && line[|EXTINF|..] == val;
    assert val[..|val| - 1] == Seconds3(ms);
  }

  function SumMs(segments: seq<Segment>): nat {
    if segments == [] then 0 else segments[0].ms + SumMs(segments[1..])
  }

  function Paths(segments: seq<Segment>): seq<string> {
    if segments == [] then [] else [segments[0].path] + Paths(segments[1..])
  }

  // The path is not taken for the line before a segment.
  predicate NoInfo(path: string) {
    DurationIn(path) == Finite(0.0)
  }

  predicate NoInfos(segments: seq<Segment>) {
    forall s <- segments :: NoInfo(s.path)
  }

  lemma {:induction false} SegmentsRead(segments: seq<Segment>)
    ensures Uris(SegmentLines(segments)) == Uris(Paths(segments))
    ensures NoInfos(segments) ==>
              Total(SegmentLines(segments)) == Finite(SumMs(segments) as real / 1000.0)
  {
    hide DurationIn, UriIn, Seconds3;
    if segments != [] {
      var first, more := segments[0], segments[1..];
      var info := EXTINF + Seconds3(first.ms) + ",";
      SegmentReads(first);
      SegmentsRead(more);
      TotalConcat([info, first.path], SegmentLines(more));
      UrisConcat([info, first.path], SegmentLines(more));
      assert Paths(segments)[1..] == Paths(more);
    }
  }

  lemma SegmentReads(segment: Segment)
    ensures var lines := [EXTINF + Seconds3(segment.ms) + ",", segment.path];
            && (NoInfo(segment.path) ==> Total(lines) == Finite(segment.ms as real / 1000.0))
            && Uris(lines) == UriIn(segment.path)
  {
    InfoReads(segment.ms);
    hide Seconds3;
    var info := EXTINF + Seconds3(segment.ms) + ",";
    assert UriIn(info) == [];
    hide DurationIn, UriIn;
    PairReads(info, segment.path);
  }

  lemma PairReads(a: string, b: string)
    ensures Total([a, b]) == Plus(DurationIn(a), DurationIn(b)) && Uris([a, b]) == UriIn(a) + UriIn(b)
  {
    hide DurationIn, UriIn;
    assert [a, b][1..] == [b];
    assert Total([b]) == DurationIn(b) && Uris([b]) == UriIn(b);
  }

  lemma FrameReads(target: int)
    ensures Total(HeaderLines(target)) == Finite(0.0) && Uris(HeaderLines(target)) == []
    ensures Total([END, ""]) == Finite(0.0) && Uris([END, ""]) == []
  {
    hide Integer, Total, Uris;
    var l := HeaderLines(target);
    assert Quiet(l[0]) && Quiet(l[1]) && Quiet(l[2]) && Quiet(l[3]) && Quiet(l[4]) && Quiet(l[5]);
    assert Quiet(END) && Quiet("");
    hide Quiet;
    Silent(l);
    Silent([END, ""]);
  }

  // What the parsers find in the playlist printed for `segments`.
  lemma PrintedReads(segments: seq<Segment>, target: int)
    requires IsInt64(target) && forall s <- segments :: OneLine(s.path)
    ensures var lines := Split(Unlines(PlaylistLines(segments, target)), '\n');
            && TargetOf(lines) == target
            && (NoInfos(segments) ==> Total(lines) == Finite(SumMs(segments) as real / 1000.0))
            && Uris(lines) == Uris(Paths(segments))
  {
    PrintedLines(segments, target);
    hide PlaylistLines, Split, Unlines, Total, Uris, TargetOf, NoInfos, SumMs, Paths, OneLine;
    PrintedTarget(segments, target);
    if NoInfos(segments) {
      PrintedTotal(segments, target);
    }
    PrintedUris(segments, target);
  }

  lemma PrintedTarget(segments: seq<Segment>, target: int)
    requires IsInt64(target)
    ensures TargetOf(PlaylistLines(segments, target) + [""]) == target
  {
    hide HeaderLines, SegmentLines, TargetOf;
    Assoc(HeaderLines(target), SegmentLines(segments) + [END], [""]);
    TargetOfHeader(target, (SegmentLines(segments) + [END]) + [""]);
  }

  lemma PrintedTotal(segments: seq<Segment>, target: int)
    requires NoInfos(segments)
    ensures Total(PlaylistLines(segments, target) + [""]) == Finite(SumMs(segments) as real / 1000.0)
  {
    var header, body := HeaderLines(target), SegmentLines(segments);
    SegmentsRead(segments);
    FrameReads(target);
    PlusZero(Total(body));
    hide HeaderLines, SegmentLines, Total, NoInfos, SumMs, Plus;
    Framed(header, body);
    TotalConcat(header, body + [END, ""]);
    TotalConcat(body, [END, ""]);
  }

  lemma PrintedUris(segments: seq<Segment>, target: int)
    ensures Uris(PlaylistLines(segments, target) + [""]) == Uris(Paths(segments))
  {
    var header, body := HeaderLines(target), SegmentLines(segments);
    SegmentsRead(segments);
    FrameReads(target);
    hide HeaderLines, SegmentLines, Uris, Paths, NoInfos;
    Framed(header, body);
    UrisConcat(header, body + [END, ""]);
    UrisConcat(body, [END, ""]);
  }

  lemma Framed(header: seq<string>, body: seq<string>)
    ensures header + (body + [END]) + [""] == header + (body + [END, ""])
  {}

  lemma PrintedLines(segments: seq<Segment>, target: int)
    requires forall s <- segments :: OneLine(s.path)
    ensures Split(Unlines(PlaylistLines(segments, target)), '\n') == PlaylistLines(segments, target) + [""]
  {
    PlaylistIsLines(segments, target);
    hide PlaylistLines, Split, Unlines, OneLine;
    var lines := PlaylistLines(segments, target);
    SplitUnlines(lines, "");
    SplitEmpty();
    assert Unlines(lines) + "" == Unlines(lines);
  }

  // ---------- Lines that are URIs ----------

  function Weight(lines: seq<string>): nat {
    if lines == [] then 0 else |lines[0]| + 1 + Weight(lines[1..])
  }

  lemma {:induction false} WeightConcat(a: seq<string>, b: seq<string>)
    ensures Weight(a + b) == Weight(a) + Weight(b)
  {
    if a == [] {
      assert a + b == b;
    } else {
      WeightConcat(a[1..], b);
      assert (a + b)[1..] == a[1..] + b;
    }
  }

  lemma UriWeight(line: string)
    ensures Weight(UriIn(line)) <= |line| + 1
    ensures Weight(UriIn(line)) == |line| + 1 <==> UriLine(line)
    ensures UriLine(line) ==> UriIn(line) == [line]
  {}

  // Reading lines as URIs leaves them as they are exactly when each of them is one.
  lemma {:induction false} UrisIff(lines: seq<string>)
    ensures Weight(Uris(lines)) <= Weight(lines)
    ensures Weight(Uris(lines)) == Weight(lines) <==> forall l <- lines :: UriLine(l)
    ensures Uris(lines) == lines <==> forall l <- lines :: UriLine(l)
  {
    hide UriIn, UriLine;
    if lines != [] {
      UrisIff(lines[1..]);
      UriWeight(lines[0]);
      WeightConcat(UriIn(lines[0]), Uris(lines[1..]));
      assert lines == [lines[0]] + lines[1..];
    }
  }

  // ---------- What survives the rewriting ----------

  // Main result: print, rewrite, parse. Whatever token and audio index the request carries, the parsers find
  // the target duration, and the printed durations if the token is one line. The URI lines are the suffixed
  // paths, in order, if and only if there are none, or the token is one line, the suffix does not end in a
  // carriage return, and no path is a comment.
  lemma PlaylistSurvives(segments: seq<Segment>, target: int, token: string, audioIndex: nat)
    requires Named(segments) && IsInt64(target)
    ensures var suffix := UrlSuffix(token, audioIndex);
            var lines := Split(Tagged(Unlines(PlaylistLines(segments, target)), suffix), '\n');
            && TargetOf(lines) == target
            && (segments == [] || OneLine(token) ==> Total(lines) == Finite(SumMs(segments) as real / 1000.0))
            && (Uris(lines) == Paths(Suffixed(segments, suffix))
                <==> segments == []
                     || (OneLine(token) && !HasSuffix(suffix, "\r") && forall s <- segments :: s.path[0] != '#'))
  {
    var suffix := UrlSuffix(token, audioIndex);
    SuffixIsLine(token, audioIndex);
    hide UrlSuffix, Total, Uris, TargetOf, Split, Unlines, PlaylistLines, Tagged;
    hide SumMs, Paths, Suffixed, OneLine, UriLine, NoInfos;
    TargetSurvives(segments, target, suffix);
    RewritingIsPrinting(segments, target, suffix);
    SuffixedUris(segments, suffix);
    if segments == [] || OneLine(token) {
      SuffixedKeeps(segments, suffix);
      PrintedReads(Suffixed(segments, suffix), target);
      UrisIff(Paths(Suffixed(segments, suffix)));
    } else {
      BrokenSuffix(segments, Tagged(Unlines(PlaylistLines(segments, target)), suffix), suffix);
    }
  }

  lemma SuffixIsLine(token: string, audioIndex: nat)
    ensures OneLine(UrlSuffix(token, audioIndex)) <==> OneLine(token)
  {
    assert OneLine(Decimal(audioIndex));
    hide Decimal;
    assert token != "" ==> forall i | 0 <= i < |token| :: UrlSuffix(token, audioIndex)[7 + i] == token[i];
  }

  lemma {:induction false} UrisAreLines(lines: seq<string>)
    requires forall l <- lines :: OneLine(l)
    ensures forall u <- Uris(lines) :: OneLine(u)
  {
    if lines != [] {
      StillOneLine(lines[0]);
      hide OneLine, WithoutReturn;
      UrisAreLines(lines[1..]);
    }
  }

  lemma StillOneLine(line: string)
    requires OneLine(line)
    ensures OneLine(WithoutReturn(line))
  {
    assert forall c <- line[..if line == "" then 0 else |line| - 1] :: c in line;
  }

  // No line of a text is a path with a line break in its suffix.
  lemma BrokenSuffix(segments: seq<Segment>, text: string, suffix: string)
    requires segments != [] && !OneLine(suffix)
    ensures Uris(Split(text, '\n')) != Paths(Suffixed(segments, suffix))
  {
    SplitPartsLackSep(text, '\n');
    UrisAreLines(Split(text, '\n'));
    hide Split, Uris;
    var first := segments[0].path + suffix;
    assert Paths(Suffixed(segments, suffix))[0] == first;
    var k :| 0 <= k < |suffix| && suffix[k] == '\n';
    assert first[|segments[0].path| + k] == '\n';
    assert first in Paths(Suffixed(segments, suffix));
  }

  lemma {:induction false} SuffixedUris(segments: seq<Segment>, suffix: string)
    requires Named(segments)
    ensures (forall p <- Paths(Suffixed(segments, suffix)) :: UriLine(p))
       <==> segments == [] || (!HasSuffix(suffix, "\r") && forall s <- segments :: s.path[0] != '#')
  {
    if segments != [] {
      SuffixedIsUri(segments[0].path, suffix);
      hide UriLine, HasSuffix;
      SuffixedUris(segments[1..], suffix);
      var paths := Paths(Suffixed(segments, suffix));
      assert paths == [segments[0].path + suffix] + Paths(Suffixed(segments[1..], suffix));
      assert segments == [segments[0]] + segments[1..];
    }
  }

  lemma SuffixedIsUri(path: string, suffix: string)
    requires HasSuffix(path, TS)
    ensures |path| >= 3
    ensures UriLine(path + suffix) <==> path[0] != '#' && !HasSuffix(suffix, "\r")
  {
    assert (path + suffix)[|path| - 1] == path[|path| - 1] == 's';
    assert suffix != "" ==> (path + suffix)[|path + suffix| - 1] == suffix[|suffix| - 1];
  }

  lemma {:induction false} SuffixedKeeps(segments: seq<Segment>, suffix: string)
    requires Named(segments) && (segments == [] || OneLine(suffix))
    ensures SumMs(Suffixed(segments, suffix)) == SumMs(segments)
    ensures (forall s <- Suffixed(segments, suffix) :: OneLine(s.path)) && NoInfos(Suffixed(segments, suffix))
  {
    if segments != [] {
      assert OneLine(segments[0].path + suffix);
      SuffixedHasNoInfo(segments[0].path, suffix);
      hide NoInfo, OneLine, HasSuffix;
      SuffixedKeeps(segments[1..], suffix);
    }
  }

  // Even a path that starts like the line before a segment carries no duration: the s of .ts is in no number.
  lemma SuffixedHasNoInfo(path: string, suffix: string)
    requires HasSuffix(path, TS)
    ensures NoInfo(path + suffix)
  {
    var line := path + suffix;
    hide ParseFloat, TrimSpace;
    if HasPrefix(line, EXTINF) {
      assert line[|path| - 1] == 's' && line[|path| - 2] == 't' && line[|path| - 3] == '.';
      assert line[6] == 'F' && line[7] == ':' && line[5] == 'N';
      NoNumber(line[|EXTINF|..], |path| - 1 - |EXTINF|);
    }
  }

  lemma NoNumber(val: string, k: nat)
    requires k < |val| && val[k] == 's'
    ensures ParseFloat(TrimSpace(if HasSuffix(val, ",") then val[..|val| - 1] else val)).None?
  {
    var trimmed := if HasSuffix(val, ",") then val[..|val| - 1] else val;
    assert k < |trimmed| && trimmed[k] == 's' && !IsSpace('s');
    TrimKeeps(trimmed, IsSpace, k);
    NoFloatWithS(TrimSpace(trimmed));
    hide ParseFloat;
  }

  // ---------- The segments as a player sees them ----------

  // The URIs with the durations announced for them: an #EXTINF tag applies to the next URI (section 4.3.2.1 of
  // RFC 8216).
  function Entries(lines: seq<string>, announced: Float): seq<(Float, string)> {
    if lines == [] then []
    else if UriIn(lines[0]) != [] then [(announced, UriIn(lines[0])[0])] + Entries(lines[1..], Finite(0.0))
    else if HasPrefix(lines[0], EXTINF) then Entries(lines[1..], DurationIn(lines[0]))
    else Entries(lines[1..], announced)
  }

  function Timed(segments: seq<Segment>): seq<(Float, string)> {
    if segments == [] then []
    else [(Finite(segments[0].ms as real / 1000.0), segments[0].path)] + Timed(segments[1..])
  }

  lemma {:induction false} QuietEntries(lines: seq<string>, rest: seq<string>, announced: Float)
    requires forall i | 0 <= i < |lines| :: Quiet(lines[i])
    ensures Entries(lines + rest, announced) == Entries(rest, announced)
  {
    if lines == [] {
      assert lines + rest == rest;
    } else {
      QuietReads(lines[0]);
      assert !HasPrefix(lines[0], EXTINF);
      hide UriIn, DurationIn, Quiet;
      QuietEntries(lines[1..], rest, announced);
      assert (lines + rest)[1..] == lines[1..] + rest;
    }
  }

  lemma SegmentEntry(segment: Segment, rest: seq<string>, announced: Float)
    requires UriLine(segment.path)
    ensures Entries([EXTINF + Seconds3(segment.ms) + ",", segment.path] + rest, announced)
         == [(Finite(segment.ms as real / 1000.0), segment.path)] + Entries(rest, Finite(0.0))
  {
    InfoReads(segment.ms);
    UriWeight(segment.path);
    hide Seconds3, DurationIn, UriLine;
    var info := EXTINF + Seconds3(segment.ms) + ",";
    var lines := [info, segment.path] + rest;
    assert UriIn(info) == [] && HasPrefix(info, EXTINF);
    hide UriIn;
    assert lines[1..] == [segment.path] + rest && ([segment.path] + rest)[1..] == rest;
    assert Entries([segment.path] + rest, Finite(segment.ms as real / 1000.0))
        == [(Finite(segment.ms as real / 1000.0), segment.path)] + Entries(rest, Finite(0.0));
  }

  lemma {:induction false} SegmentEntries(segments: seq<Segment>, announced: Float)
    requires forall s <- segments :: UriLine(s.path)
    ensures Entries(SegmentLines(segments) + [END, ""], announced) == Timed(segments)
  {
    hide Seconds3, UriLine, Entries;
    if segments == [] {
      EndEntries(announced);
      assert SegmentLines(segments) + [END, ""] == [END, ""];
    } else {
      var first, more := segments[0], SegmentLines(segments[1..]);
      SegmentEntry(first, more + [END, ""], announced);
      SegmentEntries(segments[1..], Finite(0.0));
      LinesCons(segments);
    }
  }

  lemma LinesCons(segments: seq<Segment>)
    requires segments != []
    ensures SegmentLines(segments) + [END, ""]
         == [EXTINF + Seconds3(segments[0].ms) + ",", segments[0].path] + (SegmentLines(segments[1..]) + [END, ""])
  {
    hide Seconds3;
  }

  lemma EndEntries(announced: Float)
    ensures Entries([END, ""], announced) == []
  {
    assert Quiet(END) && Quiet("");
    hide Quiet;
    QuietEntries([END, ""], [], announced);
    assert [END, ""] + [] == [END, ""];
  }

  lemma HeaderEntries(target: int, rest: seq<string>, announced: Float)
    ensures Entries(HeaderLines(target) + rest, announced) == Entries(rest, announced)
  {
    hide Integer, Entries;
    var l := HeaderLines(target);
    assert Quiet(l[0]) && Quiet(l[1]) && Quiet(l[2]) && Quiet(l[3]) && Quiet(l[4]) && Quiet(l[5]);
    hide Quiet;
    QuietEntries(l, rest, announced);
  }

  lemma PrintedEntries(segments: seq<Segment>, target: int, announced: Float)
    requires forall s <- segments :: OneLine(s.path) && UriLine(s.path)
    ensures Entries(Split(Unlines(PlaylistLines(segments, target)), '\n'), announced) == Timed(segments)
  {
    PrintedLines(segments, target);
    hide HeaderLines, SegmentLines, Split, Unlines, Entries, OneLine, UriLine, Timed;
    Framed(HeaderLines(target), SegmentLines(segments));
    HeaderEntries(target, SegmentLines(segments) + [END, ""], announced);
    SegmentEntries(segments, announced);
  }

  lemma {:induction false} TimedSuffixed(segments: seq<Segment>, suffix: string)
    ensures var timed := Timed(Suffixed(segments, suffix));
            && |timed| == |segments|
            && forall i | 0 <= i < |segments| ::
                 timed[i] == (Finite(segments[i].ms as real / 1000.0), segments[i].path + suffix)
  {
    if segments != [] {
      TimedSuffixed(segments[1..], suffix);
    }
  }

  lemma {:induction false} SuffixedAreUris(segments: seq<Segment>, suffix: string)
    requires Named(segments) && OneLine(suffix) && !HasSuffix(suffix, "\r") && forall s <- segments :: s.path[0] != '#'
    ensures forall s <- Suffixed(segments, suffix) :: OneLine(s.path) && UriLine(s.path)
  {
    if segments != [] {
      SuffixedIsUri(segments[0].path, suffix);
      assert OneLine(segments[0].path + suffix);
      hide UriLine, OneLine, HasSuffix;
      SuffixedAreUris(segments[1..], suffix);
    }
  }

  // Main result: in the playlist as it is served each URI is that of its segment, with the suffix, and is announced
  // with the duration of that segment.
  lemma EntriesSurvive(segments: seq<Segment>, target: int, token: string, audioIndex: nat)
    requires Named(segments) && OneLine(token) && !HasSuffix(UrlSuffix(token, audioIndex), "\r")
    requires forall s <- segments :: s.path[0] != '#'
    ensures var suffix := UrlSuffix(token, audioIndex);
            var playlist := Tagged(Unlines(PlaylistLines(segments, target)), suffix);
            var entries := Entries(Split(playlist, '\n'), Finite(0.0));
            && |entries| == |segments|
            && forall i | 0 <= i < |segments| ::
                 entries[i] == (Finite(segments[i].ms as real / 1000.0), segments[i].path + suffix)
  {
    var suffix := UrlSuffix(token, audioIndex);
    SuffixIsLine(token, audioIndex);
    RewritingIsPrinting(segments, target, suffix);
    SuffixedAreUris(segments, suffix);
    TimedSuffixed(segments, suffix);
    hide UrlSuffix, Tagged, Unlines, PlaylistLines, Split, Entries, Timed, Suffixed, OneLine, UriLine, Named;
    PrintedEntries(Suffixed(segments, suffix), target, Finite(0.0));
  }

  // The tags a printed playlist starts and ends with.
  lemma TagsPrinted(segments: seq<Segment>, target: int)
    ensures var lines := PlaylistLines(segments, target);
            && lines[..6] == ["#EXTM3U", "#EXT-X-VERSION:4", "#EXT-X-TARGETDURATION:" + Integer(target),
                              "#EXT-X-MEDIA-SEQUENCE:0", "#EXT-X-PLAYLIST-TYPE:VOD", "#EXT-X-INDEPENDENT-SEGMENTS"]
            && lines[|lines| - 1] == "#EXT-X-ENDLIST"
            && |lines| == 7 + 2 * |segments|
            && forall i | 0 <= i < |segments| ::
                 var (whole, rest) := (segments[i].ms / 1000, segments[i].ms % 1000);
                 && lines[6 + 2 * i] == "#EXTINF:" + (Decimal(whole) + "." + Padded(rest, 3)) + ","
                 && lines[7 + 2 * i] == segments[i].path
  {
    SegmentLinesAt(segments);
    hide Integer, Decimal, Padded, SegmentLines;
  }

  lemma {:induction false} SegmentLinesAt(segments: seq<Segment>)
    ensures var lines := SegmentLines(segments);
            && |lines| == 2 * |segments|
            && forall i | 0 <= i < |segments| ::
                 lines[2 * i] == EXTINF + Seconds3(segments[i].ms) + "," && lines[2 * i + 1] == segments[i].path
  {
    hide Seconds3;
    if segments != [] {
      SegmentLinesAt(segments[1..]);
    }
  }
}
