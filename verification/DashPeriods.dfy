/**
 The chapters of the multi-period manifest: split in pkg/dash/handler.go, added up and printed by
 pkg/dash/dash.go.
 */
module DashPeriods {
  import opened Options
  import opened GoText
  import opened Dash

  datatype PeriodInfo = PeriodInfo(id: string, start: real, duration: real)

  // The time attributes of the manifest, "" where one is left out.
  datatype Period = Period(id: string, start: string, duration: string)
  datatype MPD = MPD(mediaPresentationDuration: string, periods: seq<Period>)

  const CHAPTER := 600.0

  function NumPeriods(total: real): int {
    Truncated(total / CHAPTER) + 1
  }

  function Chapter(total: real, i: nat): PeriodInfo {
    var start := i as real * CHAPTER;
    PeriodInfo("period_" + Integer(i + 1), start, if start + CHAPTER > total then total - start else CHAPTER)
  }

  function Chapters(total: real, n: nat): (r: seq<PeriodInfo>)
    ensures |r| == n
  {
    seq(n, i requires 0 <= i < n => Chapter(total, i))
  }

  // The loop of HandleMultiPeriodManifest; a negative count makes the allocation before it panic.
  method SplitPeriods(total: real) returns (periods: seq<PeriodInfo>)
    requires NumPeriods(total) >= 0
    ensures periods == Chapters(total, NumPeriods(total))
  {
    hide Integer, Truncated;
    var numPeriods := NumPeriods(total);
    periods := [];
    for i := 0 to numPeriods
      invariant periods == Chapters(total, i)
    {
      var start := i as real * CHAPTER;
      var duration := CHAPTER;
      if start + duration > total {
        duration := total - start;
      }
      periods := periods + [PeriodInfo("period_" + Integer(i + 1), start, duration)];
    }
  }

  function Total(periods: seq<PeriodInfo>): real {
    if periods == [] then 0.0 else Total(periods[..|periods| - 1]) + periods[|periods| - 1].duration
  }

  // time.Duration(seconds * 1e9)
  function Nanos(seconds: real): int {
    Truncated(seconds * 1000000000.0)
  }

  function PeriodTime(seconds: real): string {
    if seconds > 0.0 then Printed(WholeSeconds(Nanos(seconds))) else ""
  }

  function PresentationTime(d: int): string {
    if d > 0 then Printed(WholeSeconds(d)) else ""
  }

  function Rendered(p: PeriodInfo): Period {
    Period(p.id, PeriodTime(p.start), PeriodTime(p.duration))
  }

  function RenderedAll(periods: seq<PeriodInfo>): (r: seq<Period>)
    ensures |r| == |periods|
  {
    seq(|periods|, i requires 0 <= i < |periods| => Rendered(periods[i]))
  }

  method GenerateMPD(mediaPresentationDuration: int, periods: seq<PeriodInfo>) returns (mpd: MPD)
    ensures mpd == MPD(PresentationTime(mediaPresentationDuration), RenderedAll(periods))
  {
    hide Printed, WholeSeconds, Nanos;
    mpd := MPD("", []);
    if mediaPresentationDuration > 0 {
      var text := FormatDuration(mediaPresentationDuration);
      mpd := mpd.(mediaPresentationDuration := text);
    }
    for i := 0 to |periods|
      invariant mpd == MPD(PresentationTime(mediaPresentationDuration), RenderedAll(periods)[..i])
    {
      var info := periods[i];
      var period := Period(info.id, "", "");
      if info.start > 0.0 {
        var text := FormatDuration(Nanos(info.start));
        period := period.(start := text);
      }
      if info.duration > 0.0 {
        var text := FormatDuration(Nanos(info.duration));
        period := period.(duration := text);
      }
      assert RenderedAll(periods)[i] == period;
      mpd := mpd.(periods := mpd.periods + [period]);
    }
  }

  function Manifest(periods: seq<PeriodInfo>): MPD {
    MPD(PresentationTime(Nanos(Total(periods))), RenderedAll(periods))
  }

  method BuildMultiPeriodMPD(periods: seq<PeriodInfo>) returns (mpd: MPD)
    ensures mpd == Manifest(periods)
  {
    hide Nanos;
    var totalDuration := 0.0;
    for i := 0 to |periods|
      invariant totalDuration == Total(periods[..i])
    {
      assert periods[..i + 1][..i] == periods[..i];
      totalDuration := totalDuration + periods[i].duration;
    }
    assert periods[..|periods|] == periods;
    mpd := GenerateMPD(Nanos(totalDuration), periods);
  }

  // ---------- The split ----------

  lemma CountFits(total: real)
    requires total > -CHAPTER
    ensures var n := NumPeriods(total);
            && n >= 1
            && (total >= 0.0 ==> (n - 1) as real * CHAPTER <= total)
            && total < n as real * CHAPTER
  {}

  lemma {:induction false} FullChapters(total: real, n: nat)
    requires n as real * CHAPTER <= total
    ensures Total(Chapters(total, n)) == n as real * CHAPTER
  {
    hide Integer;
    if n > 0 {
      FullChapters(total, n - 1);
      assert Chapters(total, n)[..n - 1] == Chapters(total, n - 1);
    }
  }

  // Main result: the chapters follow one another from 0 and last as long as the item, exactly for the
  // durations above minus one chapter, so for all that are not negative.
  lemma SplitConserves(total: real)
    requires NumPeriods(total) >= 0
    ensures var periods := Chapters(total, NumPeriods(total));
            && (Total(periods) == total <==> total > -600.0)
            && (forall i | 0 <= i < |periods| ::
                  periods[i].start == i as real * 600.0 && periods[i].id == "period_" + Integer(i + 1))
            && (forall i: nat | i + 1 < |periods| :: periods[i + 1].start == periods[i].start + periods[i].duration)
            && (total >= 0.0 ==> forall p <- periods :: 0.0 <= p.duration <= 600.0)
            && (total >= 0.0 ==> |periods| as real * 600.0 - 600.0 <= total < |periods| as real * 600.0)
  {
    hide Integer;
    var n := NumPeriods(total);
    var periods := Chapters(total, n);
    if total > -CHAPTER {
      CountFits(total);
      if total >= 0.0 {
        FullChapters(total, n - 1);
      }
      assert periods[..n - 1] == Chapters(total, n - 1);
    }
  }

  // ---------- The printed manifest ----------

  // A time attribute as a player reads it: one left out counts as 0.
  function Seconds(attribute: string): Option<real> {
    if attribute == "" then Some(0.0)
    else match Parse(attribute) case Some(p) => (if p.months == 0 then Some(p.seconds) else None) case None => None
  }

  function SumSeconds(periods: seq<Period>): Option<real> {
    if periods == [] then Some(0.0)
    else
      var last := Seconds(periods[|periods| - 1].duration);
      var before := SumSeconds(periods[..|periods| - 1]);
      if last.Some? && before.Some? then Some(before.value + last.value) else None
  }

  // The whole seconds of a time, nothing for one that is not positive.
  function Whole(seconds: real): real {
    if seconds > 0.0 then seconds.Floor as real else 0.0
  }

  lemma NanosKeepSeconds(seconds: real)
    requires seconds >= 0.0
    ensures WholeSeconds(Nanos(seconds)) == seconds.Floor
  {
    var n, k := Nanos(seconds), seconds.Floor;
    assert k as real * 1000000000.0 == (k * 1000000000) as real;
    assert (k + 1) as real * 1000000000.0 == ((k + 1) * 1000000000) as real;
    assert k * 1000000000 <= n < (k + 1) * 1000000000;
  }

  lemma PrintedSeconds(whole: nat)
    ensures Seconds(Printed(whole)) == Some(whole as real)
  {
    DurationRoundTrip(whole);
    hide Parse;
  }

  lemma TimeReads(seconds: real)
    ensures Seconds(PeriodTime(seconds)) == Some(Whole(seconds))
    ensures Seconds(PresentationTime(Nanos(seconds))) == Some(Whole(seconds))
  {
    hide WholeSeconds, Printed, Parse;
    if seconds > 0.0 {
      NanosKeepSeconds(seconds);
      PrintedSeconds(seconds.Floor);
    }
  }

  lemma SumLast(periods: seq<Period>, before: real, last: real)
    requires periods != [] && SumSeconds(periods[..|periods| - 1]) == Some(before)
    requires Seconds(periods[|periods| - 1].duration) == Some(last)
    ensures SumSeconds(periods) == Some(before + last)
  {
    hide Seconds;
  }

  lemma RenderedLast(periods: seq<PeriodInfo>)
    requires periods != []
    ensures var n := |periods| - 1;
            && RenderedAll(periods)[..n] == RenderedAll(periods[..n])
            && RenderedAll(periods)[n].duration == PeriodTime(periods[n].duration)
  {
    hide PeriodTime;
  }

  lemma SumSnoc(periods: seq<PeriodInfo>, before: real)
    requires periods != [] && SumSeconds(RenderedAll(periods[..|periods| - 1])) == Some(before)
    ensures SumSeconds(RenderedAll(periods)) == Some(before + Whole(periods[|periods| - 1].duration))
  {
    hide Seconds, PeriodTime, PresentationTime, Nanos, Whole, RenderedAll, SumSeconds;
    var duration := periods[|periods| - 1].duration;
    TimeReads(duration);
    RenderedLast(periods);
    SumLast(RenderedAll(periods), before, Whole(duration));
  }

  lemma ChaptersLast(total: real, n: nat)
    requires n > 0
    ensures Chapters(total, n)[..n - 1] == Chapters(total, n - 1)
    ensures Chapters(total, n)[n - 1] == Chapter(total, n - 1)
  {
    hide Chapter;
  }

  lemma FullChapter(total: real, i: nat)
    requires (i + 1) as real * CHAPTER <= total
    ensures i as real * CHAPTER + Whole(Chapter(total, i).duration) == (i + 1) as real * CHAPTER
  {
    hide Integer;
  }

  lemma {:induction false} FullChaptersPrinted(total: real, n: nat)
    requires n as real * CHAPTER <= total
    ensures SumSeconds(RenderedAll(Chapters(total, n))) == Some(n as real * CHAPTER)
  {
    hide Seconds, SumSeconds, RenderedAll, Chapters, Chapter, Whole;
    if n == 0 {
      NothingPrinted(total);
    } else {
      FullChaptersPrinted(total, n - 1);
      ChaptersLast(total, n);
      FullChapter(total, n - 1);
      SumSnoc(Chapters(total, n), (n - 1) as real * CHAPTER);
    }
  }

  lemma PrintedSum(total: real)
    requires NumPeriods(total) >= 0
    ensures SumSeconds(RenderedAll(Chapters(total, NumPeriods(total)))) == Some(Whole(total))
  {
    hide Seconds, SumSeconds, RenderedAll, Chapters, Chapter;
    var n := NumPeriods(total);
    NothingPrinted(total);
    if total > -CHAPTER {
      CountFits(total);
      ChaptersLast(total, n);
      hide Whole;
      if total >= 0.0 {
        LastChapter(total);
        FullChaptersPrinted(total, n - 1);
        SumSnoc(Chapters(total, n), (n - 1) as real * CHAPTER);
      } else {
        LastNegative(total);
        SumSnoc(Chapters(total, n), 0.0);
      }
    }
  }

  lemma LastNegative(total: real)
    requires -CHAPTER < total < 0.0
    ensures NumPeriods(total) == 1 && Whole(Chapter(total, 0).duration) == Whole(total)
  {
    hide Integer;
  }

  lemma NothingPrinted(total: real)
    ensures SumSeconds(RenderedAll(Chapters(total, 0))) == Some(0.0)
  {
    assert RenderedAll(Chapters(total, 0)) == [];
  }

  // A time is left out exactly if it is not positive.
  lemma LeftOutIff(seconds: real, d: int)
    ensures PeriodTime(seconds) == "" <==> seconds <= 0.0
    ensures PresentationTime(d) == "" <==> d <= 0
  {
    if seconds > 0.0 {
      NanosKeepSeconds(seconds);
    }
    if d > 0 {
      assert WholeSeconds(d) >= 0;
    }
    hide WholeSeconds, Nanos;
    forall whole: nat ensures Printed(whole) != "" {
      assert Printed(whole)[..2] == "PT";
    }
  }

  // Main result: the whole seconds printed for the chapters add up to those printed for the presentation.
  lemma PrintedConserves(total: real)
    requires NumPeriods(total) >= 0
    ensures var mpd := Manifest(Chapters(total, NumPeriods(total)));
            SumSeconds(mpd.periods) == Seconds(mpd.mediaPresentationDuration) == Some(Whole(total))
  {
    hide Seconds, Nanos, PresentationTime, SumSeconds, RenderedAll, PeriodTime;
    SplitConserves(total);
    PrintedSum(total);
    hide Chapters;
    TimeReads(Total(Chapters(total, NumPeriods(total))));
  }

  lemma LastChapter(total: real)
    requires total >= 0.0
    ensures var n := NumPeriods(total);
            (n - 1) as real * CHAPTER + Whole(Chapter(total, n - 1).duration) == Whole(total)
  {
    CountFits(total);
    var n := NumPeriods(total);
    assert (n - 1) as real * CHAPTER == ((n - 1) * 600) as real;
    assert (total - ((n - 1) * 600) as real).Floor == total.Floor - (n - 1) * 600;
  }

  // Main result: each printed start is the printed start and duration of the period before it.
  lemma PrintedContiguous(total: real, i: nat)
    requires total >= 0.0 && i + 1 < NumPeriods(total)
    ensures var periods := Manifest(Chapters(total, NumPeriods(total))).periods;
            && Seconds(periods[i].start) == Some(i as real * 600.0)
            && Seconds(periods[i].duration) == Some(600.0)
            && Seconds(periods[i + 1].start) == Some((i + 1) as real * 600.0)
  {
    hide Seconds, PeriodTime, Integer;
    CountFits(total);
    StartReads(i);
    StartReads(i + 1);
    DurationReads();
    assert Chapter(total, i).duration == CHAPTER;
  }

  lemma StartReads(i: nat)
    ensures Seconds(PeriodTime(i as real * CHAPTER)) == Some(i as real * CHAPTER)
  {
    TimeReads(i as real * CHAPTER);
    hide Seconds, PeriodTime;
    assert i as real * CHAPTER == (i * 600) as real;
  }

  lemma DurationReads()
    ensures Seconds(PeriodTime(CHAPTER)) == Some(CHAPTER)
  {
    TimeReads(CHAPTER);
    hide Seconds, PeriodTime;
  }
}
