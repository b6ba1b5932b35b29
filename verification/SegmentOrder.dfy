/**
 The segments found in a transcode directory, sorted by name as in pkg/hls/hls.go, and the numbers that
 pkg/encoder/encoder.go puts in their names.
 */
module SegmentOrder {
  import opened Text
  import opened GoText
  import opened Hls

  datatype Entry = Entry(name: string, isDir: bool, hasInfo: bool)

  // filepath.Ext: from the last dot of the last path element.
  function Ext(name: string): string {
    if name == "" || name[|name| - 1] == '/' then ""
    else if name[|name| - 1] == '.' then "."
    else
      var rest := Ext(name[..|name| - 1]);
      if rest == "" then "" else rest + [name[|name| - 1]]
  }

  predicate Listed(e: Entry) {
    !e.isDir && Ext(e.name) == TS && e.hasInfo
  }

  // Every segment is taken to last four seconds.
  function Found(entries: seq<Entry>): seq<Segment> {
    if entries == [] then []
    else (if Listed(entries[0]) then [Segment(entries[0].name, 4000)] else []) + Found(entries[1..])
  }

  // The order of Go strings.
  predicate Less(a: string, b: string) {
    b != "" && (a == "" || a[0] < b[0] || (a[0] == b[0] && Less(a[1..], b[1..])))
  }

  predicate Sorted(names: seq<string>) {
    forall i, j | 0 <= i < j < |names| :: !Less(names[j], names[i])
  }

  // sort.Slice, as any sorting by path.
  function Inserted(segment: Segment, segments: seq<Segment>): seq<Segment> {
    if segments == [] || !Less(segments[0].path, segment.path) then [segment] + segments
    else [segments[0]] + Inserted(segment, segments[1..])
  }

  function SortedByPath(segments: seq<Segment>): seq<Segment> {
    if segments == [] then [] else Inserted(segments[0], SortedByPath(segments[1..]))
  }

  method ScanSegments(entries: seq<Entry>) returns (segments: seq<Segment>)
    ensures multiset(Paths(segments)) == multiset(Paths(Found(entries))) && Sorted(Paths(segments))
    ensures forall s <- segments :: s in Found(entries)
    ensures forall s <- segments :: s.ms == 4000
    ensures forall path :: path in Paths(segments) <==>
              exists e <- entries :: e.name == path && HasSuffix(path, ".ts") && !e.isDir && e.hasInfo
  {
    FoundIff(entries);
    segments := [];
    for i := 0 to |entries|
      invariant segments + Found(entries[i..]) == Found(entries)
    {
      assert entries[i..][1..] == entries[i + 1..];
      var entry := entries[i];
      if entry.isDir {
        continue;
      }
      if Ext(entry.name) != ".ts" {
        continue;
      }
      if !entry.hasInfo {
        continue;
      }
      segments := segments + [Segment(entry.name, 4000)];
    }
    assert segments == Found(entries);
    SortedByPathSorts(segments);
    hide Listed, Less, Paths;
    segments := SortedByPath(segments);
    assert forall path :: path in Paths(segments) <==> path in multiset(Paths(segments));
  }

  lemma {:induction false} FoundPath(entries: seq<Entry>, path: string)
    ensures path in Paths(Found(entries))
       <==> exists e <- entries :: e.name == path && HasSuffix(path, ".ts") && !e.isDir && e.hasInfo
  {
    if entries != [] {
      var e, rest := entries[0], Found(entries[1..]);
      FoundPath(entries[1..], path);
      ExtIsSuffix(e.name);
      hide Ext, HasSuffix;
      if Listed(e) {
        assert Found(entries) == [Segment(e.name, 4000)] + rest;
        assert Paths(Found(entries)) == [e.name] + Paths(rest);
      } else {
        assert Found(entries) == rest;
      }
      assert entries == [e] + entries[1..];
    }
  }

  lemma FoundIff(entries: seq<Entry>)
    ensures forall s <- Found(entries) :: s.ms == 4000
    ensures forall path :: path in Paths(Found(entries)) <==>
              exists e <- entries :: e.name == path && HasSuffix(path, ".ts") && !e.isDir && e.hasInfo
    ensures forall path :: path in Paths(Found(entries)) <==> path in multiset(Paths(Found(entries)))
  {
    FoundLasts(entries);
    hide Found, Paths, HasSuffix;
    forall path
      ensures path in Paths(Found(entries)) <==>
              exists e <- entries :: e.name == path && HasSuffix(path, ".ts") && !e.isDir && e.hasInfo
    {
      FoundPath(entries, path);
    }
  }

  // ---------- The order of names ----------

  lemma {:induction false} LessOrEqual(a: string, b: string)
    requires !Less(a, b) && !Less(b, a)
    ensures a == b
  {
    if a != "" && b != "" {
      LessOrEqual(a[1..], b[1..]);
      assert a == [a[0]] + a[1..] && b == [b[0]] + b[1..];
    }
  }

  lemma {:induction false} LessChain(a: string, b: string, c: string)
    requires !Less(b, a) && !Less(c, b)
    ensures !Less(c, a)
  {
    if Less(c, a) {
      if b != "" && c != "" && a[0] == b[0] == c[0] {
        LessChain(a[1..], b[1..], c[1..]);
      }
    }
  }

  lemma {:induction false} LessAsym(a: string, b: string)
    requires Less(a, b)
    ensures !Less(b, a)
  {
    if a != "" && a[0] == b[0] {
      LessAsym(a[1..], b[1..]);
    }
  }

  lemma FirstIsLeast(a: seq<string>, x: string)
    requires Sorted(a) && x in a
    ensures !Less(x, a[0])
  {
    if Less(x, a[0]) {
      LessAsym(x, a[0]);
      hide Less;
    }
  }

  lemma CountFirst(a: seq<string>)
    requires a != []
    ensures multiset(a) == multiset{a[0]} + multiset(a[1..])
  {
    assert a == [a[0]] + a[1..];
  }

  lemma SameFirst(a: seq<string>, b: seq<string>)
    requires Sorted(a) && Sorted(b) && multiset(a) == multiset(b) && a != [] && b != []
    ensures a[0] == b[0] && multiset(a[1..]) == multiset(b[1..])
  {
    assert a[0] in multiset(b) && b[0] in multiset(a);
    FirstIsLeast(a, b[0]);
    FirstIsLeast(b, a[0]);
    LessOrEqual(a[0], b[0]);
    hide Less, Sorted;
    CountFirst(a);
    CountFirst(b);
    assert multiset(a[1..]) == multiset(a) - multiset{a[0]};
  }

  // Sorting leaves no choice: two sorted lists of the same names are the same list.
  lemma {:induction false} SortedUnique(a: seq<string>, b: seq<string>)
    requires Sorted(a) && Sorted(b) && multiset(a) == multiset(b)
    ensures a == b
  {
    assert |multiset(a)| == |a| && |multiset(b)| == |b|;
    if a != [] {
      SameFirst(a, b);
      TailSorted(a);
      TailSorted(b);
      hide Less, Sorted;
      SortedUnique(a[1..], b[1..]);
      assert a == [a[0]] + a[1..] && b == [b[0]] + b[1..];
    }
  }

  lemma TailSorted(a: seq<string>)
    requires Sorted(a) && a != []
    ensures Sorted(a[1..])
  {
    hide Less;
  }

  // ---------- The sort ----------

  predicate NoneBefore(path: string, segments: seq<Segment>) {
    forall s <- segments :: !Less(s.path, path)
  }

  predicate Ordered(segments: seq<Segment>) {
    segments != [] ==> NoneBefore(segments[0].path, segments[1..]) && Ordered(segments[1..])
  }

  lemma {:induction false} InsertedBefore(path: string, segment: Segment, segments: seq<Segment>)
    requires NoneBefore(path, segments) && !Less(segment.path, path)
    ensures NoneBefore(path, Inserted(segment, segments))
  {
    hide Less;
    if segments != [] && Less(segments[0].path, segment.path) {
      InsertedBefore(path, segment, segments[1..]);
    }
  }

  lemma {:induction false} InsertedPaths(segment: Segment, segments: seq<Segment>)
    ensures multiset(Paths(Inserted(segment, segments))) == multiset{segment.path} + multiset(Paths(segments))
  {
    hide Less;
    if segments == [] || !Less(segments[0].path, segment.path) {
      assert ([segment] + segments)[1..] == segments;
    } else {
      InsertedPaths(segment, segments[1..]);
    }
  }

  lemma {:induction false} InsertedMembers(segment: Segment, segments: seq<Segment>)
    ensures forall s <- Inserted(segment, segments) :: s == segment || s in segments
  {
    hide Less;
    if segments != [] && Less(segments[0].path, segment.path) {
      InsertedMembers(segment, segments[1..]);
    }
  }

  lemma {:induction false} InsertedKeeps(segment: Segment, segments: seq<Segment>)
    requires Ordered(segments)
    ensures Ordered(Inserted(segment, segments))
  {
    hide Less;
    if segments == [] {
    } else if Less(segments[0].path, segment.path) {
      InsertedKeeps(segment, segments[1..]);
      LessAsym(segments[0].path, segment.path);
      InsertedBefore(segments[0].path, segment, segments[1..]);
    } else {
      forall s <- segments ensures !Less(s.path, segment.path) {
        if s != segments[0] {
          LessChain(segment.path, segments[0].path, s.path);
        }
      }
    }
  }

  lemma SortedByPathSorts(segments: seq<Segment>)
    ensures multiset(Paths(SortedByPath(segments))) == multiset(Paths(segments))
    ensures forall s <- SortedByPath(segments) :: s in segments
    ensures Sorted(Paths(SortedByPath(segments)))
  {
    SortedByPathOrders(segments);
    OrderedPaths(SortedByPath(segments));
  }

  lemma {:induction false} SortedByPathOrders(segments: seq<Segment>)
    ensures multiset(Paths(SortedByPath(segments))) == multiset(Paths(segments))
    ensures forall s <- SortedByPath(segments) :: s in segments
    ensures Ordered(SortedByPath(segments))
  {
    if segments != [] {
      SortedByPathOrders(segments[1..]);
      var sorted := SortedByPath(segments[1..]);
      InsertedKeeps(segments[0], sorted);
      InsertedPaths(segments[0], sorted);
      InsertedMembers(segments[0], sorted);
      hide Inserted, Ordered;
    }
  }

  lemma {:induction false} PathsAt(segments: seq<Segment>)
    ensures |Paths(segments)| == |segments|
    ensures forall i | 0 <= i < |segments| :: Paths(segments)[i] == segments[i].path
  {
    if segments != [] {
      PathsAt(segments[1..]);
    }
  }

  lemma {:induction false} OrderedPaths(segments: seq<Segment>)
    requires Ordered(segments)
    ensures Sorted(Paths(segments))
  {
    hide Less;
    if segments != [] {
      OrderedPaths(segments[1..]);
      PathsAt(segments);
      PathsAt(segments[1..]);
    }
  }

  // ---------- Numbered names ----------

  // segment_%03d.ts
  function Name(n: nat): string {
    "segment_" + Padded(n, 3) + ".ts"
  }

  function Names(count: nat): (r: seq<string>)
    ensures |r| == count
  {
    seq(count, n requires 0 <= n < count => Name(n))
  }

  lemma {:induction false} LessAfter(prefix: string, a: string, b: string)
    ensures Less(prefix + a, prefix + b) == Less(a, b)
  {
    if prefix == "" {
      assert prefix + a == a && prefix + b == b;
    } else {
      LessAfter(prefix[1..], a, b);
      assert (prefix + a)[1..] == prefix[1..] + a && (prefix + b)[1..] == prefix[1..] + b;
    }
  }

  lemma DecimalStep(n: nat)
    ensures Decimal(n) == if n < 10 then [DigitChar(n)] else Decimal(n / 10) + [DigitChar(n % 10)]
  {}

  lemma ZeroDigits()
    ensures Zeros(2) == [DigitChar(0), DigitChar(0)] && Zeros(1) == [DigitChar(0)]
  {}

  lemma ThreeDigits(h: nat, t: nat, u: nat)
    requires h < 10 && t < 10 && u < 10
    ensures Padded(100 * h + 10 * t + u, 3) == [DigitChar(h), DigitChar(t), DigitChar(u)]
  {
    hide Decimal, Zeros, DigitChar;
    ZeroDigits();
    DecimalStep(h);
    DecimalStep(10 * h + t);
    DecimalStep(100 * h + 10 * t + u);
    assert (10 * h + t) / 10 == h && (10 * h + t) % 10 == t;
    assert (100 * h + 10 * t + u) / 10 == 10 * h + t && (100 * h + 10 * t + u) % 10 == u;
  }

  lemma DigitOrder(x: nat, y: nat)
    requires x < 10 && y < 10
    ensures x < y <==> DigitChar(x) < DigitChar(y)
    ensures x == y <==> DigitChar(x) == DigitChar(y)
  {}

  // The digits of a number below 1000.
  lemma Digits(n: nat) returns (h: nat, t: nat, u: nat)
    requires n < 1000
    ensures h < 10 && t < 10 && u < 10 && n == 100 * h + 10 * t + u
  {
    h, t, u := n / 100, n / 10 % 10, n % 10;
  }

  lemma PaddedOrder(i: nat, j: nat)
    requires i < j < 1000
    ensures var a, b := Padded(i, 3), Padded(j, 3);
            && |a| == |b| == 3
            && (a[0] < b[0] || (a[0] == b[0] && (a[1] < b[1] || (a[1] == b[1] && a[2] < b[2]))))
  {
    hide Padded, DigitChar;
    var h, t, u := Digits(i);
    var k, v, w := Digits(j);
    ThreeDigits(h, t, u);
    ThreeDigits(k, v, w);
    DigitOrder(h, k);
    DigitOrder(t, v);
    DigitOrder(u, w);
  }

  lemma ThreeLess(a: string, b: string, rest: string)
    requires |a| == |b| == 3
    requires a[0] < b[0] || (a[0] == b[0] && (a[1] < b[1] || (a[1] == b[1] && a[2] < b[2])))
    ensures Less(a + rest, b + rest)
  {
    var x, y := a + rest, b + rest;
    assert x[1..][1..][0] == a[2] && y[1..][1..][0] == b[2];
    assert x[1..][0] == a[1] && y[1..][0] == b[1];
  }

  lemma NamesBelow1000(i: nat, j: nat)
    requires i < j < 1000
    ensures Less(Name(i), Name(j))
  {
    hide Padded, Less;
    var a, b := Padded(i, 3), Padded(j, 3);
    PaddedOrder(i, j);
    ThreeLess(a, b, ".ts");
    LessAfter("segment_", a + ".ts", b + ".ts");
    assert "segment_" + (a + ".ts") == Name(i) && "segment_" + (b + ".ts") == Name(j);
  }

  lemma {:induction false} Irreflexive(a: string)
    ensures !Less(a, a)
  {
    if a != "" {
      Irreflexive(a[1..]);
    }
  }

  lemma NamesSorted(count: nat)
    requires count <= 1000
    ensures Sorted(Names(count))
  {
    forall i, j | 0 <= i < j < count ensures !Less(Names(count)[j], Names(count)[i]) {
      NamesBelow1000(i, j);
      LessAsym(Name(i), Name(j));
    }
  }

  // The name after segment_999.ts sorts before it.
  lemma Overflow()
    ensures Less(Name(1000), Name(999))
  {
    ThreeDigits(9, 9, 9);
    var d := Decimal(1000);
    assert d == Decimal(100) + ['0'] && Decimal(100) == Decimal(10) + ['0'] && Decimal(10) == Decimal(1) + ['0'];
    assert Padded(1000, 3) == d && d[0] == '1';
    hide Padded, Decimal;
    LessAfter("segment_", d + ".ts", Padded(999, 3) + ".ts");
    assert "segment_" + (d + ".ts") == Name(1000) && "segment_" + (Padded(999, 3) + ".ts") == Name(999);
  }

  // Main result: the sort of the numbered names is their numeric order exactly while three digits suffice.
  lemma SortIsNumeric(count: nat, sorted: seq<string>)
    requires Sorted(sorted) && multiset(sorted) == multiset(Names(count))
    ensures sorted == Names(count) <==> count <= 1000
  {
    hide Less, Name;
    if count <= 1000 {
      NamesSorted(count);
      SortedUnique(sorted, Names(count));
    } else {
      Overflow();
      assert Names(count)[999] == Name(999) && Names(count)[1000] == Name(1000);
    }
  }

  lemma {:induction false} FoundLasts(entries: seq<Entry>)
    ensures forall s <- Found(entries) :: s.ms == 4000
  {
    if entries != [] {
      FoundLasts(entries[1..]);
    }
  }

  lemma {:induction false} LastsSum(segments: seq<Segment>)
    requires forall s <- segments :: s.ms == 4000
    ensures SumMs(segments) == 4000 * |segments|
  {
    if segments != [] {
      LastsSum(segments[1..]);
    }
  }

  // The names are read as the URIs they are.
  predicate PlainName(name: string) {
    UriLine(name) && OneLine(name) && NoInfo(name)
  }

  lemma NameIsPlain(n: nat)
    ensures PlainName(Name(n))
  {
    assert OneLine(Padded(n, 3));
    hide Padded;
    assert Name(n)[0] == 's' && Name(n)[|Name(n)| - 1] == 's';
  }

  lemma NamesArePlain(count: nat, name: string)
    requires name in Names(count)
    ensures PlainName(name)
  {
    hide PlainName, Name;
    var n :| 0 <= n < count && Names(count)[n] == name;
    NameIsPlain(n);
  }

  lemma NamedSegments(count: nat, segments: seq<Segment>)
    requires multiset(Paths(segments)) == multiset(Names(count))
    ensures |segments| == count
    ensures forall p <- Paths(segments) :: PlainName(p)
    ensures forall s <- segments :: PlainName(s.path)
  {
    hide PlainName, Paths;
    PathsAt(segments);
    var paths := Paths(segments);
    assert |multiset(paths)| == |paths| && |multiset(Names(count))| == count;
    forall i | 0 <= i < |paths| ensures PlainName(paths[i]) {
      assert paths[i] in multiset(Names(count));
      NamesArePlain(count, paths[i]);
    }
  }

  // Main result: the playlist built from a directory holding the segments 0 to count - 1, in whatever order
  // it lists them, plays them in order exactly when count is at most 1000; its duration is right in any case.
  lemma FallbackPlaylist(count: nat, entries: seq<Entry>, segments: seq<Segment>)
    requires multiset(Paths(Found(entries))) == multiset(Names(count))
    requires multiset(Paths(segments)) == multiset(Paths(Found(entries))) && Sorted(Paths(segments))
    requires forall s <- segments :: s in Found(entries)
    ensures var lines := Split(Unlines(PlaylistLines(segments, 4)), '\n');
            && (Uris(lines) == Names(count) <==> count <= 1000)
            && Total(lines) == Finite(4.0 * count as real)
  {
    hide Sorted, Found, Names, Split, Unlines, PlaylistLines, Uris, Total, Paths, UriLine, NoInfo, OneLine;
    SortIsNumeric(count, Paths(segments));
    NamedSegments(count, segments);
    FoundLasts(entries);
    LastsSum(segments);
    PrintedReads(segments, 4);
    UrisIff(Paths(segments));
  }

  // A file name has the extension .ts exactly when it ends in it.
  lemma {:induction false} ExtIsSuffix(name: string)
    ensures Ext(name) == TS <==> HasSuffix(name, TS)
  {
    ExtStep(name, ".t", 's');
    if name != "" {
      var upToT := name[..|name| - 1];
      ExtStep(upToT, ".", 't');
      if upToT != "" {
        ExtDot(upToT[..|upToT| - 1]);
      }
    }
  }

  lemma ExtStep(name: string, rest: string, c: char)
    requires c != '.' && c != '/' && rest != ""
    ensures Ext(name) == rest + [c] <==> name != "" && name[|name| - 1] == c && Ext(name[..|name| - 1]) == rest
  {
    if name != "" && Ext(name) == rest + [c] {
      var n := |name| - 1;
      assert name[n] != '/' && (name[n] == '.' ==> |rest + [c]| == 1);
      assert Ext(name)[..|Ext(name)| - 1] == Ext(name[..n]);
      assert (rest + [c])[..|rest|] == rest;
    }
  }

  lemma ExtDot(name: string)
    ensures Ext(name) == "." <==> name != "" && name[|name| - 1] == '.'
  {}
}
