/**
 The segment URLs of pkg/stream/stream.go, from the variant playlist that carries them to the handler that reads
 their query string.
 */
module StreamUrls {
  import opened Options
  import opened Text
  import opened GoText
  import opened Hls

  // ---------- Reading a URL, as net/url does ----------

  // strings.Cut
  function Cut(s: string, sep: char): (r: (string, string))
    ensures |r.0| <= |s| && |r.1| <= |s|
  {
    if s == "" then ("", "")
    else if s[0] == sep then ("", s[1..])
    else
      var (before, after) := Cut(s[1..], sep);
      ([s[0]] + before, after)
  }

  function PathOf(uri: string): string {
    Cut(Cut(uri, '#').0, '?').0
  }

  function QueryOf(uri: string): string {
    Cut(Cut(uri, '#').0, '?').1
  }

  function Prepend(c: char, s: Option<string>): Option<string> {
    match s case Some(t) => Some([c] + t) case None => None
  }

  // url.QueryUnescape
  function Unescape(s: string): Option<string> {
    if s == "" then Some("")
    else if s[0] == '%' then
      if |s| < 3 || HexDigit(s[1]) >= 16 || HexDigit(s[2]) >= 16 then None
      else Prepend((16 * HexDigit(s[1]) + HexDigit(s[2])) as char, Unescape(s[3..]))
    else Prepend(if s[0] == '+' then ' ' else s[0], Unescape(s[1..]))
  }

  // What one part of a query string gives for a parameter: nothing if it is malformed or another parameter's.
  function ValueIn(part: string, name: string): seq<string> {
    if part == "" || ';' in part then []
    else
      var (key, value) := Cut(part, '=');
      match (Unescape(key), Unescape(value))
      case (Some(k), Some(v)) => if k == name then [v] else []
      case _ => []
  }

  function ValuesIn(parts: seq<string>, name: string): seq<string> {
    if parts == [] then [] else ValueIn(parts[0], name) + ValuesIn(parts[1..], name)
  }

  // The first value of a query parameter, or nothing.
  function QueryParam(uri: string, name: string): string {
    var values := ValuesIn(Split(QueryOf(uri), '&'), name);
    if values == [] then "" else values[0]
  }

  // The audio track that the HLS handlers take from a request: the first for anything but 0 to 19.
  function AudioOf(uri: string): (n: nat)
    ensures n < 20
  {
    var ai := QueryParam(uri, "audio");
    if ai == "" then 0
    else match Atoi(ai) case Some(n) => if 0 <= n < 20 then n else 0 case None => 0
  }

  // ---------- Cutting ----------

  lemma {:induction false} CutAt(a: string, sep: char, b: string)
    requires sep !in a
    ensures Cut(a + [sep] + b, sep) == (a, b)
  {
    if a == "" {
      assert a + [sep] + b == [sep] + b;
    } else {
      CutAt(a[1..], sep, b);
      assert (a + [sep] + b)[1..] == a[1..] + [sep] + b && [a[0]] + a[1..] == a;
    }
  }

  lemma {:induction false} CutNone(a: string, sep: char)
    requires sep !in a
    ensures Cut(a, sep) == (a, "")
  {
    if a != "" {
      CutNone(a[1..], sep);
      assert [a[0]] + a[1..] == a;
    }
  }

  // The first part keeps what stands before its first separator.
  lemma {:induction false} CutConcat(a: string, b: string, sep: char)
    ensures sep !in a ==> Cut(a + b, sep).0 == a + Cut(b, sep).0
    ensures sep in a ==> Cut(a + b, sep).0 == Cut(a, sep).0 && |Cut(a, sep).0| < |a|
  {
    if a == "" {
      assert a + b == b;
    } else {
      CutConcat(a[1..], b, sep);
      assert (a + b)[1..] == a[1..] + b;
    }
  }

  lemma {:induction false} SplitHead(a: string, b: string, sep: char)
    requires sep !in a
    ensures Split(a + b, sep) == [a + Split(b, sep)[0]] + Split(b, sep)[1..]
  {
    if a == "" {
      assert a + b == b && a + Split(b, sep)[0] == Split(b, sep)[0];
    } else {
      SplitHead(a[1..], b, sep);
      assert (a + b)[1..] == a[1..] + b && [a[0]] + (a[1..] + Split(b, sep)[0]) == a + Split(b, sep)[0];
    }
  }

  lemma {:induction false} SplitTail(a: string, b: string, sep: char)
    requires sep !in b
    ensures Split(a + [sep] + b, sep) == Split(a, sep) + [b]
  {
    if a == "" {
      assert (a + [sep] + b)[1..] == b;
      SplitOne(b, sep);
    } else {
      SplitTail(a[1..], b, sep);
      assert (a + [sep] + b)[1..] == a[1..] + [sep] + b;
    }
  }

  // The parts of a text are not longer than it, and all shorter if there are several.
  lemma {:induction false} PartsAreShort(s: string, sep: char)
    ensures forall p <- Split(s, sep) :: |p| <= |s|
    ensures sep in s ==> |Split(s, sep)| > 1 && forall p <- Split(s, sep) :: |p| < |s|
  {
    if s != "" {
      PartsAreShort(s[1..], sep);
      if s[0] != sep && sep !in s[1..] {
        SplitOne(s[1..], sep);
      }
    }
  }

  // ---------- Unescaping ----------

  // A text stays as it is if and only if it has neither a plus nor a percent sign.
  lemma {:induction false} UnescapeIff(s: string)
    ensures Unescape(s).Some? ==> |Unescape(s).value| <= |s|
    ensures Unescape(s) == Some(s) <==> '+' !in s && '%' !in s
    ensures '%' in s && Unescape(s).Some? ==> |Unescape(s).value| < |s|
  {
    if s != "" {
      if s[0] == '%' {
        if |s| >= 3 {
          UnescapeIff(s[3..]);
        }
      } else {
        UnescapeIff(s[1..]);
        assert s == [s[0]] + s[1..];
      }
    }
  }

  // ---------- The parts of the suffix ----------

  lemma {:induction false} ValuesConcat(a: seq<string>, b: seq<string>, name: string)
    ensures ValuesIn(a + b, name) == ValuesIn(a, name) + ValuesIn(b, name)
  {
    hide ValueIn;
    if a == [] {
      assert a + b == b;
    } else {
      ValuesConcat(a[1..], b, name);
      assert (a + b)[1..] == a[1..] + b;
    }
  }

  lemma {:induction false} ValuesAreShort(parts: seq<string>, name: string, n: nat)
    requires forall p <- parts :: |p| <= n
    ensures forall v <- ValuesIn(parts, name) :: |v| <= n
  {
    if parts != [] {
      UnescapeIff(Cut(parts[0], '=').1);
      ValuesAreShort(parts[1..], name, n);
    }
  }

  // A part with a plain key.
  lemma PlainPart(key: string, value: string, name: string)
    requires forall c <- key :: c !in ";=+%"
    ensures ValueIn(key + "=" + value, name)
         == if ';' in value || Unescape(value).None? || key != name then [] else [Unescape(value).value]
  {
    CutAt(key, '=', value);
    UnescapeIff(key);
    assert ';' in key + "=" + value <==> ';' in value;
    hide Cut, Unescape;
  }

  // ---------- What a segment request carries ----------

  predicate PlainToken(token: string) {
    forall c <- token :: c !in "&;#+%"
  }

  // What follows the token in the suffix.
  function AudioPart(audioIndex: nat): string {
    if audioIndex > 0 then "&audio=" + Decimal(audioIndex) else ""
  }

  lemma DigitsArePlain(n: nat)
    ensures forall c <- Decimal(n) :: c !in "&;#+%?="
  {
    hide Decimal;
  }

  // What the server sees of the token and what follows it.
  function Visible(token: string, audioIndex: nat): string {
    Cut(token + AudioPart(audioIndex), '#').0
  }

  lemma VisibleParts(token: string, audioIndex: nat)
    ensures if '#' in token then |Visible(token, audioIndex)| < |token|
            else Visible(token, audioIndex) == token + AudioPart(audioIndex)
  {
    DigitsArePlain(audioIndex);
    hide Decimal, Cut;
    CutConcat(token, AudioPart(audioIndex), '#');
    CutNone(AudioPart(audioIndex), '#');
  }

  lemma QueryBehind(path: string, tail: string)
    requires '?' !in path && '#' !in path
    ensures PathOf(path + ['?'] + tail) == path && QueryOf(path + ['?'] + tail) == Cut(tail, '#').0
  {
    hide Cut;
    CutConcat(path + ['?'], tail, '#');
    CutAt(path, '?', Cut(tail, '#').0);
  }

  lemma SuffixText(token: string, audioIndex: nat)
    requires token != ""
    ensures UrlSuffix(token, audioIndex) == ['?'] + ("token=" + (token + AudioPart(audioIndex)))
  {
    hide Decimal;
  }

  // A URL with the suffix of a token: its path, and its query up to the fragment.
  lemma SuffixParts(path: string, token: string, audioIndex: nat)
    requires '?' !in path && '#' !in path && token != ""
    ensures var uri := path + UrlSuffix(token, audioIndex);
            PathOf(uri) == path && QueryOf(uri) == "token=" + Visible(token, audioIndex)
  {
    var rest := token + AudioPart(audioIndex);
    SuffixText(token, audioIndex);
    hide UrlSuffix, AudioPart, Cut, PathOf, QueryOf;
    Assoc(path, ['?'], "token=" + rest);
    QueryBehind(path, "token=" + rest);
    TokenVisible(rest);
  }

  lemma TokenVisible(rest: string)
    ensures Cut("token=" + rest, '#').0 == "token=" + Cut(rest, '#').0
  {
    hide Cut;
    CutConcat("token=", rest, '#');
  }

  // The query of a token without a fragment sign, as its parts.
  lemma QueryParts(token: string, audioIndex: nat)
    ensures var parts := Split("token=" + token + AudioPart(audioIndex), '&');
            var of := Split(token, '&');
            parts == ["token=" + of[0]] + of[1..]
                     + if audioIndex > 0 then ["audio=" + Decimal(audioIndex)] else []
  {
    DigitsArePlain(audioIndex);
    var audio := "audio=" + Decimal(audioIndex);
    hide Decimal, Split;
    SplitHead("token=", token, '&');
    if audioIndex > 0 {
      SplitTail("token=" + token, audio, '&');
      assert "token=" + token + AudioPart(audioIndex) == "token=" + token + ['&'] + audio;
    } else {
      assert "token=" + token + AudioPart(audioIndex) == "token=" + token;
    }
  }

  lemma TokenValue(value: string)
    ensures ValueIn("token=" + value, "audio") == []
    ensures ValueIn("token=" + value, "token")
         == if ';' in value || Unescape(value).None? then [] else [Unescape(value).value]
  {
    hide ValueIn, Unescape;
    assert "token" + "=" + value == "token=" + value;
    PlainPart("token", value, "token");
    PlainPart("token", value, "audio");
  }

  lemma AudioValue(n: nat)
    ensures ValueIn("audio=" + Decimal(n), "token") == [] && ValueIn("audio=" + Decimal(n), "audio") == [Decimal(n)]
  {
    DigitsArePlain(n);
    UnescapeIff(Decimal(n));
    hide ValueIn, Unescape, Decimal;
    assert "audio" + "=" + Decimal(n) == "audio=" + Decimal(n);
    PlainPart("audio", Decimal(n), "token");
    PlainPart("audio", Decimal(n), "audio");
  }

  // The values of the two parameters in a query without separators in the token.
  lemma PlainValues(token: string, audioIndex: nat)
    requires '&' !in token
    ensures var parts := Split("token=" + token + AudioPart(audioIndex), '&');
            && ValuesIn(parts, "token") == ValueIn("token=" + token, "token")
            && ValuesIn(parts, "audio") == if audioIndex > 0 then [Decimal(audioIndex)] else []
  {
    hide Decimal, Split, ValueIn, Unescape;
    QueryParts(token, audioIndex);
    SplitOne(token, '&');
    hide AudioPart;
    TokenValue(token);
    AudioValue(audioIndex);
    var first, audio := "token=" + token, "audio=" + Decimal(audioIndex);
    hide ValuesIn;
    if audioIndex > 0 {
      assert [first] + [] + [audio] == [first, audio];
      TwoValues(first, audio, "token");
      TwoValues(first, audio, "audio");
    } else {
      assert [first] + [] + [] == [first];
      OneValue(first, "token");
      OneValue(first, "audio");
    }
  }

  lemma OneValue(part: string, name: string)
    ensures ValuesIn([part], name) == ValueIn(part, name)
  {
    hide ValueIn;
    assert [part][1..] == [] && ValuesIn([], name) == [];
  }

  lemma TwoValues(a: string, b: string, name: string)
    ensures ValuesIn([a, b], name) == ValueIn(a, name) + ValueIn(b, name)
  {
    OneValue(a, name);
    OneValue(b, name);
    hide ValueIn;
    ValuesConcat([a], [b], name);
    assert [a] + [b] == [a, b];
  }

  // In a query whose parts are short no value is the whole token.
  lemma TokenIsLost(parts: seq<string>, last: seq<string>, token: string)
    requires parts != [] && (forall p <- parts :: |p| < |token|) && ValuesIn(last, "token") == []
    ensures token !in ValuesIn(["token=" + parts[0]] + parts[1..] + last, "token")
  {
    hide ValueIn, ValuesIn, Unescape;
    var first := ["token=" + parts[0]];
    ValuesConcat(first + parts[1..], last, "token");
    ValuesConcat(first, parts[1..], "token");
    OneValue("token=" + parts[0], "token");
    TokenValue(parts[0]);
    UnescapeIff(parts[0]);
    ValuesAreShort(parts[1..], "token", |token| - 1);
  }

  // A token with a separator or a fragment sign is not read back.
  lemma SeparatorLosesToken(path: string, token: string, audioIndex: nat)
    requires '?' !in path && '#' !in path && ('#' in token || '&' in token)
    ensures QueryParam(path + UrlSuffix(token, audioIndex), "token") != token
  {
    hide Split, Unescape, ValueIn, ValuesIn, PathOf, QueryOf, UrlSuffix, Decimal;
    var uri := path + UrlSuffix(token, audioIndex);
    SuffixParts(path, token, audioIndex);
    VisibleParts(token, audioIndex);
    hide Visible;
    if '#' in token {
      var t := Visible(token, audioIndex);
      SplitHead("token=", t, '&');
      PartsAreShort(t, '&');
      EmptyValues();
      TokenIsLost(Split(t, '&'), [], token);
      assert ["token=" + Split(t, '&')[0]] + Split(t, '&')[1..] + [] == Split("token=" + t, '&');
    } else {
      assert "token=" + (token + AudioPart(audioIndex)) == "token=" + token + AudioPart(audioIndex);
      QueryParts(token, audioIndex);
      PartsAreShort(token, '&');
      AudioValue(audioIndex);
      OneValue("audio=" + Decimal(audioIndex), "token");
      EmptyValues();
      TokenIsLost(Split(token, '&'), if audioIndex > 0 then ["audio=" + Decimal(audioIndex)] else [], token);
    }
  }

  lemma EmptyValues()
    ensures ValuesIn([], "token") == [] && ValuesIn([""], "token") == ValuesIn([""], "audio") == []
  {
    OneValue("", "token");
    OneValue("", "audio");
  }

  lemma NoToken(path: string, audioIndex: nat)
    requires '?' !in path && '#' !in path
    ensures var uri := path + UrlSuffix("", audioIndex);
            && PathOf(uri) == path && QueryParam(uri, "token") == ""
            && AudioOf(uri) == if audioIndex < 20 then audioIndex else 0
  {
    hide Decimal, Cut, Split, ValueIn, ValuesIn, Atoi;
    if audioIndex > 0 {
      AudioOnly(path, audioIndex);
      AudioReads(audioIndex);
    } else {
      assert path + UrlSuffix("", audioIndex) == path;
      CutNone(path, '#');
      CutNone(path, '?');
      SplitOne("", '&');
      EmptyValues();
    }
  }

  lemma AudioOnly(path: string, audioIndex: nat)
    requires '?' !in path && '#' !in path && audioIndex > 0
    ensures var uri := path + UrlSuffix("", audioIndex);
            && PathOf(uri) == path
            && ValuesIn(Split(QueryOf(uri), '&'), "token") == []
            && ValuesIn(Split(QueryOf(uri), '&'), "audio") == [Decimal(audioIndex)]
  {
    var uri, audio := path + UrlSuffix("", audioIndex), "audio=" + Decimal(audioIndex);
    DigitsArePlain(audioIndex);
    hide Decimal, Cut, Split, ValueIn, ValuesIn;
    assert uri == path + ['?'] + audio;
    hide UrlSuffix;
    CutNone(uri, '#');
    CutAt(path, '?', audio);
    SplitOne(audio, '&');
    AudioValue(audioIndex);
    OneValue(audio, "token");
    OneValue(audio, "audio");
  }

  lemma AudioReads(n: nat)
    ensures Decimal(n) != "" && (n < 20 ==> Atoi(Decimal(n)) == Some(n))
    ensures match Atoi(Decimal(n)) case Some(m) => m == n case None => n >= 20
  {
    assert Integer(n) == Decimal(n);
    if IsInt64(n) {
      AtoiOfInteger(n);
    } else {
      IntegerParts(n);
      ValueOfDecimal(n);
    }
  }

  // A token without a separator or a fragment sign.
  lemma TokenReads(path: string, token: string, audioIndex: nat)
    requires '?' !in path && '#' !in path && '#' !in token && '&' !in token && token != ""
    ensures var uri := path + UrlSuffix(token, audioIndex);
            && (QueryParam(uri, "token") == token <==> PlainToken(token))
            && AudioOf(uri) == if audioIndex < 20 then audioIndex else 0
  {
    hide Split, Unescape, ValueIn, ValuesIn, PathOf, QueryOf, UrlSuffix, Decimal, AudioPart, Atoi;
    SuffixParts(path, token, audioIndex);
    VisibleParts(token, audioIndex);
    hide Visible;
    assert "token=" + (token + AudioPart(audioIndex)) == "token=" + token + AudioPart(audioIndex);
    PlainValues(token, audioIndex);
    TokenValue(token);
    UnescapeIff(token);
    AudioReads(audioIndex);
  }

  // Main result: a segment URL leads to the segment's path, and its query string gives back the token exactly if
  // the token has none of the characters that mean something in a query; then, or if only percent and plus signs
  // and semicolons change it, it gives back the audio track the handlers accept.
  lemma SegmentUrlReads(path: string, token: string, audioIndex: nat)
    requires '?' !in path && '#' !in path
    ensures var uri := path + UrlSuffix(token, audioIndex);
            && PathOf(uri) == path
            && (QueryParam(uri, "token") == token <==> forall c <- token :: c !in "&;#+%")
            && ('#' !in token && '&' !in token ==> AudioOf(uri) == if audioIndex < 20 then audioIndex else 0)
  {
    hide PathOf, QueryParam, UrlSuffix, AudioOf;
    if token == "" {
      NoToken(path, audioIndex);
    } else {
      SuffixParts(path, token, audioIndex);
      if '#' in token || '&' in token {
        SeparatorLosesToken(path, token, audioIndex);
      } else {
        TokenReads(path, token, audioIndex);
      }
    }
  }

  lemma {:induction false} CutLacks(s: string, sep: char)
    ensures sep !in Cut(s, sep).0 && forall c <- Cut(s, sep).0 :: c in s
  {
    if s != "" && s[0] != sep {
      CutLacks(s[1..], sep);
    }
  }

  // The path of the URL is the segment's if and only if it has no character that ends a path.
  lemma PathIff(path: string, token: string, audioIndex: nat)
    ensures PathOf(path + UrlSuffix(token, audioIndex)) == path <==> '?' !in path && '#' !in path
  {
    var uri := path + UrlSuffix(token, audioIndex);
    if '?' !in path && '#' !in path {
      SegmentUrlReads(path, token, audioIndex);
    } else {
      hide Cut, UrlSuffix;
      CutLacks(uri, '#');
      CutLacks(Cut(uri, '#').0, '?');
    }
  }

  // Main result: in the playlist as it is served, for a plain token and a track the handlers accept, the URIs are
  // requests for the segments in order, each announced with its duration and carrying this token and this track.
  lemma ServedSegments(segments: seq<Segment>, target: int, token: string, audioIndex: nat)
    requires Named(segments) && audioIndex < 20
    requires forall s <- segments :: '?' !in s.path && '#' !in s.path
    requires forall c <- token :: c !in "&;#+%\r\n"
    ensures var playlist := Tagged(Unlines(PlaylistLines(segments, target)), UrlSuffix(token, audioIndex));
            var entries := Entries(Split(playlist, '\n'), Finite(0.0));
            && |entries| == |segments|
            && forall i | 0 <= i < |segments| ::
                 var (duration, uri) := entries[i];
                 && duration == Finite(segments[i].ms as real / 1000.0)
                 && PathOf(uri) == segments[i].path && QueryParam(uri, "token") == token && AudioOf(uri) == audioIndex
  {
    var suffix := UrlSuffix(token, audioIndex);
    NoReturn(token, audioIndex);
    assert forall s <- segments :: s.path[0] in s.path;
    EntriesSurvive(segments, target, token, audioIndex);
    hide Entries, Split, Tagged, Unlines, PlaylistLines, UrlSuffix, QueryParam, PathOf, AudioOf, HasSuffix;
    forall i | 0 <= i < |segments|
      ensures var uri := segments[i].path + suffix;
              PathOf(uri) == segments[i].path && QueryParam(uri, "token") == token && AudioOf(uri) == audioIndex
    {
      SegmentUrlReads(segments[i].path, token, audioIndex);
    }
  }

  lemma NoReturn(token: string, audioIndex: nat)
    requires forall c <- token :: c !in "&;#+%\r\n"
    ensures !HasSuffix(UrlSuffix(token, audioIndex), "\r") && OneLine(token)
  {
    var d, suffix := Decimal(audioIndex), UrlSuffix(token, audioIndex);
    assert d[|d| - 1] in d && (token != "" ==> token[|token| - 1] in token);
    hide Decimal;
    if suffix != "" {
      assert suffix[|suffix| - 1] == if audioIndex > 0 then d[|d| - 1] else token[|token| - 1];
    }
  }
}
