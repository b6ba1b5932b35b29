/** The directory key of a transcode, printed and parsed in pkg/stream/stream.go. */
module TranscodeKey {
  import opened Options
  import opened Text
  import opened GoText

  const MARK := "_a"

  function Key(itemId: string, audioIndex: int): string {
    if audioIndex == 0 then itemId else itemId + MARK + Integer(audioIndex)
  }

  // The directory of the first track is the item's own; that of another adds its index.
  lemma KeyText(itemId: string, audioIndex: int)
    ensures Key(itemId, 0) == itemId
    ensures 0 < audioIndex < 10 ==> Key(itemId, audioIndex) == itemId + "_a" + [DigitChar(audioIndex)]
    ensures 10 <= audioIndex < 20 ==> Key(itemId, audioIndex) == itemId + "_a" + ['1', DigitChar(audioIndex - 10)]
  {
    if 10 <= audioIndex < 20 {
      assert audioIndex / 10 == 1 && audioIndex % 10 == audioIndex - 10;
      assert Decimal(1) == ['1'];
      assert Decimal(audioIndex) == ['1', DigitChar(audioIndex - 10)];
    }
  }

  // strings.LastIndex
  function LastIndex(s: string, sub: string): (i: int)
    ensures i >= 0 ==> i + |sub| <= |s| && s[i..i + |sub|] == sub
  {
    if HasSuffix(s, sub) then |s| - |sub|
    else if s == "" then -1
    else LastIndex(s[..|s| - 1], sub)
  }

  lemma LastIndexStep(s: string, sub: string)
    ensures HasSuffix(s, sub) ==> LastIndex(s, sub) == |s| - |sub|
    ensures !HasSuffix(s, sub) && s != "" ==> LastIndex(s, sub) == LastIndex(s[..|s| - 1], sub)
  {
    hide HasSuffix;
  }

  // The index found is the last one.
  lemma {:induction false} NothingLater(s: string, sub: string, j: nat)
    requires LastIndex(s, sub) < j && j + |sub| <= |s|
    ensures !HasSuffix(s[..j + |sub|], sub)
  {
    LastIndexStep(s, sub);
    hide HasSuffix, LastIndex;
    if j + |sub| == |s| {
      assert s[..|s|] == s;
    } else {
      NothingLater(s[..|s| - 1], sub, j);
      assert s[..|s| - 1][..j + |sub|] == s[..j + |sub|];
    }
  }

  // The white space that fmt.Sscanf skips before a number; a newline is an error.
  function SkipSpace(s: string): Option<string> {
    if s == "" || !IsSpace(s[0]) then Some(s)
    else if s[0] == '\n' then None
    else SkipSpace(s[1..])
  }

  // fmt.Sscanf with %d: what follows the digits is not looked at.
  function ScanInt(s: string): Option<int> {
    match SkipSpace(s)
    case None => None
    case Some(t) =>
      var digits := Unsigned(t);
      var n := DigitRun(digits);
      if n == 0 then None else Int64(Negative(t), Value(digits[..n]))
  }

  // Whether the key is taken for that of an audio track.
  predicate Indexed(key: string) {
    var i := LastIndex(key, MARK);
    i > 0 && ScanInt(key[i + |MARK|..]).Some?
  }

  function Parsed(key: string): (string, int) {
    if Indexed(key) then
      var i := LastIndex(key, MARK);
      (key[..i], ScanInt(key[i + |MARK|..]).value)
    else (key, 0)
  }

  // The parsing in handleListTranscodes.
  method ParseKey(key: string) returns (itemId: string, audioIdx: int)
    ensures (itemId, audioIdx) == Parsed(key)
  {
    itemId := key;
    audioIdx := 0;
    var i := LastIndex(key, MARK);
    if i > 0 {
      var n := ScanInt(key[i + |MARK|..]);
      if n.Some? {
        itemId := key[..i];
        audioIdx := n.value;
      }
    }
  }

  // ---------- Scanning a printed index ----------

  lemma ScanOfInteger(n: int)
    requires IsInt64(n)
    ensures ScanInt(Integer(n)) == Some(n)
  {
    IntegerParts(n);
    ValueOfDecimal(Magnitude(n));
    var d := Decimal(Magnitude(n));
    DigitRunOf(d, "");
    hide Decimal, Value, Integer, Unsigned, Negative, DigitRun, IsSpace;
    assert d + "" == d && d[..|d|] == d;
  }

  // The text reads as blanks up to i, a sign up to j, and the digits of n up to k.
  predicate ReadsAs(s: string, i: nat, j: nat, k: nat, n: int) {
    && i <= j < k <= |s| && j <= i + 1 && (j == i + 1 ==> s[i] in "+-")
    && (forall x | 0 <= x < i :: IsSpace(s[x]) && s[x] != '\n')
    && AllDigits(s[j..k]) && (k < |s| ==> !IsDigit(s[k]))
    && n == (if j > i && s[i] == '-' then 0 - Value(s[j..k]) else Value(s[j..k]))
  }

  lemma {:induction false} SkipsTo(s: string, i: nat)
    requires i <= |s| && (forall x | 0 <= x < i :: IsSpace(s[x]) && s[x] != '\n') && (i < |s| ==> !IsSpace(s[i]))
    ensures SkipSpace(s) == Some(s[i..])
  {
    if i > 0 {
      SkipsTo(s[1..], i - 1);
    }
  }

  lemma {:induction false} SkippedTo(s: string) returns (i: nat)
    requires SkipSpace(s).Some?
    ensures i <= |s| && SkipSpace(s).value == s[i..]
    ensures forall x | 0 <= x < i :: IsSpace(s[x]) && s[x] != '\n'
  {
    i := 0;
    if s != "" && IsSpace(s[0]) {
      var rest := SkippedTo(s[1..]);
      i := rest + 1;
      assert forall x | 0 < x < i :: s[x] == s[1..][x - 1];
    }
  }

  lemma ReadScans(s: string, i: nat, j: nat, k: nat, n: int)
    requires ReadsAs(s, i, j, k, n) && IsInt64(n)
    ensures ScanInt(s) == Some(n)
  {
    assert s[j] == s[j..k][0] && s[j] in s[j..k];
    var t := s[i..];
    assert IsDigit(s[j]);
    SkipsTo(s, i);
    assert Unsigned(t) == s[j..];
    assert s[j..] == s[j..k] + s[k..];
    DigitRunOf(s[j..k], s[k..]);
    assert s[j..][..k - j] == s[j..k];
    hide Value, DigitRun, IsSpace;
  }

  // The sign and the digits that the scan takes from a text without blanks in front.
  lemma NumberReads(t: string, j: nat, k: nat)
    requires j <= k <= |t| && t[j..] == Unsigned(t) && k == j + DigitRun(t[j..])
    requires k > j && Int64(Negative(t), Value(t[j..k])).Some?
    ensures ReadsAs(t, 0, j, k, Int64(Negative(t), Value(t[j..k])).value)
    ensures IsInt64(Int64(Negative(t), Value(t[j..k])).value)
  {
    hide Value, IsSpace, DigitRun, AllDigits;
    assert t[j..][..k - j] == t[j..k];
    assert |t| == j + |Unsigned(t)|;
  }

  lemma ReadsBehindBlanks(s: string, i: nat, j: nat, k: nat, n: int)
    requires i <= |s| && ReadsAs(s[i..], 0, j, k, n)
    requires forall x | 0 <= x < i :: IsSpace(s[x]) && s[x] != '\n'
    ensures ReadsAs(s, i, i + j, i + k, n)
  {
    hide Value, IsSpace, AllDigits;
    assert s[i..][j..k] == s[i + j..i + k];
  }

  // Where the digits of a scanned number are.
  lemma ScannedDigits(t: string) returns (j: nat, k: nat)
    requires DigitRun(Unsigned(t)) > 0
    ensures j < k <= |t| && t[j..] == Unsigned(t) && k == j + DigitRun(t[j..])
    ensures t[j..k] == Unsigned(t)[..DigitRun(Unsigned(t))]
  {
    hide DigitRun;
    j := |t| - |Unsigned(t)|;
    assert t[j..] == Unsigned(t);
    k := j + DigitRun(t[j..]);
    assert t[j..][..k - j] == t[j..k];
  }

  lemma ScanSkips(s: string)
    requires ScanInt(s).Some?
    ensures SkipSpace(s).Some?
  {}

  lemma ScanOf(s: string, t: string)
    requires ScanInt(s).Some? && SkipSpace(s) == Some(t)
    ensures DigitRun(Unsigned(t)) > 0
    ensures Int64(Negative(t), Value(Unsigned(t)[..DigitRun(Unsigned(t))])) == ScanInt(s)
  {
    hide SkipSpace, Value, Unsigned, Negative, DigitRun, Int64;
  }

  lemma ScanReads(s: string) returns (i: nat, j: nat, k: nat)
    requires ScanInt(s).Some?
    ensures ReadsAs(s, i, j, k, ScanInt(s).value) && IsInt64(ScanInt(s).value)
  {
    hide *;
    ScanSkips(s);
    i := SkippedTo(s);
    ScanOf(s, s[i..]);
    j, k := ScannedDigits(s[i..]);
    NumberReads(s[i..], j, k);
    ReadsBehindBlanks(s, i, j, k, ScanInt(s).value);
    j, k := i + j, i + k;
  }

  // The scan gives n exactly if the text starts, behind blanks other than newlines, with n, its sign perhaps.
  lemma ScanIff(s: string, n: int)
    ensures ScanInt(s) == Some(n) <==> IsInt64(n) && exists i, j, k :: ReadsAs(s, i, j, k, n)
  {
    hide ScanInt, ReadsAs;
    if ScanInt(s) == Some(n) {
      var i, j, k := ScanReads(s);
    }
    if IsInt64(n) && exists i, j, k :: ReadsAs(s, i, j, k, n) {
      var i, j, k :| ReadsAs(s, i, j, k, n);
      ReadScans(s, i, j, k, n);
    }
  }

  predicate Markless(s: string) {
    forall i | 0 <= i < |s| :: s[i] != '_'
  }

  lemma NotAtEnd(s: string)
    requires |s| >= 2 ==> s[|s| - 2] != '_'
    ensures !HasSuffix(s, MARK)
  {
    assert |s| >= 2 ==> s[|s| - 2..][0] == s[|s| - 2];
  }

  lemma {:induction false} NoMark(s: string)
    requires Markless(s)
    ensures LastIndex(s, MARK) == -1
  {
    if s != "" {
      NotAtEnd(s);
      NoMark(s[..|s| - 1]);
    }
  }

  lemma {:induction false} LastMark(itemId: string, tail: string)
    requires Markless(tail)
    ensures LastIndex(itemId + MARK + tail, MARK) == |itemId|
  {
    var s := itemId + MARK + tail;
    if tail == "" {
      assert s[|itemId|..] == MARK;
    } else {
      assert s[..|s| - 1] == itemId + MARK + tail[..|tail| - 1];
      LastMark(itemId, tail[..|tail| - 1]);
      assert s[|s| - 2] == if |tail| == 1 then 'a' else tail[|tail| - 2];
      NotAtEnd(s);
    }
  }

  lemma IntegerMarkless(n: int)
    ensures Markless(Integer(n))
  {
    var d := Decimal(Magnitude(n));
    forall i | 0 <= i < |d| ensures IsDigit(d[i]) {
      assert d[i] in d;
    }
    hide Decimal;
  }

  // ---------- Main results ----------

  // The parser recovers item and index exactly when: for a further audio track, the id is not empty; for the
  // first one, the id does not itself look like the key of a further track.
  lemma RoundTripIff(itemId: string, audioIndex: int)
    requires IsInt64(audioIndex)
    ensures Parsed(Key(itemId, audioIndex)) == (itemId, audioIndex)
       <==> if audioIndex == 0 then !Indexed(itemId) else itemId != ""
  {
    if audioIndex != 0 {
      var tail, key := Integer(audioIndex), Key(itemId, audioIndex);
      IntegerMarkless(audioIndex);
      LastMark(itemId, tail);
      ScanOfInteger(audioIndex);
      hide ScanInt, Integer, LastIndex;
      assert key[|itemId| + 2..] == tail && key[..|itemId|] == itemId;
    }
  }

  // An id without underscores, such as a UUID, is recovered with every audio index.
  lemma PlainIdsRoundTrip(itemId: string, audioIndex: int)
    requires itemId != "" && Markless(itemId) && IsInt64(audioIndex)
    ensures Parsed(Key(itemId, audioIndex)) == (itemId, audioIndex)
  {
    RoundTripIff(itemId, audioIndex);
    NoMark(itemId);
  }

  // Two requests share a directory exactly when they are the same, or when one is for the first track of an
  // item whose id is the key of the other.
  lemma SharedKeyIff(a: string, m: int, b: string, n: int)
    ensures Key(a, m) == Key(b, n)
       <==> (a, m) == (b, n) || (m == 0 && n != 0 && a == Key(b, n)) || (n == 0 && m != 0 && b == Key(a, m))
  {
    if Key(a, m) == Key(b, n) && m != 0 && n != 0 {
      var s, t := Integer(m), Integer(n);
      IntegerMarkless(m);
      IntegerMarkless(n);
      LastMark(a, s);
      LastMark(b, t);
      hide Integer, LastIndex;
      assert a == Key(a, m)[..|a|] && b == Key(b, n)[..|b|];
      assert s == Key(a, m)[|a| + 2..] && t == Key(b, n)[|b| + 2..];
      IntegerInjective(m, n);
    }
  }

  lemma PlainIdsNeverShare(a: string, m: int, b: string, n: int)
    requires Markless(a) && Markless(b) && (a, m) != (b, n)
    ensures Key(a, m) != Key(b, n)
  {
    SharedKeyIff(a, m, b, n);
    hide Integer;
    if n != 0 {
      assert Key(b, n)[|b|] == '_';
    }
    if m != 0 {
      assert Key(a, m)[|a|] == '_';
    }
  }
}
