/**
 The smart-playlist compiler of pkg/smartplaylists/smartplaylists.go: rules become the text of a
 WHERE condition with positional arguments.  `Sql` says independently what such a text means.
 */
module Sql {
  import opened Options
  import opened Text

  datatype Arg = TextArg(text: string) | IntArg(number: int)

  // The columns of a row of items that rules compare as text; `complete` says that none of the
  // other nullable columns of the row is NULL.
  datatype Row = Row(name: string, mediaType: string, container: Option<string>, complete: bool)

  const TEXT_COLUMNS := {"name", "media_type", "container"}
  const NUMERIC_COLUMNS := {"duration_seconds", "width", "height", "size_bytes"}

  // The binary operators of SQLite.
  const OPERATORS := {"=", "==", "!=", "<>", "<", "<=", ">", ">=", "LIKE", "GLOB", "MATCH", "REGEXP", "IS",
                      "AND", "OR", "||", "+", "-", "*", "/", "%", "&", "|", "<<", ">>", "->", "->>"}

  // column op ?, with the position of its placeholder.
  datatype Condition = Condition(column: string, op: string, placeholder: nat)

  datatype Statement = Statement(conditions: seq<Condition>, limit: nat)

  // Everything up to the condition.
  const SELECT :=
    "SELECT id, library_id, path, name, media_type, container, size_bytes, duration_seconds, width, height, "
    + "video_codec, audio_codec, created_at FROM items WHERE "

  // "AND" column op "?" ... "LIMIT" "?", where the first placeholder of `tokens` is number n.
  function ParseTail(tokens: seq<string>, n: nat): Option<Statement> {
    if tokens == ["LIMIT", "?"] then Some(Statement([], n))
    else if |tokens| >= 4 && tokens[0] == "AND" && tokens[1] in TEXT_COLUMNS + NUMERIC_COLUMNS
            && tokens[2] in OPERATORS && tokens[3] == "?" then
      match ParseTail(tokens[4..], n + 1)
      case None => None
      case Some(st) => Some(Statement([Condition(tokens[1], tokens[2], n)] + st.conditions, st.limit))
    else None
  }

  function Parse(query: string): Option<Statement> {
    if !HasPrefix(query, SELECT) then None
    else
      var tokens := Split(query[|SELECT|..], ' ');
      if tokens[0] == "1=1" then ParseTail(tokens[1..], 0) else None
  }

  function Fold(c: char): char {
    if 'A' <= c <= 'Z' then (c as int + 32) as char else c
  }

  predicate Like(pattern: string, text: string)
    decreases |pattern| + |text|
  {
    if pattern == "" then text == ""
    else if pattern[0] == '%' then Like(pattern[1..], text) || (text != "" && Like(pattern, text[1..]))
    else text != "" && (pattern[0] == '_' || Fold(pattern[0]) == Fold(text[0])) && Like(pattern[1..], text[1..])
  }

  function Cell(row: Row, column: string): Option<string> {
    if column == "name" then Some(row.name)
    else if column == "media_type" then Some(row.mediaType)
    else if column == "container" then row.container
    else None
  }

  // A comparison with NULL is not true.
  predicate Holds(row: Row, c: Condition, args: seq<Arg>) {
    && c.placeholder < |args| && args[c.placeholder].TextArg?
    && Cell(row, c.column).Some?
    && var cell, arg := Cell(row, c.column).value, args[c.placeholder].text;
    && (c.op == "=" ==> cell == arg)
    && (c.op == "!=" ==> cell != arg)
    && (c.op == "LIKE" ==> Like(arg, cell))
  }

  predicate InFragment(st: Statement) {
    forall c <- st.conditions :: c.column in TEXT_COLUMNS && c.op in {"=", "!=", "LIKE"}
  }

  predicate AllHold(row: Row, conditions: seq<Condition>, args: seq<Arg>) {
    conditions == [] || (Holds(row, conditions[0], args) && AllHold(row, conditions[1..], args))
  }

  function Select(rows: seq<Row>, conditions: seq<Condition>, args: seq<Arg>): seq<Row> {
    if rows == [] then []
    else (if AllHold(rows[0], conditions, args) then [rows[0]] else []) + Select(rows[1..], conditions, args)
  }

  // LIMIT n; a negative n is no limit.
  function Limited(rows: seq<Row>, n: int): seq<Row> {
    if 0 <= n < |rows| then rows[..n] else rows
  }

  // The rows a query returns, in the order the table is scanned.
  function Query(rows: seq<Row>, query: string, args: seq<Arg>): Option<seq<Row>> {
    match Parse(query)
    case None => None
    case Some(st) =>
      if InFragment(st) && |args| == st.limit + 1 && args[st.limit].IntArg? then
        Some(Limited(Select(rows, st.conditions, args), args[st.limit].number))
      else None
  }
}

module SmartPlaylist {
  import opened Options
  import opened Text
  import opened Sql

  datatype Rule = Rule(field: string, op: string, value: string)

  // The only letters outside ASCII whose lower (upper) case is an ASCII letter are listed.
  function LowerChar(c: char): char {
    if 'A' <= c <= 'Z' then (c as int + 32) as char
    else if c == '\U{130}' then 'i'
    else if c == '\U{212A}' then 'k'
    else c
  }

  function UpperChar(c: char): char {
    if 'a' <= c <= 'z' then (c as int - 32) as char
    else if c == '\U{131}' then 'I'
    else if c == '\U{17F}' then 'S'
    else c
  }

  function ToLower(s: string): string {
    seq(|s|, i requires 0 <= i < |s| => LowerChar(s[i]))
  }

  function ToUpper(s: string): string {
    seq(|s|, i requires 0 <= i < |s| => UpperChar(s[i]))
  }

  function BuildStringClause(field: string, op: string, value: string): (string, seq<string>) {
    var lower := ToLower(op);
    if lower == "eq" then (field + " = ?", [value])
    else if lower == "ne" then (field + " != ?", [value])
    else if lower == "contains" then (field + " LIKE ?", ["%" + value + "%"])
    else ("", [])
  }

  function BuildNumericClause(field: string, op: string, value: string): (string, seq<string>) {
    (field + " " + ToUpper(op) + " ?", [value])
  }

  function BuildRuleClause(r: Rule): (string, seq<string>) {
    var field := ToLower(r.field);
    if field == "name" then BuildStringClause("name", r.op, r.value)
    else if field == "media_type" then BuildStringClause("media_type", r.op, r.value)
    else if field == "container" then BuildStringClause("container", r.op, r.value)
    else if field == "duration" then BuildNumericClause("duration_seconds", r.op, r.value)
    else if field == "width" then BuildNumericClause("width", r.op, r.value)
    else if field == "height" then BuildNumericClause("height", r.op, r.value)
    else if field == "size" then BuildNumericClause("size_bytes", r.op, r.value)
    else ("", [])
  }

  // What the loop appends for the rules, from left to right.
  function Clauses(rules: seq<Rule>): string {
    if rules == [] then ""
    else
      var clause := BuildRuleClause(rules[0]).0;
      (if clause != "" then " AND " + clause else "") + Clauses(rules[1..])
  }

  function TextArgs(vals: seq<string>): seq<Arg> {
    seq(|vals|, i requires 0 <= i < |vals| => TextArg(vals[i]))
  }

  function Arguments(rules: seq<Rule>): seq<Arg> {
    if rules == [] then []
    else
      var (clause, vals) := BuildRuleClause(rules[0]);
      (if clause != "" then TextArgs(vals) else []) + Arguments(rules[1..])
  }

  function QueryText(rules: seq<Rule>): string {
    SELECT + "1=1" + Clauses(rules) + " LIMIT ?"
  }

  // What one rule appends to the query and to the arguments.
  function Piece(r: Rule): (string, seq<Arg>) {
    var (clause, vals) := BuildRuleClause(r);
    if clause != "" then (" AND " + clause, TextArgs(vals)) else ("", [])
  }

  lemma AppendedAt(rules: seq<Rule>, i: nat, start: string, built: string, args: seq<Arg>)
    requires i < |rules|
    ensures (start + built) + Piece(rules[i]).0 == start + (built + Piece(rules[i]).0)
    ensures built + Clauses(rules[i..]) == (built + Piece(rules[i]).0) + Clauses(rules[i + 1..])
    ensures args + Arguments(rules[i..]) == (args + Piece(rules[i]).1) + Arguments(rules[i + 1..])
  {
    hide BuildRuleClause, TextArgs;
    assert rules[i..][0] == rules[i] && rules[i..][1..] == rules[i + 1..];
    assert Clauses(rules[i..]) == Piece(rules[i]).0 + Clauses(rules[i + 1..]);
    assert Arguments(rules[i..]) == Piece(rules[i]).1 + Arguments(rules[i + 1..]);
    hide Clauses, Arguments, Piece;
    Assoc(start, built, Piece(rules[i]).0);
    Assoc(built, Piece(rules[i]).0, Clauses(rules[i + 1..]));
    Assoc(args, Piece(rules[i]).1, Arguments(rules[i + 1..]));
  }

  // The loop of EvaluateSmartPlaylist.
  method AppendClauses(start: string, rules: seq<Rule>) returns (query: string, args: seq<Arg>)
    ensures query == start + Clauses(rules)
    ensures args == Arguments(rules)
  {
    hide BuildRuleClause, TextArgs, Clauses, Arguments;
    query, args := start, [];
    ghost var built := "";
    Ends(rules);
    for i := 0 to |rules|
      invariant query == start + built && built + Clauses(rules[i..]) == Clauses(rules)
      invariant args + Arguments(rules[i..]) == Arguments(rules)
    {
      AppendedAt(rules, i, start, built, args);
      built := built + Piece(rules[i]).0;
      var (clause, vals) := BuildRuleClause(rules[i]);
      if clause != "" {
        query := query + (" AND " + clause);
        args := args + TextArgs(vals);
      }
    }
  }

  lemma Ends(rules: seq<Rule>)
    ensures rules[0..] == rules && Clauses(rules[|rules|..]) == "" && Arguments(rules[|rules|..]) == []
  {}

  method BuildQuery(rules: seq<Rule>, limit: int) returns (query: string, args: seq<Arg>)
    ensures query == QueryText(rules)
    ensures args == Arguments(rules) + [IntArg(limit)]
    ensures HasPrefix(query,
              "SELECT id, library_id, path, name, media_type, container, size_bytes, duration_seconds, width, height, "
              + "video_codec, audio_codec, created_at FROM items WHERE " + "1=1")
  {
    hide Clauses, Arguments;
    query, args := AppendClauses(SELECT + "1=1", rules);
    query := query + " LIMIT ?";
    args := args + [IntArg(limit)];
  }

  // ---------- What the rules mean ----------

  function TextColumn(field: string): Option<string> {
    if ToLower(field) in TEXT_COLUMNS then Some(ToLower(field)) else None
  }

  predicate Numeric(r: Rule) {
    ToLower(r.field) in {"duration", "width", "height", "size"}
  }

  predicate Recognised(r: Rule) {
    TextColumn(r.field).Some? && ToLower(r.op) in {"eq", "ne", "contains"}
  }

  predicate FoldedAt(text: string, v: string, k: nat) {
    k + |v| <= |text| && forall i | 0 <= i < |v| :: Fold(text[k + i]) == Fold(v[i])
  }

  // `v` occurs in `text`, ASCII letters in either case.
  ghost predicate Includes(text: string, v: string) {
    exists k: nat :: FoldedAt(text, v, k)
  }

  // Some part of the text matches `v`, where `%` and `_` in it are wildcards.
  ghost predicate Somewhere(text: string, v: string) {
    exists i, j | 0 <= i <= j <= |text| :: Like(v, text[i..j])
  }

  ghost predicate Satisfies(row: Row, r: Rule)
    requires Recognised(r)
  {
    && Cell(row, TextColumn(r.field).value).Some?
    && var cell := Cell(row, TextColumn(r.field).value).value;
    && (ToLower(r.op) == "eq" ==> cell == r.value)
    && (ToLower(r.op) == "ne" ==> cell != r.value)
    && (ToLower(r.op) == "contains" ==> Somewhere(cell, r.value))
  }

  ghost predicate Belongs(row: Row, rules: seq<Rule>) {
    forall r <- rules | Recognised(r) :: Satisfies(row, r)
  }

  ghost function Matching(rows: seq<Row>, rules: seq<Rule>): seq<Row> {
    if rows == [] then []
    else (if Belongs(rows[0], rules) then [rows[0]] else []) + Matching(rows[1..], rules)
  }

  // ---------- LIKE '%v%' ----------

  predicate Plain(v: string) {
    '%' !in v && '_' !in v
  }

  lemma {:induction false} AnySuffix(text: string)
    ensures Like("%", text)
  {
    if text != "" {
      AnySuffix(text[1..]);
    }
  }

  lemma {:induction false} PlainPrefix(v: string, text: string)
    requires Plain(v)
    ensures Like(v + "%", text) <==> FoldedAt(text, v, 0)
  {
    var pattern := v + "%";
    if v == "" {
      assert pattern == "%";
      AnySuffix(text);
    } else {
      assert pattern[0] == v[0] && pattern[1..] == v[1..] + "%";
      assert v[0] in v && v[0] != '%' && v[0] != '_';
      if text != "" {
        PlainPrefix(v[1..], text[1..]);
        hide Fold;
        assert FoldedAt(text, v, 0) <==> Fold(text[0]) == Fold(v[0]) && FoldedAt(text[1..], v[1..], 0);
      }
    }
  }

  // LIKE with a plain value between percent signs is a case-insensitive substring test.
  lemma {:induction false} LikeIsIncludes(v: string, text: string)
    requires Plain(v)
    ensures Like("%" + v + "%", text) <==> Includes(text, v)
    decreases |text|
  {
    var pattern := "%" + v + "%";
    assert pattern[1..] == v + "%" && pattern[0] == '%';
    PlainPrefix(v, text);
    if text != "" {
      LikeIsIncludes(v, text[1..]);
      hide Fold;
      if Includes(text[1..], v) {
        var k: nat :| FoldedAt(text[1..], v, k);
        assert FoldedAt(text, v, k + 1);
      }
      if Includes(text, v) && !FoldedAt(text, v, 0) {
        var k: nat :| FoldedAt(text, v, k);
        assert FoldedAt(text[1..], v, k - 1);
      }
    }
  }

  // ---------- LIKE with wildcards in the value ----------

  lemma LikeStep(p: string, text: string)
    requires p != ""
    ensures Like(p, text)
       <==> if p[0] == '%' then Like(p[1..], text) || (text != "" && Like(p, text[1..]))
            else text != "" && (p[0] == '_' || Fold(p[0]) == Fold(text[0])) && Like(p[1..], text[1..])
  {}

  // A pattern followed by a percent sign matches what starts with a match of the pattern.
  lemma {:induction false} PrefixThenAny(v: string, text: string, j: nat)
    requires j <= |text| && Like(v, text[..j])
    ensures Like(v + "%", text)
    decreases |v| + |text|
  {
    if v == "" {
      assert v + "%" == "%";
      AnySuffix(text);
    } else {
      assert (v + "%")[0] == v[0] && (v + "%")[1..] == v[1..] + "%";
      LikeStep(v, text[..j]);
      LikeStep(v + "%", text);
      assert j > 0 ==> text[..j][1..] == text[1..][..j - 1];
      hide Like, Fold;
      if v[0] == '%' && Like(v[1..], text[..j]) {
        PrefixThenAny(v[1..], text, j);
      } else {
        PrefixThenAny(if v[0] == '%' then v else v[1..], text[1..], j - 1);
      }
    }
  }

  lemma {:induction false} AnyThenPrefix(v: string, text: string) returns (j: nat)
    requires Like(v + "%", text)
    ensures j <= |text| && Like(v, text[..j])
    decreases |v| + |text|
  {
    if v == "" {
      j := 0;
    } else {
      assert (v + "%")[0] == v[0] && (v + "%")[1..] == v[1..] + "%";
      LikeStep(v + "%", text);
      if v[0] == '%' && Like(v[1..] + "%", text) {
        j := AnyThenPrefix(v[1..], text);
        LikeStep(v, text[..j]);
      } else {
        var k := AnyThenPrefix(if v[0] == '%' then v else v[1..], text[1..]);
        j := k + 1;
        LikeStep(v, text[..j]);
        assert text[..j][1..] == text[1..][..k];
      }
    }
  }

  lemma {:induction false} PartIsLike(v: string, text: string, i: nat, j: nat)
    requires i <= j <= |text| && Like(v, text[i..j])
    ensures Like("%" + v + "%", text)
    decreases |text|
  {
    var p := "%" + v + "%";
    assert p[1..] == v + "%" && p[0] == '%';
    LikeStep(p, text);
    hide Like;
    if i == 0 {
      assert text[0..j] == text[..j];
      PrefixThenAny(v, text, j);
    } else {
      assert text[i..j] == text[1..][i - 1..j - 1];
      PartIsLike(v, text[1..], i - 1, j - 1);
    }
  }

  lemma {:induction false} LikeIsPart(v: string, text: string) returns (i: nat, j: nat)
    requires Like("%" + v + "%", text)
    ensures i <= j <= |text| && Like(v, text[i..j])
    decreases |text|
  {
    var p := "%" + v + "%";
    assert p[1..] == v + "%" && p[0] == '%';
    LikeStep(p, text);
    hide Like;
    if Like(v + "%", text) {
      i := 0;
      j := AnyThenPrefix(v, text);
      assert text[0..j] == text[..j];
    } else {
      i, j := LikeIsPart(v, text[1..]);
      assert text[1..][i..j] == text[i + 1..j + 1];
      i, j := i + 1, j + 1;
    }
  }

  // For every value: between percent signs it matches the texts of which some part matches it.
  lemma LikeIsSomewhere(v: string, text: string)
    ensures Like("%" + v + "%", text) <==> Somewhere(text, v)
  {
    if Like("%" + v + "%", text) {
      var i, j := LikeIsPart(v, text);
    }
    if Somewhere(text, v) {
      var i, j :| 0 <= i <= j <= |text| && Like(v, text[i..j]);
      PartIsLike(v, text, i, j);
    }
  }

  // A text that LIKE matches although it does not contain the value.
  function Decoy(v: string): (w: string)
    ensures |w| == |v|
  {
    seq(|v|, i requires 0 <= i < |v| => if v[i] == '%' || v[i] == '_' then 'x' else v[i])
  }

  lemma {:induction false} LikeMatchesDecoy(v: string)
    ensures Like(v + "%", Decoy(v))
  {
    if v == "" {
      assert v + "%" == "%";
      AnySuffix("");
    } else {
      LikeMatchesDecoy(v[1..]);
      assert (v + "%")[1..] == v[1..] + "%" && Decoy(v)[1..] == Decoy(v[1..]);
      assert (v + "%")[0] == v[0];
      if v[0] == '%' {
        LikeSkipsPercent(v[1..] + "%", Decoy(v));
      }
    }
  }

  lemma LikeSkipsPercent(pattern: string, text: string)
    requires text != "" && Like(pattern, text[1..])
    ensures Like("%" + pattern, text)
  {
    assert ("%" + pattern)[1..] == pattern;
  }

  lemma DecoyExcludes(v: string)
    requires !Plain(v)
    ensures !Includes(Decoy(v), v)
  {
    var i :| 0 <= i < |v| && (v[i] == '%' || v[i] == '_');
    forall k: nat ensures !FoldedAt(Decoy(v), v, k) {
      assert k == 0 ==> Fold(Decoy(v)[k + i]) != Fold(v[i]);
    }
  }

  // Main result: a contains rule means substring, on every text, exactly when its value has
  // neither of LIKE's wildcards.
  lemma ContainsMeansSubstringIff(v: string)
    ensures (forall text :: Like("%" + v + "%", text) <==> Includes(text, v)) <==> Plain(v)
  {
    if Plain(v) {
      forall text
        ensures Like("%" + v + "%", text) <==> Includes(text, v)
      {
        LikeIsIncludes(v, text);
      }
    } else {
      LikeMatchesDecoy(v);
      var pattern := "%" + v + "%";
      assert pattern[1..] == v + "%" && pattern[0] == '%';
      DecoyExcludes(v);
      assert Like(pattern, Decoy(v)) && !Includes(Decoy(v), v);
    }
  }

  // ---------- Letter case ----------

  predicate SameLetter(a: char, b: char) {
    a == b || ('A' <= a <= 'Z' && b as int == a as int + 32) || ('a' <= a <= 'z' && b as int == a as int - 32)
  }

  // The same text, but for the case of its ASCII letters.
  predicate Variant(a: string, b: string) {
    |a| == |b| && forall i | 0 <= i < |a| :: SameLetter(a[i], b[i])
  }

  // Without wildcards LIKE asks for the same text in any letter case.
  lemma {:induction false} LikeIsVariant(v: string, text: string)
    requires Plain(v)
    ensures Like(v, text) <==> Variant(v, text)
  {
    if v != "" && text != "" {
      assert v[0] in v;
      LikeIsVariant(v[1..], text[1..]);
      assert Fold(v[0]) == Fold(text[0]) <==> SameLetter(v[0], text[0]);
      hide Fold, SameLetter;
      assert Variant(v, text) <==> SameLetter(v[0], text[0]) && Variant(v[1..], text[1..]);
    }
  }

  lemma VariantCases(a: string, b: string)
    requires Variant(a, b)
    ensures ToLower(a) == ToLower(b) && ToUpper(a) == ToUpper(b)
  {
    forall i | 0 <= i < |a|
      ensures ToLower(a)[i] == ToLower(b)[i] && ToUpper(a)[i] == ToUpper(b)[i]
    {
      assert SameLetter(a[i], b[i]);
    }
  }

  // A rule is compiled in the same way whatever the letter case of its field and operator.
  lemma RuleInAnyCase(r: Rule, s: Rule)
    requires Variant(r.field, s.field) && Variant(r.op, s.op) && r.value == s.value
    ensures BuildRuleClause(r) == BuildRuleClause(s)
  {
    VariantCases(r.field, s.field);
    VariantCases(r.op, s.op);
    hide ToLower, ToUpper, Variant;
  }

  lemma LowerCases()
    ensures ToLower("name") == "name" && ToLower("media_type") == "media_type" && ToLower("container") == "container"
    ensures ToLower("duration") == "duration" && ToLower("width") == "width" && ToLower("height") == "height"
    ensures ToLower("size") == "size" && ToLower("eq") == "eq" && ToLower("ne") == "ne"
    ensures ToLower("contains") == "contains"
  {}

  lemma UpperCases()
    ensures ToUpper("eq") == "EQ" && ToUpper("ne") == "NE" && ToUpper("gt") == "GT" && ToUpper("lt") == "LT"
    ensures ToUpper("contains") == "CONTAINS"
  {}

  // The clauses of the documented fields and operators, in lower case; RuleInAnyCase covers the rest.
  lemma DocumentedClauses(value: string)
    ensures forall field <- {"name", "media_type", "container"} ::
              && BuildRuleClause(Rule(field, "eq", value)) == (field + " = ?", [value])
              && BuildRuleClause(Rule(field, "ne", value)) == (field + " != ?", [value])
              && BuildRuleClause(Rule(field, "contains", value)) == (field + " LIKE ?", ["%" + value + "%"])
    ensures forall op, code | (op, code) in {("gt", "GT"), ("lt", "LT"), ("eq", "EQ"), ("ne", "NE")} ::
              && BuildRuleClause(Rule("duration", op, value)) == ("duration_seconds" + " " + code + " ?", [value])
              && BuildRuleClause(Rule("width", op, value)) == ("width" + " " + code + " ?", [value])
              && BuildRuleClause(Rule("height", op, value)) == ("height" + " " + code + " ?", [value])
              && BuildRuleClause(Rule("size", op, value)) == ("size_bytes" + " " + code + " ?", [value])
  {
    LowerCases();
    UpperCases();
    hide ToLower, ToUpper;
  }

  // ---------- The text of the query ----------

  function OpText(op: string): string {
    if ToLower(op) == "eq" then "=" else if ToLower(op) == "ne" then "!=" else "LIKE"
  }

  function ArgText(r: Rule): string {
    if ToLower(r.op) == "contains" then "%" + r.value + "%" else r.value
  }

  // The four tokens a rule adds.
  function RuleTokens(r: Rule): seq<string> {
    if Recognised(r) then ["AND", TextColumn(r.field).value, OpText(r.op), "?"]
    else if Numeric(r) then ["AND", NumericColumn(r.field), ToUpper(r.op), "?"]
    else []
  }

  function NumericColumn(field: string): string {
    if ToLower(field) == "duration" then "duration_seconds"
    else if ToLower(field) == "size" then "size_bytes"
    else ToLower(field)
  }

  function Tokens(rules: seq<Rule>): seq<string> {
    if rules == [] then [] else RuleTokens(rules[0]) + Tokens(rules[1..])
  }

  // The operators the rule format documents.
  predicate Documented(op: string) {
    ToUpper(op) in {"EQ", "NE", "GT", "LT", "CONTAINS"}
  }

  predicate InScope(r: Rule) {
    Numeric(r) ==> Documented(r.op)
  }

  // Only the operator of a rule on a numeric field could bring a space of its own into the text.
  predicate Spaceless(r: Rule) {
    Numeric(r) ==> ' ' !in ToUpper(r.op)
  }

  lemma InScopeIsSpaceless(r: Rule)
    requires InScope(r)
    ensures Spaceless(r)
  {
    if Numeric(r) {
      ClauseOfNumericRule(r);
    }
    hide ToUpper;
  }

  lemma ClauseOfTextRule(r: Rule)
    requires Recognised(r)
    ensures BuildRuleClause(r) == (TextColumn(r.field).value + " " + OpText(r.op) + " ?", [ArgText(r)])
    ensures ' ' !in TextColumn(r.field).value && ' ' !in OpText(r.op) && !Numeric(r)
  {
    hide ToLower, ToUpper;
    var col := TextColumn(r.field).value;
    assert col + " = ?" == col + " " + "=" + " ?";
    assert col + " != ?" == col + " " + "!=" + " ?";
    assert col + " LIKE ?" == col + " " + "LIKE" + " ?";
  }

  lemma ClauseOfNumericRule(r: Rule)
    requires Numeric(r)
    ensures BuildRuleClause(r) == (NumericColumn(r.field) + " " + ToUpper(r.op) + " ?", [r.value])
    ensures ' ' !in NumericColumn(r.field) && (Documented(r.op) ==> ' ' !in ToUpper(r.op))
  {
    hide ToLower, ToUpper;
  }

  lemma NoClauseOfRule(r: Rule)
    requires !Recognised(r) && !Numeric(r)
    ensures BuildRuleClause(r).0 == ""
  {
    hide ToLower, ToUpper;
  }

  lemma ClauseOfRule(r: Rule)
    requires Spaceless(r)
    ensures var t := RuleTokens(r);
            && BuildRuleClause(r).0 == (if t == [] then "" else t[1] + " " + t[2] + " ?")
            && (t != [] ==> ' ' !in t[1] && ' ' !in t[2])
  {
    hide BuildRuleClause, Recognised, Numeric, Documented, TextColumn, NumericColumn, OpText, ToUpper;
    if Recognised(r) {
      ClauseOfTextRule(r);
    } else if Numeric(r) {
      ClauseOfNumericRule(r);
    } else {
      NoClauseOfRule(r);
    }
  }

  lemma RuleSplits(x: string, col: string, op: string, rest: string)
    requires ' ' !in x && ' ' !in col && ' ' !in op
    ensures Split(x + ((" AND " + (col + " " + op + " ?")) + rest), ' ') == [x, "AND", col, op] + Split("?" + rest, ' ')
  {
    hide Split;
    var r1 := "?" + rest;
    var r2 := op + [' '] + r1;
    var r3 := col + [' '] + r2;
    var r4 := "AND" + [' '] + r3;
    SplitFirst(op, ' ', r1);
    SplitFirst(col, ' ', r2);
    SplitFirst("AND", ' ', r3);
    SplitFirst(x, ' ', r4);
    assert x + (" AND " + (col + " " + op + " ?") + rest) == x + [' '] + r4;
  }

  lemma SpacelessTokens(r: Rule)
    requires Spaceless(r)
    ensures RuleTokens(r) != [] ==> |RuleTokens(r)| == 4 && ' ' !in RuleTokens(r)[1] && ' ' !in RuleTokens(r)[2]
  {
    ClauseOfRule(r);
  }

  lemma ClausesCons(rules: seq<Rule>)
    requires rules != [] && Spaceless(rules[0])
    ensures var t := RuleTokens(rules[0]);
            Clauses(rules) == if t == [] then Clauses(rules[1..])
                              else " AND " + (t[1] + " " + t[2] + " ?") + Clauses(rules[1..])
  {
    hide BuildRuleClause, RuleTokens, Spaceless;
    ClauseOfRule(rules[0]);
  }

  lemma LimitSplits(x: string)
    requires ' ' !in x
    ensures Split(x + ("" + " LIMIT ?"), ' ') == [x] + ([] + ["LIMIT", "?"])
  {
    hide Split;
    assert "" + " LIMIT ?" == " LIMIT ?" && [x] + ([] + ["LIMIT", "?"]) == [x, "LIMIT", "?"];
    SplitFirst(x, ' ', "LIMIT" + [' '] + "?");
    SplitFirst("LIMIT", ' ', "?");
    SplitOne("?", ' ');
    assert x + " LIMIT ?" == x + [' '] + ("LIMIT" + [' '] + "?");
  }

  // The text splits into the tokens of the rules.
  lemma {:induction false} QuerySplits(x: string, rules: seq<Rule>)
    requires ' ' !in x && forall r <- rules :: Spaceless(r)
    ensures Split(x + (Clauses(rules) + " LIMIT ?"), ' ') == [x] + (Tokens(rules) + ["LIMIT", "?"])
    decreases |rules|
  {
    hide Split, Spaceless, RuleTokens, Recognised, Numeric, Documented;
    if rules == [] {
      LimitSplits(x);
    } else {
      var t, more := RuleTokens(rules[0]), Clauses(rules[1..]);
      assert Spaceless(rules[0]);
      SpacelessTokens(rules[0]);
      TokenShape(rules[0]);
      ClausesCons(rules);
      hide Clauses, BuildRuleClause;
      if t == [] {
        QuerySplits(x, rules[1..]);
        assert t + Tokens(rules[1..]) == Tokens(rules[1..]);
      } else {
        QuerySplits("?", rules[1..]);
        RuleSplits(x, t[1], t[2], more + " LIMIT ?");
        Assoc(" AND " + (t[1] + " " + t[2] + " ?"), more, " LIMIT ?");
        TokensAssoc(x, t, Tokens(rules[1..]));
      }
    }
  }

  lemma TokensAssoc(x: string, t: seq<string>, more: seq<string>)
    requires |t| == 4 && t[0] == "AND" && t[3] == "?"
    ensures [x, "AND", t[1], t[2]] + (["?"] + (more + ["LIMIT", "?"])) == [x] + ((t + more) + ["LIMIT", "?"])
  {}

  lemma TokenShape(r: Rule)
    ensures var t := RuleTokens(r);
            t != [] ==> t == ["AND", t[1], t[2], "?"] && t[1] in TEXT_COLUMNS + NUMERIC_COLUMNS
    ensures RuleTokens(r) != [] <==> Recognised(r) || Numeric(r)
    ensures Recognised(r) ==> RuleTokens(r)[2] in OPERATORS && !Numeric(r)
    ensures Numeric(r) && Documented(r.op) ==> RuleTokens(r)[2] !in OPERATORS
  {
    hide ToLower, ToUpper;
  }

  function Conditions(rules: seq<Rule>, n: nat): seq<Condition> {
    if rules == [] then []
    else if Recognised(rules[0]) then
      [Condition(TextColumn(rules[0].field).value, OpText(rules[0].op), n)] + Conditions(rules[1..], n + 1)
    else Conditions(rules[1..], n)
  }

  lemma {:induction false} TokensParse(rules: seq<Rule>, n: nat)
    requires forall r <- rules :: InScope(r)
    ensures ParseTail(Tokens(rules) + ["LIMIT", "?"], n)
         == if exists r <- rules :: Numeric(r) then None
            else Some(Statement(Conditions(rules, n), n + |Conditions(rules, n)|))
  {
    hide Recognised, Numeric, InScope, OpText, ToLower, TextColumn, RuleTokens, Documented, ParseTail;
    if rules == [] {
      LimitParses(n);
    } else {
      var r, t := rules[0], RuleTokens(rules[0]);
      assert InScope(r);
      TokensOfScope(r);
      TokensParse(rules[1..], if t == [] then n else n + 1);
      AnyNumericCons(rules);
      if t != [] {
        ParseOne(t, Tokens(rules[1..]) + ["LIMIT", "?"], n);
        Assoc(t, Tokens(rules[1..]), ["LIMIT", "?"]);
      } else {
        assert t + Tokens(rules[1..]) == Tokens(rules[1..]);
      }
    }
  }

  lemma LimitParses(n: nat)
    ensures ParseTail([] + ["LIMIT", "?"], n) == Some(Statement([], n))
  {
    assert [] + ["LIMIT", "?"] == ["LIMIT", "?"];
  }

  lemma AnyNumericCons(rules: seq<Rule>)
    requires rules != []
    ensures (exists q <- rules :: Numeric(q)) <==> Numeric(rules[0]) || exists q <- rules[1..] :: Numeric(q)
  {
    hide Numeric;
    assert rules == [rules[0]] + rules[1..];
  }

  lemma TokensOfScope(r: Rule)
    requires InScope(r)
    ensures var t := RuleTokens(r);
            && (t == [] <==> !Recognised(r) && !Numeric(r))
            && (t != [] ==> |t| == 4 && t[0] == "AND" && t[3] == "?" && t[1] in TEXT_COLUMNS + NUMERIC_COLUMNS)
            && (Recognised(r) ==> t[1] == TextColumn(r.field).value && t[2] == OpText(r.op))
            && (Recognised(r) ==> t[2] in OPERATORS && !Numeric(r))
            && (Numeric(r) ==> t[2] !in OPERATORS)
  {
    TokenShape(r);
    hide Recognised, Numeric, OpText, ToLower, ToUpper;
  }

  lemma ParseOne(t: seq<string>, more: seq<string>, n: nat)
    requires |t| == 4 && t[0] == "AND" && t[3] == "?" && t[1] in TEXT_COLUMNS + NUMERIC_COLUMNS
    ensures ParseTail(t + more, n)
         == if t[2] !in OPERATORS then None
            else match ParseTail(more, n + 1)
                 case None => None
                 case Some(st) => Some(Statement([Condition(t[1], t[2], n)] + st.conditions, st.limit))
  {
    assert (t + more)[4..] == more && (t + more)[0] == "AND" != "LIMIT";
  }

  // Not on a numeric field.
  predicate OnText(r: Rule) {
    !Numeric(r)
  }

  lemma BelongsCons(row: Row, rules: seq<Rule>)
    requires rules != []
    ensures Belongs(row, rules)
            <==> (Recognised(rules[0]) ==> Satisfies(row, rules[0])) && Belongs(row, rules[1..])
  {
    hide Recognised, Satisfies;
    assert rules == [rules[0]] + rules[1..];
  }

  lemma ArgumentsCons(rules: seq<Rule>)
    requires rules != [] && !Numeric(rules[0])
    ensures Arguments(rules)
         == (if Recognised(rules[0]) then [TextArg(ArgText(rules[0]))] else []) + Arguments(rules[1..])
  {
    hide Recognised, Numeric, BuildRuleClause, ArgText, TextColumn, OpText;
    var r := rules[0];
    if Recognised(r) {
      ClauseOfTextRule(r);
      assert TextArgs([ArgText(r)]) == [TextArg(ArgText(r))];
    } else {
      NoClauseOfRule(r);
    }
  }

  lemma {:induction false} AsManyArguments(rules: seq<Rule>, n: nat)
    requires forall r <- rules :: OnText(r)
    ensures |Arguments(rules)| == |Conditions(rules, n)|
  {
    if rules != [] {
      assert OnText(rules[0]);
      ArgumentsCons(rules);
      hide OnText, Recognised, ArgText, OpText, TextColumn, Arguments;
      AsManyArguments(rules[1..], n);
      AsManyArguments(rules[1..], n + 1);
    }
  }

  // Placeholder i of the query binds argument i, and the conditions then say what the rules say.
  lemma {:induction false} ConditionsMean(row: Row, rules: seq<Rule>, n: nat, args: seq<Arg>)
    requires forall r <- rules :: OnText(r)
    requires n <= |args| && Arguments(rules) <= args[n..]
    ensures AllHold(row, Conditions(rules, n), args) <==> Belongs(row, rules)
  {
    if rules != [] {
      var r, rest := rules[0], rules[1..];
      assert r in rules && OnText(r);
      ArgumentsCons(rules);
      BelongsCons(row, rules);
      hide OnText, Holds, Satisfies, Belongs, ArgText, Arguments, Recognised, OpText, TextColumn;
      if Recognised(r) {
        assert args[n] == args[n..][0] == TextArg(ArgText(r)) && args[n + 1..] == args[n..][1..];
        ConditionsMean(row, rest, n + 1, args);
        ConditionMeans(row, r, n, args);
        var first := Condition(TextColumn(r.field).value, OpText(r.op), n);
        assert ([first] + Conditions(rest, n + 1))[1..] == Conditions(rest, n + 1);
      } else {
        assert Arguments(rules) == Arguments(rest);
        ConditionsMean(row, rest, n, args);
      }
    }
  }

  lemma ConditionMeans(row: Row, r: Rule, n: nat, args: seq<Arg>)
    requires Recognised(r) && OnText(r)
    requires n < |args| && args[n] == TextArg(ArgText(r))
    ensures Holds(row, Condition(TextColumn(r.field).value, OpText(r.op), n), args) <==> Satisfies(row, r)
  {
    var cell := Cell(row, TextColumn(r.field).value);
    if cell.Some? && ToLower(r.op) == "contains" {
      LikeIsSomewhere(r.value, cell.value);
    }
    hide Like, Somewhere, ToLower;
  }

  lemma {:induction false} SelectIsMatching(rows: seq<Row>, rules: seq<Rule>, after: seq<Arg>)
    requires forall r <- rules :: OnText(r)
    ensures Select(rows, Conditions(rules, 0), Arguments(rules) + after) == Matching(rows, rules)
  {
    if rows != [] {
      hide OnText, AllHold, Belongs, Conditions, Arguments;
      SelectIsMatching(rows[1..], rules, after);
      ConditionsMean(rows[0], rules, 0, Arguments(rules) + after);
    }
  }

  lemma {:induction false} ConditionsInFragment(rules: seq<Rule>, n: nat)
    ensures forall c <- Conditions(rules, n) :: c.column in TEXT_COLUMNS && c.op in {"=", "!=", "LIKE"}
  {
    if rules != [] {
      ConditionsInFragment(rules[1..], n);
      ConditionsInFragment(rules[1..], n + 1);
      hide ToLower;
    }
  }

  lemma AllSpaceless(rules: seq<Rule>)
    requires forall r <- rules :: InScope(r)
    ensures forall r <- rules :: Spaceless(r)
  {
    forall r <- rules ensures Spaceless(r) {
      InScopeIsSpaceless(r);
    }
  }

  lemma QueryTokens(rules: seq<Rule>)
    requires forall r <- rules :: Spaceless(r)
    ensures Parse(QueryText(rules)) == ParseTail(Tokens(rules) + ["LIMIT", "?"], 0)
  {
    hide Split, Spaceless, Clauses, Tokens, ParseTail;
    var q := QueryText(rules);
    var condition := "1=1" + (Clauses(rules) + " LIMIT ?");
    assert q == SELECT + condition;
    assert q[|SELECT|..] == condition;
    QuerySplits("1=1", rules);
    assert (["1=1"] + (Tokens(rules) + ["LIMIT", "?"]))[1..] == Tokens(rules) + ["LIMIT", "?"];
  }

  lemma QueryParses(rules: seq<Rule>)
    requires forall r <- rules :: InScope(r)
    ensures Parse(QueryText(rules))
         == if exists r <- rules :: Numeric(r) then None
            else Some(Statement(Conditions(rules, 0), |Conditions(rules, 0)|))
  {
    AllSpaceless(rules);
    hide InScope, Spaceless, Numeric, Tokens, ParseTail, Conditions, Parse, QueryText;
    QueryTokens(rules);
    TokensParse(rules, 0);
  }

  lemma NoNumericRule(rules: seq<Rule>)
    requires forall r <- rules :: OnText(r)
    ensures forall r <- rules :: InScope(r) && !Numeric(r)
  {}

  // Scanning a row that has a NULL column fails, and the row is left out.
  predicate Scannable(row: Row) {
    row.complete && row.container.Some?
  }

  function Scanned(rows: seq<Row>): seq<Row> {
    if rows == [] then []
    else ScannedOne(rows[0]) + Scanned(rows[1..])
  }

  function ScannedOne(row: Row): seq<Row> {
    if Scannable(row) then [row] else []
  }

  // The items EvaluateSmartPlaylist returns; None when the database rejects the query.
  function Evaluate(rows: seq<Row>, rules: seq<Rule>, limit: int): Option<seq<Row>> {
    match Query(rows, QueryText(rules), Arguments(rules) + [IntArg(limit)])
    case None => None
    case Some(found) => Some(Scanned(found))
  }

  // Main result: for rules on text fields (any rule on an unknown field, or with an unknown
  // operator, included) the query returns exactly the rows that satisfy every recognised rule, up
  // to the limit. A contains rule asks for a part that matches its value.
  lemma CompilationKeepsMeaning(rows: seq<Row>, rules: seq<Rule>, limit: int)
    requires forall r <- rules :: OnText(r)
    ensures Query(rows, QueryText(rules), Arguments(rules) + [IntArg(limit)])
         == Some(Limited(Matching(rows, rules), limit))
    ensures Evaluate(rows, rules, limit) == Some(Scanned(Limited(Matching(rows, rules), limit)))
  {
    var args := Arguments(rules) + [IntArg(limit)];
    NoNumericRule(rules);
    QueryParses(rules);
    ConditionsInFragment(rules, 0);
    AsManyArguments(rules, 0);
    SelectIsMatching(rows, rules, [IntArg(limit)]);
    hide OnText, Numeric, QueryText, Select, Matching, Parse, Arguments;
    assert args[|Arguments(rules)|] == IntArg(limit);
  }

  // What a rule means whose contains value has no wildcard.
  ghost predicate SatisfiesPlainly(row: Row, r: Rule)
    requires Recognised(r)
  {
    && Cell(row, TextColumn(r.field).value).Some?
    && var cell := Cell(row, TextColumn(r.field).value).value;
    && (ToLower(r.op) == "eq" ==> cell == r.value)
    && (ToLower(r.op) == "ne" ==> cell != r.value)
    && (ToLower(r.op) == "contains" ==> Includes(cell, r.value))
  }

  // Main result: without wildcards in the contains values, every recognised rule is equality, inequality or
  // ASCII-case-insensitive substring.
  lemma PlainRulesMeanSubstring(row: Row, rules: seq<Rule>)
    requires forall r <- rules | Recognised(r) && ToLower(r.op) == "contains" :: Plain(r.value)
    ensures Belongs(row, rules) <==> forall r <- rules | Recognised(r) :: SatisfiesPlainly(row, r)
  {
    forall r <- rules | Recognised(r) ensures Satisfies(row, r) <==> SatisfiesPlainly(row, r) {
      PlainMeaning(row, r);
    }
    hide Satisfies, SatisfiesPlainly, Recognised;
  }

  lemma PlainMeaning(row: Row, r: Rule)
    requires Recognised(r) && (ToLower(r.op) == "contains" ==> Plain(r.value))
    ensures Satisfies(row, r) <==> SatisfiesPlainly(row, r)
  {
    var cell := Cell(row, TextColumn(r.field).value);
    if cell.Some? && ToLower(r.op) == "contains" {
      LikeIsSomewhere(r.value, cell.value);
      LikeIsIncludes(r.value, cell.value);
    }
    hide Like, Includes, Somewhere, ToLower, Plain;
  }

  // Main result: with the documented operators, the query is well-formed SQL if and only if no rule
  // is on a numeric field; `width gt 100` becomes `width GT ?`, which is not.
  lemma WellFormedIffNoNumericRule(rules: seq<Rule>)
    requires forall r <- rules :: InScope(r)
    ensures Parse(QueryText(rules)).Some? <==> forall r <- rules :: !Numeric(r)
  {
    QueryParses(rules);
  }

  // ---------- The limit and the scan ----------

  lemma {:induction false} ScannedConcat(a: seq<Row>, b: seq<Row>)
    ensures Scanned(a + b) == Scanned(a) + Scanned(b)
  {
    hide ScannedOne;
    if a == [] {
      assert a + b == b;
    } else {
      ScannedConcat(a[1..], b);
      assert (a + b)[1..] == a[1..] + b;
      Assoc(ScannedOne(a[0]), Scanned(a[1..]), Scanned(b));
    }
  }

  predicate AllScannable(rows: seq<Row>) {
    forall r <- rows :: Scannable(r)
  }

  predicate NoneScannable(rows: seq<Row>) {
    forall r <- rows :: !Scannable(r)
  }

  lemma {:induction false} ScannedAll(rows: seq<Row>)
    ensures |Scanned(rows)| <= |rows|
    ensures |Scanned(rows)| == |rows| <==> AllScannable(rows)
    ensures AllScannable(rows) ==> Scanned(rows) == rows
    ensures Scanned(rows) == [] <==> NoneScannable(rows)
  {
    hide Scannable;
    if rows != [] {
      ScannedAll(rows[1..]);
      assert rows == [rows[0]] + rows[1..];
    }
  }

  lemma CutIff(a: seq<Row>, b: seq<Row>, n: nat)
    requires |a| <= n
    ensures a == Limited(a + b, n) <==> |a| == n || b == []
  {}

  lemma LimitScanIff(rows: seq<Row>, n: nat)
    requires n <= |rows|
    ensures Scanned(Limited(rows, n)) == Limited(Scanned(rows), n)
       <==> AllScannable(rows[..n]) || NoneScannable(rows[n..])
  {
    var before, after := rows[..n], rows[n..];
    assert rows == before + after && Limited(rows, n) == before;
    hide Scanned, AllScannable, NoneScannable, Limited;
    ScannedConcat(before, after);
    ScannedParts(before, after, n);
  }

  lemma ScannedParts(before: seq<Row>, after: seq<Row>, n: nat)
    requires |before| == n
    ensures Scanned(before) == Limited(Scanned(before) + Scanned(after), n)
       <==> AllScannable(before) || NoneScannable(after)
  {
    hide Scanned, AllScannable, NoneScannable, Limited;
    ScannedAll(before);
    ScannedAll(after);
    CutIff(Scanned(before), Scanned(after), n);
  }

  // Main result: the limit counts just the items returned if and only if it cuts off nothing, or every
  // matching row before it can be scanned, or none behind it can.
  lemma LimitIsOnItemsIff(rows: seq<Row>, rules: seq<Rule>, limit: int)
    requires forall r <- rules :: OnText(r)
    ensures var found := Matching(rows, rules);
            (Evaluate(rows, rules, limit) == Some(Limited(Scanned(found), limit))
             <==> !(0 <= limit < |found|) || AllScannable(found[..limit]) || NoneScannable(found[limit..]))
  {
    CompilationKeepsMeaning(rows, rules, limit);
    var found := Matching(rows, rules);
    ScannedAll(found);
    hide Evaluate, Matching, Scanned, OnText, AllScannable, NoneScannable;
    if 0 <= limit < |found| {
      LimitScanIff(found, limit);
    }
  }

  lemma {:induction false} MatchingIn(rows: seq<Row>, rules: seq<Rule>)
    ensures forall r <- Matching(rows, rules) :: r in rows
  {
    hide Belongs;
    if rows != [] {
      MatchingIn(rows[1..], rules);
    }
  }

  // Rows without NULL, the only ones the program itself writes (pkg/db/db.go), are never left out.
  lemma CompleteRowsAllReturned(rows: seq<Row>, rules: seq<Rule>, limit: int)
    requires (forall r <- rules :: OnText(r)) && AllScannable(rows)
    ensures Evaluate(rows, rules, limit) == Some(Limited(Matching(rows, rules), limit))
  {
    CompilationKeepsMeaning(rows, rules, limit);
    MatchingIn(rows, rules);
    hide Evaluate, Matching, Scannable, OnText;
    ScannedAll(Limited(Matching(rows, rules), limit));
  }

  // Two rows match, one is allowed, and none comes back. The schema permits the NULL of the first row, but
  // no statement of the program writes one.
  lemma LimitCountsIncompleteRows()
    ensures var a, b := Row("a", "movie", None, true), Row("b", "movie", Some("mkv"), true);
            Evaluate([a, b], [], 1) == Some([]) && Scanned(Matching([a, b], [])) == [b]
  {
    var a, b := Row("a", "movie", None, true), Row("b", "movie", Some("mkv"), true);
    CompilationKeepsMeaning([a, b], [], 1);
    assert [a, b][1..] == [b] && [b][1..] == [] && [a][1..] == [];
    assert Belongs(a, []) && Belongs(b, []);
    assert Matching([b], []) == [b] + Matching([], []);
    assert Matching([a, b], []) == [a] + Matching([b], []) == [a, b];
    assert Limited([a, b], 1) == [a, b][..1] == [a];
    var none: seq<Row> := [];
    assert Scanned(none) == none;
    assert Scanned([a]) == none + Scanned(none) == none && Scanned([b]) == [b] + Scanned(none) == [b];
    hide Evaluate, Matching, Scanned;
    assert Matching([a, b], []) == [a, b];
    assert Scanned([a, b]) == [b] by {
      ScannedPair(a, b);
    }
  }

  lemma ScannedPair(a: Row, b: Row)
    requires a.container.None? && b.complete && b.container.Some?
    ensures Scanned([a, b]) == [b]
  {
    var none: seq<Row> := [];
    assert [a, b][1..] == [b] && [b][1..] == none;
    assert Scanned(none) == none && Scanned([b]) == [b] + none;
  }
}
