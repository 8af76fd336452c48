/**
  Skill denoising: the per-row clean-up of the `Skills` field, the loop
  that drops rows without skills, and the frequency tally.

  A skills cell is `;`-separated text. Cleaning deletes the exclusion
  pattern's matches, splits on `;`, trims and lower-cases each piece,
  drops blank pieces, removes duplicates and denylisted tokens, and
  writes the rest back joined by `"; "`.
 */
module SkillFilter {
  import opened Common
  import opened Text
  import opened Noise
  import opened Preprocess

  /** The denylist: exact tokens that are not skills. */
  const UselessSet: set<string> := {
    "'s", "of science", "doctoral", "doctor of philosophy", "1 year",
    "of business administration", "bachelor", "master", "ph.d", "degree",
    "diploma", "license", "certification", "microsoft office", "powerpoint", "windows",
    "leadership", "associate's", "mentoring", "teaching", "product management", "microsoft",
    "microsoft word", "powershell", "driver's", "snowflake", "pki", "journalism", "transcription",
    "grammar experience", "high school  or ged", "copywriting"
  }

  /** What a cleaned token looks like. */
  predicate IsToken(t: string) {
    t != [] && IsStripped(t) && IsLower(t) && ';' !in t
  }

  /** One `;`-piece: trimmed and lower-cased, or nothing when it is blank. */
  function CleanPiece(p: string): Option<string> {
    var t := Strip(p);
    if t == [] then None else Some(Lower(t))
  }

  /** A piece is dropped exactly when it is blank; a kept piece of split text is a token. */
  lemma CleanPieceFacts(p: string)
    ensures CleanPiece(p).None? <==> AllSpace(p)
    ensures ';' !in p && CleanPiece(p).Some? ==> IsToken(CleanPiece(p).value)
  {
    var t := Strip(p);
    if t != [] {
      LowerFacts(t);
      LowerKeepsSpaces(t);
      LowerKeepsChar(t, ';');
      StripKeepsChar(p, ';');
    }
  }

  lemma LowerKeepsSpaces(t: string)
    requires IsStripped(t)
    ensures IsStripped(Lower(t))
  {
  }

  /**
    `[s.strip().lower() for s in text.split(';') if s.strip()]`: every
    token is a trimmed, lower-cased non-blank piece, and every non-blank
    piece gives its token.
   */
  function Tokenize(text: string): (r: seq<string>)
    ensures |r| <= Occurrences(text, ';') + 1
    ensures forall k :: 0 <= k < |r| ==> IsToken(r[k])
    ensures forall t :: t in r <==> PieceToken(Split(text, ';'), t)
  {
    var pieces := Split(text, ';');
    var r := FilterMap(CleanPiece, pieces);
    forall k | 0 <= k < |r| ensures IsToken(r[k]) {
      var i :| 0 <= i < |pieces| && CleanPiece(pieces[i]) == Some(r[k]);
      CleanPieceFacts(pieces[i]);
    }
    CleanedPieces(pieces);
    r
  }

  /** Some non-blank piece trims and lower-cases to `t`. */
  predicate PieceToken(pieces: seq<string>, t: string) {
    exists p :: p in pieces && Strip(p) != [] && t == Lower(Strip(p))
  }

  /** The kept pieces are exactly the non-blank ones, trimmed and lower-cased. */
  lemma {:induction false} CleanedPieces(pieces: seq<string>)
    ensures forall t :: t in FilterMap(CleanPiece, pieces) <==> PieceToken(pieces, t)
  {
    if pieces != [] {
      var rest := pieces[1..];
      CleanedPieces(rest);
      assert forall p :: p in pieces <==> p == pieces[0] || p in rest;
      forall t ensures t in FilterMap(CleanPiece, pieces) <==> PieceToken(pieces, t) {
        if PieceToken(pieces, t) && !PieceToken(rest, t) {
          var p :| p in pieces && Strip(p) != [] && t == Lower(Strip(p));
          assert p == pieces[0];
        }
      }
    }
  }

  /** A piece without `;` gives its trimmed, lower-cased self, or nothing when it is blank. */
  lemma TokenizePiece(p: string)
    requires ';' !in p
    ensures Tokenize(p) == if AllSpace(p) then [] else [Lower(Strip(p))]
  {
    SplitSingle(p, ';');
    FilterMapSingle(CleanPiece, p);
  }

  /** Text is read piece by piece: the tokens of `a;b` are those of `a` followed by those of `b`. */
  lemma TokenizeConcat(a: string, b: string)
    ensures Tokenize(a + [';'] + b) == Tokenize(a) + Tokenize(b)
  {
    SplitAppend(a, ';', b);
    FilterMapAppend(CleanPiece, Split(a, ';'), Split(b, ';'));
  }

  /** Keeps the tokens that are not on the denylist. */
  function NotUseless(useless: set<string>): string -> bool {
    (t: string) => t !in useless
  }

  /** Duplicates collapse, then denylisted tokens go. */
  function CleanSkills(tokens: seq<string>, useless: set<string>): (r: seq<string>)
    ensures Distinct(r)
    ensures forall t :: t in r <==> t in tokens && t !in useless
    ensures |r| <= |tokens|
  {
    var unique := Dedup(tokens);
    var r := Filter(NotUseless(useless), unique);
    SubsequenceDistinct(r, unique);
    SubsequenceFacts(r, unique);
    SubsequenceFacts(unique, tokens);
    r
  }

  /** The tokens a skills cell is reduced to. */
  function SkillTokens(skills: string, useless: set<string>): (r: seq<string>)
    ensures Distinct(r)
    ensures forall k :: 0 <= k < |r| ==> IsToken(r[k]) && r[k] !in useless
    ensures forall t :: t in r <==> t in Tokenize(StripNoise(skills)) && t !in useless
  {
    var tokens := Tokenize(StripNoise(skills));
    var r := CleanSkills(tokens, useless);
    forall k | 0 <= k < |r| ensures IsToken(r[k]) && r[k] !in useless {
      assert r[k] in tokens;
    }
    r
  }

  /** A cell whose every token is denylisted keeps no token. */
  lemma AllDenylisted(skills: string, useless: set<string>)
    requires forall t :: t in Tokenize(StripNoise(skills)) ==> t in useless
    ensures SkillTokens(skills, useless) == []
  {
    var unique := Dedup(Tokenize(StripNoise(skills)));
    forall k | 0 <= k < |unique| ensures !NotUseless(useless)(unique[k]) {
      assert unique[k] in unique;
    }
    FilterKeepsNone(NotUseless(useless), unique);
  }

  /** `'; '.join(tokens)`. */
  function JoinSkills(tokens: seq<string>): string {
    Join(tokens, "; ")
  }

  /**
    `filter_row_skills`: only the `Skills` cell is rewritten, and only when
    it is present and non-empty.
   */
  function FilterRowSkills(row: Row, useless: set<string>): (r: Row)
    ensures r.Keys == row.Keys
    ensures forall k :: k in row && k != "Skills" ==> r[k] == row[k]
    ensures Get(row, "Skills", "") == [] ==> r == row
  {
    var skills := Get(row, "Skills", "");
    if skills == [] then row
    else row["Skills" := JoinSkills(SkillTokens(skills, useless))]
  }

  /** A rewritten `Skills` cell reads back as exactly the kept tokens of the original cell. */
  lemma FilterRowSkillsReadBack(row: Row, useless: set<string>)
    requires Get(row, "Skills", "") != []
    ensures "Skills" in FilterRowSkills(row, useless)
    ensures Tokenize(FilterRowSkills(row, useless)["Skills"]) == SkillTokens(row["Skills"], useless)
  {
    TokenizeJoin(SkillTokens(row["Skills"], useless));
  }

  /** Writing tokens with `"; "` and reading them back gives the same tokens. */
  lemma TokenizeJoin(ts: seq<string>)
    requires forall k :: 0 <= k < |ts| ==> IsToken(ts[k])
    ensures Tokenize(JoinSkills(ts)) == ts
  {
    if ts == [] {
      assert Split([], ';') == [[]];
      FilterMapSingle(CleanPiece, []);
    } else {
      PadJoin([], ts);
      assert [] + JoinSkills(ts) == JoinSkills(ts);
      var parts := Pad([], " ", ts);
      forall i | 0 <= i < |parts| ensures ';' !in parts[i] {
        assert ';' !in ts[i];
        if i > 0 {
          assert parts[i] == " " + ts[i];
        } else {
          assert parts[i] == [] + ts[i];
        }
      }
      SplitJoin(parts, ';');
      OneSpace();
      CleanPadded([], " ", ts);
    }
  }

  /** Every token with the blanks that precede it in the joined text: `w` before the first, `gap` before the others. */
  function Pad(w: string, gap: string, ts: seq<string>): (r: seq<string>)
    ensures |r| == |ts|
  {
    seq(|ts|, i requires 0 <= i < |ts| => (if i == 0 then w else gap) + ts[i])
  }

  lemma {:induction false} PadJoin(w: string, ts: seq<string>)
    requires ts != []
    ensures w + JoinSkills(ts) == Join(Pad(w, " ", ts), [';'])
    decreases |ts|
  {
    if |ts| == 1 {
      assert Pad(w, " ", ts) == [w + ts[0]];
    } else {
      PadJoin(" ", ts[1..]);
      PadTail(w, " ", ts);
      assert w + JoinSkills(ts) == (w + ts[0]) + [';'] + (" " + JoinSkills(ts[1..]));
    }
  }

  lemma {:induction false} CleanPadded(w: string, gap: string, ts: seq<string>)
    requires AllSpace(w) && AllSpace(gap)
    requires forall k :: 0 <= k < |ts| ==> IsToken(ts[k])
    ensures FilterMap(CleanPiece, Pad(w, gap, ts)) == ts
    decreases |ts|
  {
    if ts == [] {
      assert Pad(w, gap, ts) == [];
    } else {
      assert ts == [ts[0]] + ts[1..];
      assert forall k :: 0 <= k < |ts[1..]| ==> IsToken(ts[1..][k]);
      PaddedHead(w, gap, ts);
      CleanPadded(gap, gap, ts[1..]);
    }
  }

  lemma PaddedHead(w: string, gap: string, ts: seq<string>)
    requires AllSpace(w) && ts != [] && IsToken(ts[0])
    ensures FilterMap(CleanPiece, Pad(w, gap, ts)) == [ts[0]] + FilterMap(CleanPiece, Pad(gap, gap, ts[1..]))
  {
    PadTail(w, gap, ts);
    CleanPieceOfPadded(w, ts[0]);
    FilterMapHead(CleanPiece, Pad(w, gap, ts), ts[0]);
  }

  lemma PadTail(w: string, gap: string, ts: seq<string>)
    requires ts != []
    ensures Pad(w, gap, ts)[0] == w + ts[0]
    ensures Pad(w, gap, ts)[1..] == Pad(gap, gap, ts[1..])
  {
  }

  lemma CleanPieceOfPadded(w: string, t: string)
    requires AllSpace(w) && IsToken(t)
    ensures CleanPiece(w + t) == Some(t)
  {
    StripPadded(w, t);
    LowerFacts(t);
  }

  /** The row keeps its `Skills` cell: blank or absent cells are dropped. */
  predicate HasSkills(row: Row) {
    Strip(Get(row, "Skills", "")) != []
  }

  /** One iteration of the main loop: skip a row with blank skills, otherwise clean it. */
  function KeepRow(row: Row, useless: set<string>): (r: Option<Row>)
    ensures r.Some? <==> HasSkills(row)
    ensures r.Some? ==> "Skills" in r.value && r.value == FilterRowSkills(row, useless)
  {
    if HasSkills(row) then Some(FilterRowSkills(row, useless)) else None
  }

  /** The main loop: rows with blank skills are skipped, the others cleaned and written in order. */
  function FilterRows(rows: seq<Row>, useless: set<string>): (r: seq<Row>)
    ensures |r| <= |rows|
    ensures forall j :: 0 <= j < |r| ==> "Skills" in r[j]
  {
    var f := (row: Row) => KeepRow(row, useless);
    FilterMapKeeps(f, (row: Row) => "Skills" in row, rows);
    FilterMap(f, rows)
  }

  /** The tokens one row contributes to the tally: every cleaned token, duplicates included. */
  function RowTokens(row: Row): (r: seq<string>)
    ensures forall k :: 0 <= k < |r| ==> IsToken(r[k])
  {
    var skills := Get(row, "Skills", "");
    if skills == [] then [] else Tokenize(StripNoise(skills))
  }

  /** The reference tally: the multiset union of every row's tokens. */
  function Tally(rows: seq<Row>): (m: multiset<string>)
    ensures forall t :: t in m ==> IsToken(t)
  {
    if rows == [] then multiset{}
    else
      var m := Tally(rows[..|rows| - 1]);
      var last := RowTokens(rows[|rows| - 1]);
      assert forall t :: t in multiset(last) ==> t in last;
      m + multiset(last)
  }

  lemma TallyStep(rows: seq<Row>, i: nat)
    requires i < |rows|
    ensures Tally(rows[..i + 1]) == Tally(rows[..i]) + multiset(RowTokens(rows[i]))
  {
    assert rows[..i + 1][..i] == rows[..i];
    assert rows[..i + 1][i] == rows[i];
  }

  /**
    `count_skills`: the tally of every row's tokens, or an empty tally
    when the table has no `Skills` column.
   */
  method CountSkills(fieldnames: seq<string>, rows: seq<Row>) returns (tally: multiset<string>)
    ensures "Skills" !in fieldnames ==> tally == multiset{}
    ensures "Skills" in fieldnames ==> tally == Tally(rows)
    ensures forall t :: t in tally ==> IsToken(t)
  {
    tally := multiset{};
    if "Skills" !in fieldnames {
      return;
    }
    var i := 0;
    while i < |rows|
      invariant 0 <= i <= |rows|
      invariant tally == Tally(rows[..i])
    {
      TallyStep(rows, i);
      tally := tally + multiset(RowTokens(rows[i]));
      i := i + 1;
    }
    assert rows[..|rows|] == rows;
  }
}

/** Properties of the skill cleaner that relate several calls. */
module SkillFilterFacts {
  import opened Common
  import opened Text
  import opened Noise
  import opened Preprocess
  import opened SkillFilter

  /** One more input row adds its cleaned form at the end exactly when its skills are not blank. */
  lemma FilterRowsAppend(rows: seq<Row>, row: Row, useless: set<string>)
    ensures FilterRows(rows + [row], useless) ==
            FilterRows(rows, useless) + (if HasSkills(row) then [FilterRowSkills(row, useless)] else [])
  {
    FilterMapSnoc((r: Row) => KeepRow(r, useless), rows, row);
  }

  /** The number of rows written is the number of rows whose skills are not blank. */
  lemma FilterRowsCount(rows: seq<Row>, useless: set<string>)
    ensures |FilterRows(rows, useless)| == |Filter(HasSkills, rows)|
  {
    FilterMapLength((r: Row) => KeepRow(r, useless), HasSkills, rows);
  }

  /** A row whose every token is denylisted is still written, with an empty `Skills` cell. */
  lemma EmptiedRowKept(rows: seq<Row>, row: Row, useless: set<string>)
    requires HasSkills(row)
    requires forall t :: t in Tokenize(StripNoise(row["Skills"])) ==> t in useless
    ensures FilterRows(rows + [row], useless) == FilterRows(rows, useless) + [row["Skills" := []]]
  {
    AllDenylisted(row["Skills"], useless);
    FilterRowsAppend(rows, row, useless);
  }

  /** The tally of two tables is the sum of their tallies. */
  lemma {:induction false} TallyAppend(a: seq<Row>, b: seq<Row>)
    ensures Tally(a + b) == Tally(a) + Tally(b)
    decreases |b|
  {
    if b == [] {
      assert a + b == a;
    } else {
      var b' := b[..|b| - 1];
      assert (a + b)[..|a + b| - 1] == a + b';
      assert (a + b)[|a + b| - 1] == b[|b| - 1];
      TallyAppend(a, b');
    }
  }

  /** A row without skills adds nothing to the tally. */
  lemma TallyIgnoresEmpty(rows: seq<Row>, row: Row)
    requires Get(row, "Skills", "") == []
    ensures Tally(rows + [row]) == Tally(rows)
  {
    assert (rows + [row])[..|rows|] == rows;
  }

  /** Each row counts all of its tokens, repeats included. */
  lemma TallyCountsRepeats(rows: seq<Row>, row: Row, t: string)
    ensures Tally(rows + [row])[t] == Tally(rows)[t] + multiset(RowTokens(row))[t]
  {
    assert (rows + [row])[..|rows|] == rows;
    assert (rows + [row])[|rows|] == row;
    assert Tally(rows + [row]) == Tally(rows) + multiset(RowTokens(row));
  }

  // ---------------------------------------------------------------------
  // The worked cell `Java;5+ years;Senior;'s`

  /** The stripped cell `Java;;;'s` reads as two tokens; the blank pieces between the `;` go. */
  lemma ExampleTokens(t: string)
    requires t == "Java;;;'s"
    ensures Tokenize(t) == ["java", "'s"]
  {
    ExampleWords();
    TokenizeTwoWords("Java", "'s");
  }

  /** The concrete facts the example rests on, kept apart from the tokenizer. */
  lemma ExampleWords()
    ensures "Java;;;'s" == "Java" + [';'] + ([] + [';'] + ([] + [';'] + "'s"))
    ensures "Java" != [] && IsStripped("Java") && ';' !in "Java" && Lower("Java") == "java"
    ensures "'s" != [] && IsStripped("'s") && ';' !in "'s" && Lower("'s") == "'s"
  {
  }

  /** Two words with blank pieces between them read as the two lower-cased words. */
  lemma TokenizeTwoWords(a: string, c: string)
    requires a != [] && IsStripped(a) && ';' !in a
    requires c != [] && IsStripped(c) && ';' !in c
    ensures Tokenize(a + [';'] + ([] + [';'] + ([] + [';'] + c))) == [Lower(a), Lower(c)]
  {
    TokenizeBlankBetween(a, c);
    TokenizeStripped(a);
    TokenizeStripped(c);
  }

  /** Blank pieces contribute no token. */
  lemma TokenizeBlankBetween(a: string, c: string)
    ensures Tokenize(a + [';'] + ([] + [';'] + ([] + [';'] + c))) == Tokenize(a) + Tokenize(c)
  {
    TokenizeConcat(a, [] + [';'] + ([] + [';'] + c));
    TokenizeConcat([], [] + [';'] + c);
    TokenizeConcat([], c);
    TokenizePiece([]);
  }

  /** A single piece with no surrounding blanks gives its lower-cased self. */
  lemma TokenizeStripped(p: string)
    requires p != [] && IsStripped(p) && ';' !in p
    ensures Tokenize(p) == [Lower(p)]
  {
    TokenizePiece(p);
    StripStripped(p);
  }

  /**
    End to end: the pass deletes `5+ years` and `Senior`, the denylist
    drops `'s`, and only `java` is left.
   */
  lemma ExampleCell(skills: string)
    requires skills == "Java;5+ years;Senior;'s"
    ensures SkillTokens(skills, UselessSet) == ["java"]
  {
    ExampleStripped(skills);
    ExampleTokens(StripNoise(skills));
    ExampleDenylist();
    KeepsOneToken(skills, UselessSet, "java", "'s");
  }

  /** `'s` is on the denylist and `java` is not. */
  lemma ExampleDenylist()
    ensures "'s" in UselessSet && "java" !in UselessSet
  {
  }

  /** Of two tokens, the denylisted one goes and the other is all that is left. */
  lemma KeepsOneToken(skills: string, useless: set<string>, x: string, y: string)
    requires Tokenize(StripNoise(skills)) == [x, y]
    requires x !in useless && y in useless
    ensures SkillTokens(skills, useless) == [x]
  {
    var r := SkillTokens(skills, useless);
    assert forall t :: t in r <==> t == x;
    OnlyElement(r, x);
  }

  /** A duplicate-free sequence whose only element is `x` is `[x]`. */
  lemma OnlyElement(r: seq<string>, x: string)
    requires Distinct(r) && (forall t :: t in r <==> t == x)
    ensures r == [x]
  {
    DistinctHead(r);
    assert x in r && r[0] in r;
  }

  /** The first two elements of a duplicate-free sequence differ. */
  lemma DistinctHead(r: seq<string>)
    requires Distinct(r)
    ensures 1 < |r| ==> r[0] != r[1] && r[1] in r
  {
  }
}
