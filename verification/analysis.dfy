/**
  The analysis stage: the category filter on titles, the removal of
  experience keywords from each row's skill list, and the per-title
  ranking of the five most frequent skills.

  A row of the cleaned dataset is reduced to its title and its skills
  text; after filtering it becomes an `Entry` holding the list of skills
  that survived.
 */
module Analysis {
  import opened Common
  import opened Text
  import opened SkillFilter

  /** Pieces that are exactly one of these words, in any letter case, are not skills. */
  const ExperienceKeywords: set<string> := {"senior", "entry", "junior", "mid-level", "level", "under", "of", "year"}

  /** The test `filter_experience` applies to each trimmed piece, for a given keyword set. */
  function NotKeyword(keywords: set<string>): string -> bool {
    p => Lower(p) !in keywords
  }

  /** `[p.strip() for p in ps]`. */
  function StripAll(ps: seq<string>): (r: seq<string>)
    ensures |r| == |ps|
    ensures forall k :: 0 <= k < |r| ==> r[k] == Strip(ps[k])
  {
    Map(Strip, ps)
  }

  /**
    `filter_experience`: the `;`-pieces of the text, trimmed, without those
    that are exactly a keyword. Only whole pieces are compared, so a piece
    such as `senior engineer` stays, and so do empty pieces.
   */
  function FilterExperience(s: string, keywords: set<string>): (r: seq<string>)
    ensures |r| <= Occurrences(s, ';') + 1
    ensures IsSubsequence(r, StripAll(Split(s, ';')))
    ensures forall k :: 0 <= k < |r| ==> IsStripped(r[k]) && ';' !in r[k] && Lower(r[k]) !in keywords
  {
    var pieces := StripAll(Split(s, ';'));
    var r := Filter(NotKeyword(keywords), pieces);
    SubsequenceFacts(r, pieces);
    StrippedPieces(Split(s, ';'));
    forall k | 0 <= k < |r| ensures r[k] in pieces && Lower(r[k]) !in keywords {
      assert r[k] in r;
    }
    r
  }

  /** Trimmed pieces of split text are stripped and still free of the separator. */
  lemma StrippedPieces(ps: seq<string>)
    requires forall k :: 0 <= k < |ps| ==> ';' !in ps[k]
    ensures forall x :: x in StripAll(ps) ==> IsStripped(x) && ';' !in x
  {
    forall k | 0 <= k < |ps| ensures ';' !in StripAll(ps)[k] {
      StripKeepsChar(ps[k], ';');
    }
  }

  /** The trimmed pieces are the trimmed forms of the pieces, in both directions. */
  lemma StripAllMembers(ps: seq<string>, x: string)
    ensures x in StripAll(ps) <==> exists p :: p in ps && x == Strip(p)
  {
    if exists p :: p in ps && x == Strip(p) {
      var p :| p in ps && x == Strip(p);
      var i :| 0 <= i < |ps| && ps[i] == p;
      assert StripAll(ps)[i] == x;
    }
  }

  /** A piece is kept exactly when its trimmed text is not a keyword: the two directions of the filter. */
  lemma FilterExperienceMembers(s: string, x: string, keywords: set<string>)
    ensures x in FilterExperience(s, keywords) <==> (exists p :: p in Split(s, ';') && x == Strip(p)) && Lower(x) !in keywords
  {
    StripAllMembers(Split(s, ';'), x);
  }

  /** Text without `;` is one piece: it is kept, trimmed, unless it is a keyword. */
  lemma FilterExperiencePiece(p: string, keywords: set<string>)
    requires ';' !in p
    ensures FilterExperience(p, keywords) == if NotKeyword(keywords)(Strip(p)) then [Strip(p)] else []
  {
    assert StripAll(Split(p, ';')) == [Strip(p)] by {
      SplitSingle(p, ';');
      assert StripAll([p]) == [Strip(p)];
    }
    FilterSingle(NotKeyword(keywords), Strip(p));
  }

  /** The pieces on either side of a `;` are filtered independently. */
  lemma FilterExperienceConcat(a: string, b: string, keywords: set<string>)
    ensures FilterExperience(a + ";" + b, keywords) == FilterExperience(a, keywords) + FilterExperience(b, keywords)
  {
    var SA, SB, p := StripAll(Split(a, ';')), StripAll(Split(b, ';')), NotKeyword(keywords);
    StripAllConcat(a, b);
    FilterAppend(p, SA, SB);
    assert FilterExperience(a, keywords) == Filter(p, SA);
    assert FilterExperience(b, keywords) == Filter(p, SB);
  }

  /** The trimmed pieces of `a;b` are those of `a` followed by those of `b`. */
  lemma StripAllConcat(a: string, b: string)
    ensures StripAll(Split(a + ";" + b, ';')) == StripAll(Split(a, ';')) + StripAll(Split(b, ';'))
  {
    var A, B := Split(a, ';'), Split(b, ';');
    assert Split(a + ";" + b, ';') == A + B by {
      assert a + ";" + b == a + [';'] + b;
      SplitAppend(a, ';', b);
    }
    StripAllAppend(A, B);
  }

  lemma StripAllAppend(A: seq<string>, B: seq<string>)
    ensures StripAll(A + B) == StripAll(A) + StripAll(B)
  {
    MapAppend(Strip, A, B);
  }

  /** A keyword in any letter case, with blanks around it, is removed. */
  lemma KeywordRemoved(w1: string, k: string, w2: string, keywords: set<string>)
    requires AllSpace(w1) && AllSpace(w2) && IsStripped(k) && ';' !in k && Lower(k) in keywords
    ensures FilterExperience(w1 + k + w2, keywords) == []
  {
    var s := w1 + k + w2;
    assert ';' !in s by {
      forall i | 0 <= i < |s| ensures s[i] != ';' {
        if i < |w1| {
          assert IsSpace(w1[i]);
        } else if i < |w1| + |k| {
          assert s[i] == k[i - |w1|];
        } else {
          assert IsSpace(w2[i - |w1| - |k|]);
        }
      }
    }
    assert Strip(s) == k by {
      StripSurrounded(w1, k, w2);
    }
    FilterExperiencePiece(s, keywords);
  }

  /** A longer phrase that starts with a keyword is not a keyword, so it stays. */
  lemma MultiWordKept(s: string)
    requires s == "Senior Engineer"
    ensures FilterExperience(s, ExperienceKeywords) == [s]
  {
    MultiWordFacts();
    PieceKept(s, ExperienceKeywords);
  }

  /** The facts about the phrase itself, kept apart from the filter. */
  lemma MultiWordFacts()
    ensures ';' !in "Senior Engineer" && IsStripped("Senior Engineer")
    ensures Lower("Senior Engineer") !in ExperienceKeywords
  {
    assert |Lower("Senior Engineer")| == 15;
  }

  /** A trimmed piece that is not a keyword is kept as it is. */
  lemma PieceKept(s: string, keywords: set<string>)
    requires ';' !in s && IsStripped(s) && Lower(s) !in keywords
    ensures FilterExperience(s, keywords) == [s]
  {
    StripStripped(s);
    FilterExperiencePiece(s, keywords);
  }

  /** An empty text is one empty piece, which is kept: the result is one empty skill, not an empty list. */
  lemma EmptyPieceKept()
    ensures FilterExperience("", ExperienceKeywords) == [""]
  {
    assert Strip("") == "" && Lower("") == "";
    assert "" !in ExperienceKeywords;
    FilterExperiencePiece("", ExperienceKeywords);
  }

  /** Writing the kept pieces back with `;` and filtering again changes nothing. */
  lemma FilterExperienceIdempotent(s: string, keywords: set<string>)
    requires FilterExperience(s, keywords) != []
    ensures FilterExperience(Join(FilterExperience(s, keywords), ";"), keywords) == FilterExperience(s, keywords)
  {
    var r := FilterExperience(s, keywords);
    ResplitStripped(r);
    assert forall k :: 0 <= k < |r| ==> NotKeyword(keywords)(r[k]);
    FilterKeepsAll(NotKeyword(keywords), r);
  }

  /** Stripped, separator-free pieces come back unchanged from joining, splitting and trimming. */
  lemma ResplitStripped(r: seq<string>)
    requires r != []
    requires forall k :: 0 <= k < |r| ==> IsStripped(r[k]) && ';' !in r[k]
    ensures StripAll(Split(Join(r, ";"), ';')) == r
  {
    SplitJoin(r, ';');
    forall k | 0 <= k < |r| ensures Strip(r[k]) == r[k] {
      StripStripped(r[k]);
    }
  }

  /**
    Applied to a skills cell as the denoising step writes it, the keyword
    filter sees exactly the written tokens and removes the keywords among
    them.
   */
  lemma FilterExperienceOfTokens(ts: seq<string>, keywords: set<string>)
    requires ts != []
    requires forall k :: 0 <= k < |ts| ==> IsToken(ts[k])
    ensures FilterExperience(JoinSkills(ts), keywords) == Filter(NotKeyword(keywords), ts)
  {
    JoinedTokenPieces(ts);
  }

  /** The trimmed pieces of the joined tokens are the tokens. */
  lemma JoinedTokenPieces(ts: seq<string>)
    requires ts != []
    requires forall k :: 0 <= k < |ts| ==> IsToken(ts[k])
    ensures StripAll(Split(JoinSkills(ts), ';')) == ts
  {
    var parts := Pad([], " ", ts);
    assert JoinSkills(ts) == Join(parts, [';']) by {
      PadJoin([], ts);
      assert [] + JoinSkills(ts) == JoinSkills(ts);
    }
    PaddedPieces(ts);
    SplitJoin(parts, ';');
  }

  /** Each written piece is its token behind at most one space. */
  lemma PaddedPieces(ts: seq<string>)
    requires forall k :: 0 <= k < |ts| ==> IsToken(ts[k])
    ensures forall i :: 0 <= i < |ts| ==> ';' !in Pad([], " ", ts)[i] && Strip(Pad([], " ", ts)[i]) == ts[i]
  {
    var parts := Pad([], " ", ts);
    OneSpace();
    forall i | 0 <= i < |parts| ensures ';' !in parts[i] && Strip(parts[i]) == ts[i] {
      if i > 0 {
        assert parts[i] == " " + ts[i];
        StripPadded(" ", ts[i]);
      } else {
        assert parts[i] == [] + ts[i];
        StripPadded([], ts[i]);
      }
    }
  }

  // ---------------------------------------------------------------------
  // The category filter

  /** A row of the cleaned dataset, as far as the ranking needs it. */
  datatype Record = Record(title: string, skills: string)

  /** A row after the category filter and the keyword filter. */
  datatype Entry = Entry(title: string, skills: seq<string>)

  const Categories: set<string> := {"Software Engineering", "Data Scientist", "AI/ML"}

  /** The trimmed title decides whether the row is analysed; its skills go through the keyword filter. */
  function SelectRow(row: Record): (r: Option<Entry>)
    ensures r.Some? <==> Strip(row.title) in Categories
    ensures r.Some? ==> r.value.title == Strip(row.title) && r.value.skills == FilterExperience(row.skills, ExperienceKeywords)
  {
    var t := Strip(row.title);
    if t in Categories then Some(Entry(t, FilterExperience(row.skills, ExperienceKeywords))) else None
  }

  function SelectRows(rows: seq<Record>): (r: seq<Entry>)
    ensures |r| <= |rows|
    ensures forall j :: 0 <= j < |r| ==> r[j].title in Categories
    ensures forall j, k :: 0 <= j < |r| && 0 <= k < |r[j].skills| ==> Lower(r[j].skills[k]) !in ExperienceKeywords
  {
    var r := FilterMap(SelectRow, rows);
    forall j | 0 <= j < |r| ensures r[j].title in Categories && forall k :: 0 <= k < |r[j].skills| ==> Lower(r[j].skills[k]) !in ExperienceKeywords {
      var i :| 0 <= i < |rows| && SelectRow(rows[i]) == Some(r[j]);
    }
    r
  }

  /** One more row adds its entry at the end exactly when its title is a category. */
  lemma SelectRowsAppend(rows: seq<Record>, row: Record)
    ensures SelectRows(rows + [row]) ==
            SelectRows(rows) + (if Strip(row.title) in Categories then [Entry(Strip(row.title), FilterExperience(row.skills, ExperienceKeywords))] else [])
  {
    FilterMapSnoc(SelectRow, rows, row);
  }

  /** Blanks around a title do not change the selection. */
  lemma SelectIgnoresBlanks(w1: string, t: string, w2: string, skills: string)
    requires AllSpace(w1) && AllSpace(w2) && IsStripped(t)
    ensures SelectRow(Record(w1 + t + w2, skills)) == SelectRow(Record(t, skills))
  {
    assert Strip(w1 + t + w2) == t by {
      StripSurrounded(w1, t, w2);
    }
    assert Strip(t) == t by {
      StripStripped(t);
    }
  }

  // ---------------------------------------------------------------------
  // Frequency ranking

  /** How often `x` occurs in `xs`, as `value_counts` reports it. */
  function Count(xs: seq<string>, x: string): nat {
    multiset(xs)[x]
  }

  datatype Ranked = Ranked(skill: string, count: nat)

  function Skills(r: seq<Ranked>): (s: seq<string>)
    ensures |s| == |r|
    ensures forall i :: 0 <= i < |r| ==> s[i] == r[i].skill
  {
    seq(|r|, i requires 0 <= i < |r| => r[i].skill)
  }

  /** The position of the first candidate with the highest count. */
  function Leader(cands: seq<string>, xs: seq<string>): (b: nat)
    requires cands != []
    ensures b < |cands|
    ensures forall j :: 0 <= j < |cands| ==> Count(xs, cands[j]) <= Count(xs, cands[b])
    ensures forall j :: 0 <= j < b ==> Count(xs, cands[j]) < Count(xs, cands[b])
  {
    if |cands| == 1 then 0
    else
      var b := Leader(cands[1..], xs);
      assert forall j :: 1 <= j < |cands| ==> cands[j] == cands[1..][j - 1];
      if Count(xs, cands[0]) >= Count(xs, cands[1..][b]) then 0 else b + 1
  }

  /** The candidates without the one at position `i`. */
  function Without(cands: seq<string>, i: nat): (r: seq<string>)
    requires i < |cands| && Distinct(cands)
    ensures |r| == |cands| - 1
    ensures Distinct(r)
    ensures forall x :: x in r <==> x in cands && x != cands[i]
  {
    var r := cands[..i] + cands[i + 1..];
    assert forall j :: 0 <= j < |r| ==> r[j] == (if j < i then cands[j] else cands[j + 1]);
    assert forall x :: x in cands ==> x == cands[i] || x in r by {
      forall x | x in cands ensures x == cands[i] || x in r {
        var j :| 0 <= j < |cands| && cands[j] == x;
        if j < i {
          assert r[j] == x;
        } else if j > i {
          assert r[j - 1] == x;
        }
      }
    }
    r
  }

  /**
    `r` lists candidates with their counts, without repeats, highest
    count first, and no candidate left out counts more than a listed one.
   */
  predicate RankedFrom(r: seq<Ranked>, cands: seq<string>, xs: seq<string>) {
    && (forall i :: 0 <= i < |r| ==> r[i].skill in cands && r[i].count == Count(xs, r[i].skill))
    && Distinct(Skills(r))
    && (forall i, j :: 0 <= i < j < |r| ==> r[i].count >= r[j].count)
    && (forall c, i :: c in cands && c !in Skills(r) && 0 <= i < |r| ==> Count(xs, c) <= r[i].count)
  }

  /**
    The `k` candidates with the highest counts, highest first, taking the
    earlier candidate among equal counts; fewer when there are fewer
    candidates.
   */
  function Rank(cands: seq<string>, xs: seq<string>, k: nat): (r: seq<Ranked>)
    requires Distinct(cands)
    ensures |r| == if k < |cands| then k else |cands|
    ensures RankedFrom(r, cands, xs)
    decreases k
  {
    if k == 0 || cands == [] then []
    else
      var b := Leader(cands, xs);
      var tail := Rank(Without(cands, b), xs, k - 1);
      RankStep(cands, xs, b, tail);
      [Ranked(cands[b], Count(xs, cands[b]))] + tail
  }

  /** Putting the leader in front of a ranking of the other candidates ranks all of them. */
  lemma RankStep(cands: seq<string>, xs: seq<string>, b: nat, tail: seq<Ranked>)
    requires Distinct(cands) && b < |cands|
    requires forall j :: 0 <= j < |cands| ==> Count(xs, cands[j]) <= Count(xs, cands[b])
    requires RankedFrom(tail, Without(cands, b), xs)
    ensures RankedFrom([Ranked(cands[b], Count(xs, cands[b]))] + tail, cands, xs)
  {
    StepMembers(cands, xs, b, tail);
    StepDistinct(cands, xs, b, tail);
    StepSorted(cands, xs, b, tail);
    StepLeftOut(cands, xs, b, tail);
  }

  lemma StepMembers(cands: seq<string>, xs: seq<string>, b: nat, tail: seq<Ranked>)
    requires Distinct(cands) && b < |cands|
    requires forall j :: 0 <= j < |cands| ==> Count(xs, cands[j]) <= Count(xs, cands[b])
    requires RankedFrom(tail, Without(cands, b), xs)
    ensures forall i :: 0 <= i < |([Ranked(cands[b], Count(xs, cands[b]))] + tail)| ==> ([Ranked(cands[b], Count(xs, cands[b]))] + tail)[i].skill in cands && ([Ranked(cands[b], Count(xs, cands[b]))] + tail)[i].count == Count(xs, ([Ranked(cands[b], Count(xs, cands[b]))] + tail)[i].skill)
  {
    var r := ([Ranked(cands[b], Count(xs, cands[b]))] + tail);
    forall i | 0 <= i < |r| ensures r[i].skill in cands && r[i].count == Count(xs, r[i].skill) {
      if i > 0 {
        assert r[i] == tail[i - 1];
      }
    }
  }

  lemma StepDistinct(cands: seq<string>, xs: seq<string>, b: nat, tail: seq<Ranked>)
    requires Distinct(cands) && b < |cands|
    requires forall j :: 0 <= j < |cands| ==> Count(xs, cands[j]) <= Count(xs, cands[b])
    requires RankedFrom(tail, Without(cands, b), xs)
    ensures Distinct(Skills(([Ranked(cands[b], Count(xs, cands[b]))] + tail)))
  {
    assert Skills(([Ranked(cands[b], Count(xs, cands[b]))] + tail)) == [cands[b]] + Skills(tail);
    assert cands[b] !in Skills(tail);
  }

  lemma StepSorted(cands: seq<string>, xs: seq<string>, b: nat, tail: seq<Ranked>)
    requires Distinct(cands) && b < |cands|
    requires forall j :: 0 <= j < |cands| ==> Count(xs, cands[j]) <= Count(xs, cands[b])
    requires RankedFrom(tail, Without(cands, b), xs)
    ensures forall i, j :: 0 <= i < j < |([Ranked(cands[b], Count(xs, cands[b]))] + tail)| ==> ([Ranked(cands[b], Count(xs, cands[b]))] + tail)[i].count >= ([Ranked(cands[b], Count(xs, cands[b]))] + tail)[j].count
  {
    var r := ([Ranked(cands[b], Count(xs, cands[b]))] + tail);
    LeaderOnTop(cands, xs, b, tail);
    forall i, j | 0 <= i < j < |r| ensures r[i].count >= r[j].count {
      assert r[j] == tail[j - 1];
      if i > 0 {
        assert r[i] == tail[i - 1];
      }
    }
  }

  lemma StepLeftOut(cands: seq<string>, xs: seq<string>, b: nat, tail: seq<Ranked>)
    requires Distinct(cands) && b < |cands|
    requires forall j :: 0 <= j < |cands| ==> Count(xs, cands[j]) <= Count(xs, cands[b])
    requires RankedFrom(tail, Without(cands, b), xs)
    ensures forall c, i :: c in cands && c !in Skills(([Ranked(cands[b], Count(xs, cands[b]))] + tail)) && 0 <= i < |([Ranked(cands[b], Count(xs, cands[b]))] + tail)| ==> Count(xs, c) <= ([Ranked(cands[b], Count(xs, cands[b]))] + tail)[i].count
  {
    var r := ([Ranked(cands[b], Count(xs, cands[b]))] + tail);
    forall c, i | c in cands && c !in Skills(r) && 0 <= i < |r| ensures Count(xs, c) <= r[i].count {
      LeftOutBelow(cands, xs, b, tail, c, i);
    }
  }

  /** The leader counts at least as much as every ranked candidate after it. */
  lemma LeaderOnTop(cands: seq<string>, xs: seq<string>, b: nat, tail: seq<Ranked>)
    requires Distinct(cands) && b < |cands|
    requires forall j :: 0 <= j < |cands| ==> Count(xs, cands[j]) <= Count(xs, cands[b])
    requires RankedFrom(tail, Without(cands, b), xs)
    ensures forall i :: 0 <= i < |tail| ==> tail[i].count <= Count(xs, cands[b])
  {
    forall i | 0 <= i < |tail| ensures tail[i].count <= Count(xs, cands[b]) {
      assert tail[i].skill in cands;
      var j :| 0 <= j < |cands| && cands[j] == tail[i].skill;
    }
  }

  /** A candidate left out of the extended ranking counts no more than any ranked one. */
  lemma LeftOutBelow(cands: seq<string>, xs: seq<string>, b: nat, tail: seq<Ranked>, c: string, i: nat)
    requires Distinct(cands) && b < |cands|
    requires forall j :: 0 <= j < |cands| ==> Count(xs, cands[j]) <= Count(xs, cands[b])
    requires RankedFrom(tail, Without(cands, b), xs)
    requires c in cands && c !in Skills(([Ranked(cands[b], Count(xs, cands[b]))] + tail))
    requires i <= |tail|
    ensures Count(xs, c) <= ([Ranked(cands[b], Count(xs, cands[b]))] + tail)[i].count
  {
    var r := ([Ranked(cands[b], Count(xs, cands[b]))] + tail);
    assert Skills(r) == [cands[b]] + Skills(tail);
    assert c != cands[b] && c in Without(cands, b);
    assert c !in Skills(tail);
    var j :| 0 <= j < |cands| && cands[j] == c;
    if i > 0 {
      assert r[i] == tail[i - 1];
    }
  }

  /**
    `r` ranks the five most frequent skills of `all`: at most five distinct
    skills of `all`, each with its count in `all`, most frequent first; no
    skill left out counts more than a listed one, and a list shorter than
    five holds every skill.
   */
  ghost predicate IsTopOf(all: seq<string>, r: seq<Ranked>) {
    && |r| <= 5
    && (forall i :: 0 <= i < |r| ==> r[i].skill in all && r[i].count == Count(all, r[i].skill) && r[i].count > 0)
    && Distinct(Skills(r))
    && (forall i, j :: 0 <= i < j < |r| ==> r[i].count >= r[j].count)
    && (forall c, i :: c in all && c !in Skills(r) && 0 <= i < |r| ==> Count(all, c) <= r[i].count)
    && (|r| < 5 ==> forall c :: c in all ==> c in Skills(r))
  }

  /**
    `value_counts().head(5)` over one title's skills: the most frequent
    skills with their counts, most frequent first; ties go to the skill
    that occurs first.
   */
  function TopSkills(all: seq<string>): (r: seq<Ranked>)
    ensures IsTopOf(all, r)
  {
    var cands := Dedup(all);
    var r := Rank(cands, all, 5);
    TopOfCandidates(all, cands, r);
    r
  }

  /** A ranking of the distinct skills is a ranking of the skills; when it is short, it holds all of them. */
  lemma TopOfCandidates(all: seq<string>, cands: seq<string>, r: seq<Ranked>)
    requires Distinct(cands) && forall x :: x in cands <==> x in all
    requires |r| == if 5 < |cands| then 5 else |cands|
    requires RankedFrom(r, cands, all)
    ensures IsTopOf(all, r)
  {
    forall i | 0 <= i < |r| ensures r[i].skill in all && Count(all, r[i].skill) > 0 {
      assert r[i].skill in multiset(all);
    }
    if |r| < 5 {
      DistinctCover(Skills(r), cands);
    }
  }

  /** A duplicate-free list inside another duplicate-free list of the same length covers all of it. */
  lemma DistinctCover(xs: seq<string>, ys: seq<string>)
    requires Distinct(xs) && Distinct(ys) && |xs| == |ys|
    requires forall x :: x in xs ==> x in ys
    ensures forall y :: y in ys ==> y in xs
  {
    var sx := set x | x in xs;
    var sy := set y | y in ys;
    DistinctCard(xs);
    DistinctCard(ys);
    assert sy == sx + (sy - sx);
    assert sx * (sy - sx) == {};
    assert |sy - sx| == 0;
    forall y | y in ys ensures y in xs {
      assert y in sy;
    }
  }

  lemma {:induction false} DistinctCard(xs: seq<string>)
    requires Distinct(xs)
    ensures |set x | x in xs| == |xs|
  {
    if xs != [] {
      var tail := xs[1..];
      DistinctCard(tail);
      assert (set x | x in xs) == {xs[0]} + (set x | x in tail);
      assert xs[0] !in tail by {
        forall j | 0 <= j < |tail| ensures tail[j] != xs[0] {
          assert tail[j] == xs[j + 1];
        }
      }
    }
  }

  // ---------------------------------------------------------------------
  // Per-title ranking

  /** The titles present, in any order: the keys of the result. */
  function Titles(entries: seq<Entry>): set<string> {
    set i | 0 <= i < |entries| :: entries[i].title
  }

  /** All skills of the entries with title `t`, row after row. */
  function SkillsOf(entries: seq<Entry>, t: string): seq<string> {
    if entries == [] then []
    else (if entries[0].title == t then entries[0].skills else []) + SkillsOf(entries[1..], t)
  }

  /** How often `s` is listed for title `t`, summed row by row from the last row back. */
  function TitleCount(entries: seq<Entry>, t: string, s: string): nat {
    if entries == [] then 0
    else
      var last := entries[|entries| - 1];
      TitleCount(entries[..|entries| - 1], t, s) + (if last.title == t then Count(last.skills, s) else 0)
  }

  lemma {:induction false} SkillsOfAppend(entries: seq<Entry>, e: Entry, t: string)
    ensures SkillsOf(entries + [e], t) == SkillsOf(entries, t) + (if e.title == t then e.skills else [])
  {
    var x := if e.title == t then e.skills else [];
    if entries == [] {
      assert entries + [e] == [e];
      assert [e][1..] == [];
      assert SkillsOf([e], t) == x + [];
    } else {
      var tail := entries[1..];
      assert (entries + [e])[0] == entries[0];
      assert (entries + [e])[1..] == tail + [e];
      SkillsOfAppend(tail, e, t);
      var h := if entries[0].title == t then entries[0].skills else [];
      assert SkillsOf(entries + [e], t) == h + SkillsOf(tail + [e], t);
      assert h + (SkillsOf(tail, t) + x) == (h + SkillsOf(tail, t)) + x;
    }
  }

  /** The count for a skill under a title is the sum of its counts in that title's rows. */
  lemma {:induction false} CountIsTitleCount(entries: seq<Entry>, t: string, s: string)
    ensures Count(SkillsOf(entries, t), s) == TitleCount(entries, t, s)
  {
    if entries != [] {
      var init, last := entries[..|entries| - 1], entries[|entries| - 1];
      assert entries == init + [last];
      SkillsOfAppend(init, last, t);
      CountIsTitleCount(init, t, s);
      var extra := if last.title == t then last.skills else [];
      assert multiset(SkillsOf(init, t) + extra) == multiset(SkillsOf(init, t)) + multiset(extra);
    }
  }

  /** A skill listed for a title occurs in a row with that title. */
  lemma {:induction false} SkillsOfMember(entries: seq<Entry>, t: string, s: string)
    requires s in SkillsOf(entries, t)
    ensures exists i :: 0 <= i < |entries| && entries[i].title == t && s in entries[i].skills
  {
    var head := if entries[0].title == t then entries[0].skills else [];
    if s !in head {
      assert s in SkillsOf(entries[1..], t);
      SkillsOfMember(entries[1..], t, s);
      var i :| 0 <= i < |entries[1..]| && entries[1..][i].title == t && s in entries[1..][i].skills;
      assert entries[i + 1] == entries[1..][i];
    }
  }

  /** Every count over a title's rows is that title's own tally. */
  lemma TitleCounts(entries: seq<Entry>)
    ensures forall t, s :: Count(SkillsOf(entries, t), s) == TitleCount(entries, t, s)
  {
    forall t, s ensures Count(SkillsOf(entries, t), s) == TitleCount(entries, t, s) {
      CountIsTitleCount(entries, t, s);
    }
  }

  /** Some row with title `t` lists skill `s`. */
  predicate ListedUnder(entries: seq<Entry>, t: string, s: string) {
    exists e :: 0 <= e < |entries| && entries[e].title == t && s in entries[e].skills
  }

  /** A skill listed for a title comes from some row with that title. */
  lemma TitleSkillsFrom(entries: seq<Entry>)
    ensures forall t, s :: s in SkillsOf(entries, t) ==> ListedUnder(entries, t, s)
  {
    forall t, s | s in SkillsOf(entries, t) ensures ListedUnder(entries, t, s) {
      SkillsOfMember(entries, t, s);
    }
  }

  /** A row with title `t` that lists `s` puts `s` among the title's skills. */
  lemma {:induction false} ListedInSkillsOf(entries: seq<Entry>, t: string, s: string, e: nat)
    requires e < |entries| && entries[e].title == t && s in entries[e].skills
    ensures s in SkillsOf(entries, t)
    decreases e
  {
    if e > 0 {
      assert entries[1..][e - 1] == entries[e];
      ListedInSkillsOf(entries[1..], t, s, e - 1);
    }
  }

  /** The skills listed under a title are exactly those of its rows. */
  lemma TitleSkillsExactly(entries: seq<Entry>, t: string)
    ensures forall s :: s in SkillsOf(entries, t) <==> ListedUnder(entries, t, s)
  {
    TitleSkillsFrom(entries);
    forall s | ListedUnder(entries, t, s) ensures s in SkillsOf(entries, t) {
      var e :| 0 <= e < |entries| && entries[e].title == t && s in entries[e].skills;
      ListedInSkillsOf(entries, t, s, e);
    }
  }

  /**
    `ranked` is a top-five list for title `t`: at most five distinct
    skills of the title's rows, each with its count over those rows,
    most frequent first; no skill of the title that is left out counts
    more than a listed one, and a list shorter than five holds every
    skill of the title.
   */
  ghost predicate IsTopFor(entries: seq<Entry>, t: string, ranked: seq<Ranked>) {
    && |ranked| <= 5
    && Distinct(Skills(ranked))
    && (forall i :: 0 <= i < |ranked| ==>
          ListedUnder(entries, t, ranked[i].skill) &&
          ranked[i].count == TitleCount(entries, t, ranked[i].skill) && ranked[i].count > 0)
    && (forall i, j :: 0 <= i < j < |ranked| ==> ranked[i].count >= ranked[j].count)
    && (forall s, i :: ListedUnder(entries, t, s) && s !in Skills(ranked) && 0 <= i < |ranked| ==>
          TitleCount(entries, t, s) <= ranked[i].count)
    && (|ranked| < 5 ==> forall s :: ListedUnder(entries, t, s) ==> s in Skills(ranked))
  }

  /** The ranking of a title's flattened skills is a top-five list for that title. */
  lemma TitleTop(entries: seq<Entry>, t: string)
    ensures IsTopFor(entries, t, TopSkills(SkillsOf(entries, t)))
  {
    TitleCounts(entries);
    TitleSkillsExactly(entries, t);
  }

  /**
    `get_top_5_skills`: for every title present, its five most frequent
    skills, each with the number of times the title's rows list it.
   */
  function TopSkillsByTitle(entries: seq<Entry>): (r: map<string, seq<Ranked>>)
    ensures r.Keys == Titles(entries)
    ensures forall t :: t in r ==> IsTopFor(entries, t, r[t])
  {
    var r := map t | t in Titles(entries) :: TopSkills(SkillsOf(entries, t));
    forall t | t in r ensures IsTopFor(entries, t, r[t]) {
      TitleTop(entries, t);
    }
    r
  }
}
