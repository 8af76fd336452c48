/**
  The two per-source adapters and their concatenation.

  A scraped row is the dictionary a CSV reader yields: column name to cell
  text, with absent columns simply missing. Each adapter keeps the rows
  whose salary parses to a non-zero amount and turns them into a job
  record `{Title, Location, Skills, Salary}`; the merged dataset is the
  first source's records followed by the second's.
 */
module Preprocess {
  import opened Common
  import opened Text
  import opened Salary
  import opened Location

  type Row = map<string, string>

  /** One record of the analysis dataset; the salary is annual, in cents. */
  datatype Job = Job(title: string, location: string, skills: Option<string>, salary: nat)

  /** `row.get(key, default)`. */
  function Get(row: Row, key: string, default: string): string {
    if key in row then row[key] else default
  }

  const DefaultTitle: string := "Software Engineering"

  /** The salary the source keeps: one that parses and is not zero (zero is false in a truth test). */
  function KeptSalary(text: string): (r: Option<nat>)
    ensures r.Some? ==> r.value > 0
    ensures r.Some? <==> ExtractSalary(text).Some? && ExtractSalary(text).value != 0
    ensures r.Some? ==> r == ExtractSalary(text)
  {
    match ExtractSalary(text)
    case None => None
    case Some(c) => if c == 0 then None else Some(c)
  }

  /** A row of the already-processed source, with qualifications and a `Job Name` column. */
  function AdaptProcessed(row: Row, states: map<string, string>): (r: Option<Job>)
    ensures r.Some? <==> KeptSalary(Get(row, "Salary", "")).Some?
    ensures "Salary" !in row ==> r.None?
    ensures r.Some? ==> r.value.salary > 0 && r.value.salary == ExtractSalary(row["Salary"]).value
    ensures r.Some? ==> r.value.location == RemoteLabel || r.value.location in states.Values
    ensures r.Some? ==> r.value.location == StandardizeLocation(Get(row, "Location", ""), states)
    ensures r.Some? && "Job Name" in row ==> r.value.title == row["Job Name"]
    ensures r.Some? && "Job Name" !in row ==> r.value.title == DefaultTitle
    ensures r.Some? ==> (r.value.skills.Some? <==> "Qualifications" in row)
    ensures r.Some? && "Qualifications" in row ==> r.value.skills == Some(row["Qualifications"])
  {
    match KeptSalary(Get(row, "Salary", ""))
    case None => None
    case Some(c) =>
      Some(Job(
        Get(row, "Job Name", DefaultTitle),
        StandardizeLocation(Get(row, "Location", ""), states),
        if "Qualifications" in row then Some(row["Qualifications"]) else None,
        c))
  }

  function ProcessProcessedJobData(rows: seq<Row>, states: map<string, string>): (r: seq<Job>)
    ensures |r| <= |rows|
    ensures forall j :: 0 <= j < |r| ==> r[j].salary > 0
    ensures forall j :: 0 <= j < |r| ==> r[j].location == RemoteLabel || r[j].location in states.Values
  {
    var f := (row: Row) => AdaptProcessed(row, states);
    var r := FilterMap(f, rows);
    assert forall j :: 0 <= j < |r| ==> exists i :: 0 <= i < |rows| && f(rows[i]) == Some(r[j]);
    r
  }

  /** The flexjobs title, trimmed, with the two known titles renamed to their category. */
  function RenameTitle(title: string): (r: string)
    ensures IsStripped(r)
    ensures Lower(Strip(title)) == "machine learning engineer" ==> r == "AI/ML"
    ensures Lower(Strip(title)) == "software engineer" ==> r == "Software Engineering"
    ensures Lower(Strip(title)) != "machine learning engineer" && Lower(Strip(title)) != "software engineer" ==>
              r == Strip(title)
  {
    var t := Strip(title);
    var l := Lower(t);
    if l == "machine learning engineer" then "AI/ML"
    else if l == "software engineer" then "Software Engineering"
    else t
  }

  /** A row of the flexjobs source: no qualifications, the location in `Remote Option`. */
  function AdaptFlexjobs(row: Row, states: map<string, string>): (r: Option<Job>)
    ensures r.Some? <==> KeptSalary(Get(row, "Salary Range", "")).Some?
    ensures "Salary Range" !in row ==> r.None?
    ensures r.Some? ==> r.value.salary > 0 && r.value.salary == ExtractSalary(row["Salary Range"]).value
    ensures r.Some? ==> r.value.skills.None?
    ensures r.Some? ==> r.value.title == RenameTitle(Get(row, "Job Title", DefaultTitle))
    ensures r.Some? ==> r.value.location == StandardizeLocation(Get(row, "Remote Option", ""), states)
  {
    match KeptSalary(Get(row, "Salary Range", ""))
    case None => None
    case Some(c) =>
      Some(Job(
        RenameTitle(Get(row, "Job Title", DefaultTitle)),
        StandardizeLocation(Get(row, "Remote Option", ""), states),
        None,
        c))
  }

  function ProcessFlexjobs(rows: seq<Row>, states: map<string, string>): (r: seq<Job>)
    ensures |r| <= |rows|
    ensures forall j :: 0 <= j < |r| ==> r[j].salary > 0 && r[j].skills.None? && IsStripped(r[j].title)
  {
    var f := (row: Row) => AdaptFlexjobs(row, states);
    var r := FilterMap(f, rows);
    assert forall j :: 0 <= j < |r| ==> exists i :: 0 <= i < |rows| && f(rows[i]) == Some(r[j]);
    r
  }

  /** The merged dataset: the processed source's records, then the flexjobs records. */
  function Combine(processed: seq<Row>, flexjobs: seq<Row>, states: map<string, string>): (r: seq<Job>)
    ensures |r| <= |processed| + |flexjobs|
    ensures forall j :: 0 <= j < |r| ==> r[j].salary > 0
  {
    ProcessProcessedJobData(processed, states) + ProcessFlexjobs(flexjobs, states)
  }
}

/**
  Properties of the adapters that relate several calls: row order,
  one-pass equivalence of the merge, and the title renaming.
 */
module PreprocessFacts {
  import opened Common
  import opened Text
  import opened Salary
  import opened Location
  import opened Preprocess

  /** One more input row adds its record at the end, exactly when its salary is kept. */
  lemma ProcessedAppendRow(rows: seq<Row>, row: Row, states: map<string, string>)
    ensures ProcessProcessedJobData(rows + [row], states) ==
            ProcessProcessedJobData(rows, states) + (match AdaptProcessed(row, states) case Some(j) => [j] case None => [])
  {
    FilterMapSnoc((r: Row) => AdaptProcessed(r, states), rows, row);
  }

  lemma FlexjobsAppendRow(rows: seq<Row>, row: Row, states: map<string, string>)
    ensures ProcessFlexjobs(rows + [row], states) ==
            ProcessFlexjobs(rows, states) + (match AdaptFlexjobs(row, states) case Some(j) => [j] case None => [])
  {
    FilterMapSnoc((r: Row) => AdaptFlexjobs(r, states), rows, row);
  }

  /** The number of records is the number of rows with a kept salary. */
  lemma ProcessedCount(rows: seq<Row>, states: map<string, string>)
    ensures |ProcessProcessedJobData(rows, states)| ==
            |Filter((row: Row) => KeptSalary(Get(row, "Salary", "")).Some?, rows)|
  {
    FilterMapLength((row: Row) => AdaptProcessed(row, states), (row: Row) => KeptSalary(Get(row, "Salary", "")).Some?, rows);
  }

  lemma FlexjobsCount(rows: seq<Row>, states: map<string, string>)
    ensures |ProcessFlexjobs(rows, states)| ==
            |Filter((row: Row) => KeptSalary(Get(row, "Salary Range", "")).Some?, rows)|
  {
    FilterMapLength((row: Row) => AdaptFlexjobs(row, states), (row: Row) => KeptSalary(Get(row, "Salary Range", "")).Some?, rows);
  }

  /** Which source a row came from. */
  datatype Source = ProcessedSource | FlexjobsSource

  function Adapt(src: Source, row: Row, states: map<string, string>): Option<Job> {
    match src
    case ProcessedSource => AdaptProcessed(row, states)
    case FlexjobsSource => AdaptFlexjobs(row, states)
  }

  function Tag(src: Source, rows: seq<Row>): (r: seq<(Source, Row)>)
    ensures |r| == |rows|
  {
    seq(|rows|, i requires 0 <= i < |rows| => (src, rows[i]))
  }

  lemma {:induction false} TaggedPass(src: Source, rows: seq<Row>, states: map<string, string>)
    ensures FilterMap((sr: (Source, Row)) => Adapt(sr.0, sr.1, states), Tag(src, rows)) ==
            FilterMap((row: Row) => Adapt(src, row, states), rows)
  {
    if rows != [] {
      assert Tag(src, rows)[1..] == Tag(src, rows[1..]);
      TaggedPass(src, rows[1..], states);
    }
  }

  /**
    The merge is the same as one pass over the processed rows followed by
    the flexjobs rows, each handled by its own adapter: nothing is
    reordered, dropped or added by the concatenation.
   */
  lemma CombineIsOnePass(processed: seq<Row>, flexjobs: seq<Row>, states: map<string, string>)
    ensures Combine(processed, flexjobs, states) ==
            FilterMap((sr: (Source, Row)) => Adapt(sr.0, sr.1, states),
                      Tag(ProcessedSource, processed) + Tag(FlexjobsSource, flexjobs))
  {
    var f := (sr: (Source, Row)) => Adapt(sr.0, sr.1, states);
    FilterMapAppend(f, Tag(ProcessedSource, processed), Tag(FlexjobsSource, flexjobs));
    TaggedPass(ProcessedSource, processed, states);
    TaggedPass(FlexjobsSource, flexjobs, states);
    FilterMapSameImage((row: Row) => Adapt(ProcessedSource, row, states), (row: Row) => AdaptProcessed(row, states), processed);
    FilterMapSameImage((row: Row) => Adapt(FlexjobsSource, row, states), (row: Row) => AdaptFlexjobs(row, states), flexjobs);
  }

  lemma {:induction false} FilterMapSameImage<A, B>(f: A -> Option<B>, g: A -> Option<B>, xs: seq<A>)
    requires forall x :: f(x) == g(x)
    ensures FilterMap(f, xs) == FilterMap(g, xs)
  {
    if xs != [] {
      FilterMapSameImage(f, g, xs[1..]);
    }
  }

  /** Renaming a title that was already renamed changes nothing. */
  lemma RenameTitleIdempotent(title: string)
    ensures RenameTitle(RenameTitle(title)) == RenameTitle(title)
  {
    var r := RenameTitle(title);
    StripStripped(r);
    // Neither category name has the length of a renamed title once lower-cased.
    assert |Lower(r)| == |r|;
  }

  /** Only the letters' case and the surrounding blanks are ignored when matching a title. */
  lemma RenameIgnoresCaseAndBlanks(a: string, b: string)
    requires Lower(Strip(a)) == Lower(Strip(b))
    requires Lower(Strip(a)) in {"machine learning engineer", "software engineer"}
    ensures RenameTitle(a) == RenameTitle(b)
  {
  }

  /** A title outside the two renamed ones passes through, only trimmed. */
  lemma RenameKeepsOtherTitles(w1: string, t: string, w2: string)
    requires AllSpace(w1) && AllSpace(w2) && IsStripped(t)
    requires Lower(t) != "machine learning engineer" && Lower(t) != "software engineer"
    ensures RenameTitle(w1 + t + w2) == t
  {
    StripSurrounded(w1, t, w2);
  }
}
