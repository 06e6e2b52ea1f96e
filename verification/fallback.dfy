/**
 * The manual fallback analysis (`performManualAnalysis`): the plain-text report the analyser
 * writes itself when the completion service cannot answer. It looks for the first mentioned
 * instructor, then the first mentioned domain, and reports session counts, average ratings and
 * a per-domain or per-instructor breakdown.
 */
module Fallback {
  import opened Wrappers
  import opened Text
  import opened Records
  import opened Relevance
  import JsObject

  // ---------------------------------------------------------------------------------------
  // calculateAverage

  /** The rating one record contributes to an average: its cell must be non-empty, parse to a
      number and, because `filter(Boolean)` drops it, not be zero. `parse` is `parseFloat`,
      with `None` for `NaN`. */
  function Rating(r: Record, field: string, parse: string -> Option<real>): Option<real> {
    if !Truthy(Get(r, field)) then None
    else match parse(Get(r, field).value)
      case None => None
      case Some(x) => if x == 0.0 then None else Some(x)
  }

  /** The surviving ratings, in row order. */
  function Ratings(rows: seq<Record>, field: string, parse: string -> Option<real>): (xs: seq<real>)
    ensures |xs| <= |rows|
    decreases |rows|
  {
    if rows == [] then []
    else (match Rating(rows[0], field, parse) case None => [] case Some(x) => [x]) + Ratings(rows[1..], field, parse)
  }

  /** The surviving ratings are exactly the ratings of the records. */
  lemma {:induction false} RatingsMembers(rows: seq<Record>, field: string, parse: string -> Option<real>)
    ensures forall x :: x in Ratings(rows, field, parse) <==> exists r :: r in rows && Rating(r, field, parse) == Some(x)
    decreases |rows|
  {
    if rows != [] {
      RatingsMembers(rows[1..], field, parse);
      forall x
        ensures x in Ratings(rows, field, parse) <==> exists r :: r in rows && Rating(r, field, parse) == Some(x)
      {
        if x in Ratings(rows[1..], field, parse) {
          var r :| r in rows[1..] && Rating(r, field, parse) == Some(x);
          assert r in rows;
        }
        if exists r :: r in rows && Rating(r, field, parse) == Some(x) {
          var r :| r in rows && Rating(r, field, parse) == Some(x);
          if r != rows[0] {
            assert r in rows[1..] by { assert rows == [rows[0]] + rows[1..]; }
          }
        }
      }
    }
  }

  function Sum(xs: seq<real>): real
    decreases |xs|
  {
    if xs == [] then 0.0 else xs[0] + Sum(xs[1..])
  }

  /** `calculateAverage(rows, field)` before `toFixed(2)`: no value without a surviving rating,
      otherwise the exact mean of the surviving ratings. */
  function Average(rows: seq<Record>, field: string, parse: string -> Option<real>): (avg: Option<real>)
    ensures avg.None? <==> forall r :: r in rows ==> Rating(r, field, parse).None?
  {
    var xs := Ratings(rows, field, parse);
    NoRatingsIff(rows, field, parse);
    if xs == [] then None else Some(Sum(xs) / |xs| as real)
  }

  /** No rating survives exactly when no record has one. */
  lemma {:induction false} NoRatingsIff(rows: seq<Record>, field: string, parse: string -> Option<real>)
    ensures Ratings(rows, field, parse) == [] <==> forall r :: r in rows ==> Rating(r, field, parse).None?
    decreases |rows|
  {
    if rows != [] {
      NoRatingsIff(rows[1..], field, parse);
      assert forall r :: r in rows <==> r == rows[0] || r in rows[1..] by { assert rows == [rows[0]] + rows[1..]; }
    }
  }

  /** The average times the number of surviving ratings is their total. */
  lemma AverageTimesCount(rows: seq<Record>, field: string, parse: string -> Option<real>, avg: real)
    requires Average(rows, field, parse) == Some(avg)
    ensures avg * |Ratings(rows, field, parse)| as real == Sum(Ratings(rows, field, parse))
  {
    var xs := Ratings(rows, field, parse);
    AverageIsMean(rows, field, parse);
    MeanTimesCount(avg, Sum(xs), |xs| as real);
  }

  lemma AverageIsMean(rows: seq<Record>, field: string, parse: string -> Option<real>)
    requires Average(rows, field, parse).Some?
    ensures Ratings(rows, field, parse) != []
    ensures Average(rows, field, parse).value == Sum(Ratings(rows, field, parse)) / |Ratings(rows, field, parse)| as real
  {
  }

  lemma MeanTimesCount(mean: real, total: real, n: real)
    requires n > 0.0 && mean == total / n
    ensures mean * n == total
  {
  }

  /** A total bounded by `lo * n` and `hi * n` has its mean between `lo` and `hi`. */
  lemma MeanBetween(total: real, n: real, lo: real, hi: real)
    requires n > 0.0
    requires lo * n <= total <= hi * n
    ensures lo <= total / n <= hi
  {
    MeanTimesCount(total / n, total, n);
  }

  lemma {:induction false} SumBounds(xs: seq<real>, lo: real, hi: real)
    requires forall x :: x in xs ==> lo <= x <= hi
    ensures lo * |xs| as real <= Sum(xs) <= hi * |xs| as real
    decreases |xs|
  {
    if xs != [] {
      var m := |xs[1..]| as real;
      assert xs[0] in xs;
      forall x | x in xs[1..] ensures lo <= x <= hi {
        assert x in xs;
      }
      SumBounds(xs[1..], lo, hi);
      Distribute(lo, m);
      Distribute(hi, m);
      assert |xs| as real == 1.0 + m;
    }
  }

  lemma Distribute(c: real, m: real)
    ensures c * (1.0 + m) == c + c * m
  {
  }

  /** The mean lies within the range of the ratings it averages. */
  lemma AverageWithinRatings(rows: seq<Record>, field: string, parse: string -> Option<real>, lo: real, hi: real)
    requires Average(rows, field, parse).Some?
    requires forall r :: r in rows && Rating(r, field, parse).Some? ==> lo <= Rating(r, field, parse).value <= hi
    ensures lo <= Average(rows, field, parse).value <= hi
  {
    var xs := Ratings(rows, field, parse);
    RatingsWithin(rows, field, parse, lo, hi);
    MeanOfBounded(xs, lo, hi);
  }

  lemma RatingsWithin(rows: seq<Record>, field: string, parse: string -> Option<real>, lo: real, hi: real)
    requires forall r :: r in rows && Rating(r, field, parse).Some? ==> lo <= Rating(r, field, parse).value <= hi
    ensures forall x :: x in Ratings(rows, field, parse) ==> lo <= x <= hi
  {
    RatingsMembers(rows, field, parse);
    forall x | x in Ratings(rows, field, parse) ensures lo <= x <= hi {
      var r :| r in rows && Rating(r, field, parse) == Some(x);
    }
  }

  lemma MeanOfBounded(xs: seq<real>, lo: real, hi: real)
    requires xs != []
    requires forall x :: x in xs ==> lo <= x <= hi
    ensures lo <= Sum(xs) / |xs| as real <= hi
  {
    SumBounds(xs, lo, hi);
    MeanBetween(Sum(xs), |xs| as real, lo, hi);
  }

  /** A record whose rating cell is empty, unparseable or zero does not move the average. */
  lemma {:induction false} UnratedRowIgnored(a: seq<Record>, r: Record, b: seq<Record>, field: string, parse: string -> Option<real>)
    requires Rating(r, field, parse).None?
    ensures Ratings(a + [r] + b, field, parse) == Ratings(a + b, field, parse)
    ensures Average(a + [r] + b, field, parse) == Average(a + b, field, parse)
    decreases |a|
  {
    if a == [] {
      assert a + [r] + b == [r] + b;
      assert ([r] + b)[1..] == b;
      assert a + b == b;
    } else {
      assert (a + [r] + b)[0] == a[0] && (a + [r] + b)[1..] == a[1..] + [r] + b;
      assert (a + b)[0] == a[0] && (a + b)[1..] == a[1..] + b;
      UnratedRowIgnored(a[1..], r, b, field, parse);
    }
  }

  // ---------------------------------------------------------------------------------------
  // Grouping into a plain object

  /** One entry of the grouping map: a label and the records pushed under it, in order. */
  datatype Group = Group(tag: string, rows: seq<Record>)

  /** `row[field] || 'Unknown'`. */
  function LabelOf(r: Record, field: string): string {
    OrElse(Get(r, field), "Unknown")
  }

  function Labels(groups: seq<Group>): (ls: seq<string>)
    ensures |ls| == |groups|
    ensures forall i :: 0 <= i < |groups| ==> ls[i] == groups[i].tag
    decreases |groups|
  {
    if groups == [] then [] else [groups[0].tag] + Labels(groups[1..])
  }

  /** `if (!map[label]) map[label] = []; map[label].push(row)` on a map whose keys are all own
      properties: the row joins its label's entry, or opens a new entry at the end. */
  function Place(groups: seq<Group>, tag: string, r: Record): seq<Group>
    decreases |groups|
  {
    if groups == [] then [Group(tag, [r])]
    else if groups[0].tag == tag then [Group(tag, groups[0].rows + [r])] + groups[1..]
    else [groups[0]] + Place(groups[1..], tag, r)
  }

  /** The grouping `forEach` over `rows`, in row order, for labels that are not inherited. */
  function Grouped(rows: seq<Record>, field: string): seq<Group>
    decreases |rows|
  {
    if rows == [] then []
    else
      var n := |rows| - 1;
      Place(Grouped(rows[..n], field), LabelOf(rows[n], field), rows[n])
  }

  /** The message of the `TypeError` thrown when a label names an inherited property of `{}`:
      the entry found there is truthy, so no array replaces it, and it has no `push`. */
  function PushError(mapName: string): string {
    mapName + ".push is not a function"
  }

  /** The grouping loop including its failure: the first record whose label is inherited from
      `Object.prototype` aborts the analysis with a `TypeError`. */
  function GroupBy(rows: seq<Record>, field: string, mapName: string): Result<seq<Group>, string>
    decreases |rows|
  {
    if rows == [] then Success([])
    else
      var n := |rows| - 1;
      var prior :- GroupBy(rows[..n], field, mapName);
      var tag := LabelOf(rows[n], field);
      if tag in JsObject.InheritedNames then Failure(PushError(mapName))
      else Success(Place(prior, tag, rows[n]))
  }

  /** The labels of `rows`, in row order. */
  function LabelSeq(rows: seq<Record>, field: string): (ls: seq<string>)
    ensures |ls| == |rows|
    ensures forall i :: 0 <= i < |rows| ==> ls[i] == LabelOf(rows[i], field)
    decreases |rows|
  {
    if rows == [] then [] else LabelSeq(rows[..|rows| - 1], field) + [LabelOf(rows[|rows| - 1], field)]
  }

  /** The records carrying `tag`, in row order: the reference definition of a group. */
  function RowsLabelled(rows: seq<Record>, field: string, tag: string): (out: seq<Record>)
    ensures forall r :: r in out <==> r in rows && LabelOf(r, field) == tag
    decreases |rows|
  {
    if rows == [] then []
    else
      var n := |rows| - 1;
      assert rows == rows[..n] + [rows[n]];
      RowsLabelled(rows[..n], field, tag) + (if LabelOf(rows[n], field) == tag then [rows[n]] else [])
  }

  function SizeSum(groups: seq<Group>): nat
    decreases |groups|
  {
    if groups == [] then 0 else |groups[0].rows| + SizeSum(groups[1..])
  }

  lemma {:induction false} PlaceLabels(groups: seq<Group>, tag: string, r: Record)
    ensures Labels(Place(groups, tag, r))
         == if tag in Labels(groups) then Labels(groups) else Labels(groups) + [tag]
    decreases |groups|
  {
    if groups != [] {
      PlaceLabels(groups[1..], tag, r);
      assert Labels(groups) == [groups[0].tag] + Labels(groups[1..]);
      if groups[0].tag != tag {
        assert Labels(Place(groups, tag, r)) == [groups[0].tag] + Labels(Place(groups[1..], tag, r));
      }
    }
  }

  lemma {:induction false} PlaceRows(groups: seq<Group>, tag: string, r: Record)
    requires NoDuplicates(Labels(groups))
    ensures |Place(groups, tag, r)| == if tag in Labels(groups) then |groups| else |groups| + 1
    ensures forall i :: 0 <= i < |groups| ==>
              Place(groups, tag, r)[i].rows
                == groups[i].rows + (if groups[i].tag == tag then [r] else [])
    ensures tag !in Labels(groups) ==> Place(groups, tag, r)[|groups|] == Group(tag, [r])
    decreases |groups|
  {
    if groups != [] && groups[0].tag == tag {
      PlaceRowsHit(groups, tag, r);
    } else if groups != [] {
      assert Labels(groups[1..]) == Labels(groups)[1..];
      PlaceRows(groups[1..], tag, r);
      PlaceRowsMiss(groups, tag, r);
    }
  }

  /** Placing under the first group's label extends that group and leaves the others. */
  lemma PlaceRowsHit(groups: seq<Group>, tag: string, r: Record)
    requires NoDuplicates(Labels(groups))
    requires groups != [] && groups[0].tag == tag
    ensures tag in Labels(groups)
    ensures |Place(groups, tag, r)| == |groups|
    ensures Place(groups, tag, r)[0].rows == groups[0].rows + [r]
    ensures forall i :: 0 < i < |groups| ==> Place(groups, tag, r)[i] == groups[i] && groups[i].tag != tag
  {
    var p := Place(groups, tag, r);
    assert Labels(groups)[0] == tag;
    forall i | 0 < i < |groups| ensures p[i] == groups[i] && groups[i].tag != tag {
      assert p[i] == groups[1..][i - 1];
      assert Labels(groups)[i] != Labels(groups)[0];
    }
  }

  /** Placing under another label keeps the first group and places into the rest. */
  lemma PlaceRowsMiss(groups: seq<Group>, tag: string, r: Record)
    requires groups != [] && groups[0].tag != tag
    ensures Place(groups, tag, r)[0] == groups[0]
    ensures Place(groups, tag, r)[1..] == Place(groups[1..], tag, r)
    ensures tag in Labels(groups) <==> tag in Labels(groups[1..])
    ensures forall i :: 0 < i < |Place(groups, tag, r)| ==>
              Place(groups, tag, r)[i] == Place(groups[1..], tag, r)[i - 1]
    ensures forall i :: 0 < i < |groups| ==> groups[i] == groups[1..][i - 1]
  {
    assert Labels(groups) == [groups[0].tag] + Labels(groups[1..]);
  }

  lemma {:induction false} PlaceSize(groups: seq<Group>, tag: string, r: Record)
    ensures SizeSum(Place(groups, tag, r)) == SizeSum(groups) + 1
    decreases |groups|
  {
    if groups != [] && groups[0].tag != tag {
      PlaceSize(groups[1..], tag, r);
    }
  }

  /** The grouping map's keys are the distinct labels in first-seen order. */
  lemma {:induction false} GroupedLabels(rows: seq<Record>, field: string)
    ensures Labels(Grouped(rows, field)) == Distinct(LabelSeq(rows, field))
    decreases |rows|
  {
    if rows != [] {
      var n := |rows| - 1;
      GroupedLabels(rows[..n], field);
      PlaceLabels(Grouped(rows[..n], field), LabelOf(rows[n], field), rows[n]);
      assert LabelSeq(rows, field)[..n] == LabelSeq(rows[..n], field);
    }
  }

  /** Each entry of the grouping map holds precisely the records with its label, in row order. */
  lemma {:induction false} GroupedRows(rows: seq<Record>, field: string)
    ensures forall i :: 0 <= i < |Grouped(rows, field)| ==>
              Grouped(rows, field)[i].rows == RowsLabelled(rows, field, Grouped(rows, field)[i].tag)
    decreases |rows|
  {
    if rows != [] {
      var n := |rows| - 1;
      var prior := Grouped(rows[..n], field);
      var tag := LabelOf(rows[n], field);
      GroupedRows(rows[..n], field);
      GroupedLabels(rows[..n], field);
      PlaceLabels(prior, tag, rows[n]);
      PlaceRows(prior, tag, rows[n]);
      if tag !in Labels(prior) {
        UnseenLabelHasNoRows(rows[..n], field, tag);
      }
      GroupedRowsStep(rows, field, prior, Grouped(rows, field));
    }
  }

  lemma GroupedRowsStep(rows: seq<Record>, field: string, prior: seq<Group>, g: seq<Group>)
    requires rows != []
    requires forall i :: 0 <= i < |prior| ==>
               prior[i].rows == RowsLabelled(rows[..|rows| - 1], field, prior[i].tag)
    requires var tag := LabelOf(rows[|rows| - 1], field);
             && Labels(g) == (if tag in Labels(prior) then Labels(prior) else Labels(prior) + [tag])
             && (forall i :: 0 <= i < |prior| ==>
                   g[i].rows == prior[i].rows + (if prior[i].tag == tag then [rows[|rows| - 1]] else []))
             && (tag !in Labels(prior) ==>
                   g[|prior|] == Group(tag, [rows[|rows| - 1]]) && RowsLabelled(rows[..|rows| - 1], field, tag) == [])
    ensures forall i :: 0 <= i < |g| ==> g[i].rows == RowsLabelled(rows, field, g[i].tag)
  {
    var n := |rows| - 1;
    forall i | 0 <= i < |g|
      ensures g[i].rows == RowsLabelled(rows, field, g[i].tag)
    {
      if i < |prior| {
        assert g[i].tag == prior[i].tag by { assert Labels(g)[i] == Labels(prior)[i]; }
      } else {
        assert [] + [rows[n]] == [rows[n]];
      }
    }
  }

  /** Together the entries hold every record exactly once. */
  lemma {:induction false} GroupedSize(rows: seq<Record>, field: string)
    ensures SizeSum(Grouped(rows, field)) == |rows|
    decreases |rows|
  {
    if rows != [] {
      var n := |rows| - 1;
      GroupedSize(rows[..n], field);
      PlaceSize(Grouped(rows[..n], field), LabelOf(rows[n], field), rows[n]);
    }
  }

  lemma {:induction false} UnseenLabelHasNoRows(rows: seq<Record>, field: string, tag: string)
    requires tag !in LabelSeq(rows, field)
    ensures RowsLabelled(rows, field, tag) == []
    decreases |rows|
  {
    if rows != [] {
      var n := |rows| - 1;
      assert LabelSeq(rows, field) == LabelSeq(rows[..n], field) + [LabelOf(rows[n], field)];
      UnseenLabelHasNoRows(rows[..n], field, tag);
    }
  }

  /** The grouping fails exactly when some record's label is inherited from `Object.prototype`;
      otherwise it is the plain grouping. */
  lemma {:induction false} GroupByOutcome(rows: seq<Record>, field: string, mapName: string)
    ensures GroupBy(rows, field, mapName).Failure?
        <==> exists r :: r in rows && LabelOf(r, field) in JsObject.InheritedNames
    ensures GroupBy(rows, field, mapName).Failure? ==> GroupBy(rows, field, mapName).error == PushError(mapName)
    ensures GroupBy(rows, field, mapName).Success? ==> GroupBy(rows, field, mapName).value == Grouped(rows, field)
    decreases |rows|
  {
    if rows != [] {
      var n := |rows| - 1;
      GroupByOutcome(rows[..n], field, mapName);
      assert rows == rows[..n] + [rows[n]];
      assert forall r :: r in rows <==> r in rows[..n] || r == rows[n];
    }
  }

  // ---------------------------------------------------------------------------------------
  // Reports

  /** One line of a breakdown: a label, its session count and its average rating. */
  datatype GroupLine = GroupLine(tag: string, count: nat, average: Option<real>)

  /** One session as the instructor report lists it, with the report's placeholders filled in. */
  datatype Session = Session(topic: string, domain: string, date: string, rating: string, cohorts: Option<string>)

  datatype Analysis =
    | InstructorReport(instructor: string, total: nat, average: Option<real>, byDomain: seq<GroupLine>, sessions: seq<Session>)
    | DomainReport(domain: string, total: nat, average: Option<real>, byInstructor: seq<GroupLine>)
    | NoInstructorData(instructor: string)
    | NoDomainData(domain: string)
    | Unrecognised
    | AnalysisError(message: string)

  function GroupLines(groups: seq<Group>, parse: string -> Option<real>): (lines: seq<GroupLine>)
    ensures |lines| == |groups|
    ensures forall i :: 0 <= i < |groups| ==>
              lines[i] == GroupLine(groups[i].tag, |groups[i].rows|, Average(groups[i].rows, OverallRating, parse))
    decreases |groups|
  {
    if groups == [] then []
    else [GroupLine(groups[0].tag, |groups[0].rows|, Average(groups[0].rows, OverallRating, parse))]
         + GroupLines(groups[1..], parse)
  }

  function CountSum(lines: seq<GroupLine>): nat
    decreases |lines|
  {
    if lines == [] then 0 else lines[0].count + CountSum(lines[1..])
  }

  lemma {:induction false} CountSumIsSizeSum(groups: seq<Group>, parse: string -> Option<real>)
    ensures CountSum(GroupLines(groups, parse)) == SizeSum(groups)
    decreases |groups|
  {
    if groups != [] {
      CountSumIsSizeSum(groups[1..], parse);
      assert GroupLines(groups, parse)[1..] == GroupLines(groups[1..], parse);
    }
  }

  function SessionOf(r: Record): Session {
    Session(
      OrElse(Get(r, TopicCode), "Unknown Topic"),
      OrElse(Get(r, Domain), "Not specified"),
      OrElse(Get(r, SessionDate), "Not specified"),
      OrElse(Get(r, OverallRating), "Not rated"),
      if Truthy(Get(r, Cohorts)) then Get(r, Cohorts) else None)
  }

  function Sessions(rows: seq<Record>): (ss: seq<Session>)
    ensures |ss| == |rows|
    ensures forall i :: 0 <= i < |rows| ==> ss[i] == SessionOf(rows[i])
    decreases |rows|
  {
    if rows == [] then [] else [SessionOf(rows[0])] + Sessions(rows[1..])
  }

  /** The first vocabulary entry the query mentions, in vocabulary order. */
  function FirstMentioned(lowerQuery: string, vocab: seq<string>): (found: Option<string>)
    ensures found.None? <==> forall v :: v in vocab ==> !Mentions(lowerQuery, v)
    ensures found.Some? ==> exists k :: (0 <= k < |vocab| && vocab[k] == found.value
              && Mentions(lowerQuery, vocab[k])
              && forall j :: 0 <= j < k ==> !Mentions(lowerQuery, vocab[j]))
    decreases |vocab|
  {
    if vocab == [] then None
    else if Mentions(lowerQuery, vocab[0]) then Some(vocab[0])
    else
      var rest := FirstMentioned(lowerQuery, vocab[1..]);
      assert forall v :: v in vocab ==> v == vocab[0] || v in vocab[1..];
      if rest.Some? then FirstMentionedShift(lowerQuery, vocab, rest.value); rest else rest
  }

  lemma FirstMentionedShift(lowerQuery: string, vocab: seq<string>, w: string)
    requires vocab != [] && !Mentions(lowerQuery, vocab[0])
    requires exists k :: 0 <= k < |vocab[1..]| && vocab[1..][k] == w
               && Mentions(lowerQuery, vocab[1..][k])
               && forall j :: 0 <= j < k ==> !Mentions(lowerQuery, vocab[1..][j])
    ensures exists k :: 0 <= k < |vocab| && vocab[k] == w
              && Mentions(lowerQuery, vocab[k])
              && forall j :: 0 <= j < k ==> !Mentions(lowerQuery, vocab[j])
  {
    var k :| 0 <= k < |vocab[1..]| && vocab[1..][k] == w
             && Mentions(lowerQuery, vocab[1..][k])
             && forall j :: 0 <= j < k ==> !Mentions(lowerQuery, vocab[1..][j]);
    forall j | 0 <= j < k + 1 ensures !Mentions(lowerQuery, vocab[j]) {
      if j > 0 { assert vocab[j] == vocab[1..][j - 1]; }
    }
    assert vocab[k + 1] == w;
  }

  const DomainMapEntry := "domainMap[domain]"
  const InstructorMapEntry := "instructorMap[instructor]"

  /** The instructor branch (:306-359): the instructor's records, grouped by domain. */
  function InstructorAnalysis(instructor: string, rs: seq<Record>, parse: string -> Option<real>): Analysis {
    var own := RowsWith(rs, Instructor, instructor);
    if own == [] then NoInstructorData(instructor)
    else match GroupBy(own, Domain, DomainMapEntry)
      case Failure(e) => AnalysisError(e)
      case Success(groups) =>
        InstructorReport(instructor, |own|, Average(own, OverallRating, parse),
                         GroupLines(groups, parse), Sessions(own))
  }

  /** The domain branch (:364-405): the domain's records, grouped by instructor. */
  function DomainAnalysis(domain: string, rs: seq<Record>, parse: string -> Option<real>): Analysis {
    var own := RowsWith(rs, Domain, domain);
    if own == [] then NoDomainData(domain)
    else match GroupBy(own, Instructor, InstructorMapEntry)
      case Failure(e) => AnalysisError(e)
      case Success(groups) =>
        DomainReport(domain, |own|, Average(own, OverallRating, parse), GroupLines(groups, parse))
  }

  /** `performManualAnalysis(query, sheetData)` on the raw rows of the sheet. */
  function ManualAnalysis(query: string, rows: seq<seq<string>>, parse: string -> Option<real>): Analysis {
    Analyse(Lower(query), Structure(rows), parse)
  }

  /** The analysis proper, on the lower-cased query and the structured records. */
  function Analyse(lowerQuery: string, rs: seq<Record>, parse: string -> Option<real>): Analysis {
    match FirstMentioned(lowerQuery, Vocabulary(rs, Instructor))
    case Some(instructor) => InstructorAnalysis(instructor, rs, parse)
    case None =>
      match FirstMentioned(lowerQuery, Vocabulary(rs, Domain))
      case Some(domain) => DomainAnalysis(domain, rs, parse)
      case None => Unrecognised
  }

  // ---------------------------------------------------------------------------------------
  // Properties of the analysis

  /** A vocabulary entry has at least one record carrying it. */
  lemma VocabularyEntryHasRows(rs: seq<Record>, field: string, v: string)
    requires v in Vocabulary(rs, field)
    ensures RowsWith(rs, field, v) != []
  {
    var r :| r in rs && HasValue(r, field, v);
    assert r in RowsWith(rs, field, v);
  }

  /** Some vocabulary entry is mentioned exactly when some record's value is. */
  lemma MentionedEntryIffMentionedRow(lowerQuery: string, rs: seq<Record>, field: string)
    ensures (exists v :: v in Vocabulary(rs, field) && Mentions(lowerQuery, v)) <==> AnyMentioned(lowerQuery, rs, field)
  {
    if AnyMentioned(lowerQuery, rs, field) {
      var r :| r in rs && MentionedBy(lowerQuery, r, field);
      assert HasValue(r, field, Get(r, field).value);
      assert Get(r, field).value in Vocabulary(rs, field);
    }
    if exists v :: v in Vocabulary(rs, field) && Mentions(lowerQuery, v) {
      var v :| v in Vocabulary(rs, field) && Mentions(lowerQuery, v);
      var r :| r in rs && HasValue(r, field, v);
      assert MentionedBy(lowerQuery, r, field);
    }
  }

  /** The "No data found" replies are dead code: a name taken from the data always has records. */
  lemma ManualAnalysisNeverFindsNoData(lowerQuery: string, rs: seq<Record>, parse: string -> Option<real>)
    ensures !Analyse(lowerQuery, rs, parse).NoInstructorData?
    ensures !Analyse(lowerQuery, rs, parse).NoDomainData?
  {
    var ins := FirstMentioned(lowerQuery, Vocabulary(rs, Instructor));
    if ins.Some? {
      VocabularyEntryHasRows(rs, Instructor, ins.value);
    } else {
      var dom := FirstMentioned(lowerQuery, Vocabulary(rs, Domain));
      if dom.Some? {
        VocabularyEntryHasRows(rs, Domain, dom.value);
      }
    }
  }

  /** Dispatch: an instructor mentioned anywhere in the query wins over any domain; a domain is
      reported only when no instructor is mentioned; with neither the reply is the default. */
  lemma ManualAnalysisDispatch(lowerQuery: string, rs: seq<Record>, parse: string -> Option<real>)
    ensures var a := Analyse(lowerQuery, rs, parse);
            && (AnyMentioned(lowerQuery, rs, Instructor) ==> a.InstructorReport? || a.AnalysisError?)
            && (a.DomainReport? ==> !AnyMentioned(lowerQuery, rs, Instructor) && AnyMentioned(lowerQuery, rs, Domain))
            && (a.Unrecognised? <==> !AnyMentioned(lowerQuery, rs, Instructor) && !AnyMentioned(lowerQuery, rs, Domain))
  {
    MentionedEntryIffMentionedRow(lowerQuery, rs, Instructor);
    MentionedEntryIffMentionedRow(lowerQuery, rs, Domain);
    ManualAnalysisNeverFindsNoData(lowerQuery, rs, parse);
  }

  /** A report is the branch for the first-seen mentioned instructor, or else domain. */
  lemma AnalyseSubject(lowerQuery: string, rs: seq<Record>, parse: string -> Option<real>)
    ensures var a := Analyse(lowerQuery, rs, parse);
            && (a.InstructorReport? ==>
                  (&& a == InstructorAnalysis(a.instructor, rs, parse)
                   && FirstMentioned(lowerQuery, Vocabulary(rs, Instructor)) == Some(a.instructor)))
            && (a.DomainReport? ==>
                  (&& a == DomainAnalysis(a.domain, rs, parse)
                   && FirstMentioned(lowerQuery, Vocabulary(rs, Instructor)) == None
                   && FirstMentioned(lowerQuery, Vocabulary(rs, Domain)) == Some(a.domain)))
  {
    var ins := FirstMentioned(lowerQuery, Vocabulary(rs, Instructor));
    if ins.Some? {
      InstructorBranchShape(ins.value, rs, parse);
    } else {
      var dom := FirstMentioned(lowerQuery, Vocabulary(rs, Domain));
      if dom.Some? {
        DomainBranchShape(dom.value, rs, parse);
      }
    }
  }

  lemma InstructorBranchShape(instructor: string, rs: seq<Record>, parse: string -> Option<real>)
    ensures InstructorAnalysis(instructor, rs, parse).InstructorReport? ==>
              InstructorAnalysis(instructor, rs, parse).instructor == instructor
    ensures !InstructorAnalysis(instructor, rs, parse).DomainReport?
  {
  }

  lemma DomainBranchShape(domain: string, rs: seq<Record>, parse: string -> Option<real>)
    ensures DomainAnalysis(domain, rs, parse).DomainReport? ==> DomainAnalysis(domain, rs, parse).domain == domain
    ensures !DomainAnalysis(domain, rs, parse).InstructorReport?
  {
  }

  /** The instructor report is about the first-seen instructor the query mentions and covers all
      of that instructor's records: one numbered session per record in row order, a domain
      breakdown whose lines are the distinct domain labels in first-seen order, each counting
      and averaging exactly the records with that label, and counts that add up to the total. */
  lemma InstructorReportFacts(instructor: string, rs: seq<Record>, parse: string -> Option<real>)
    requires InstructorAnalysis(instructor, rs, parse).InstructorReport?
    ensures var a := InstructorAnalysis(instructor, rs, parse);
            var own := RowsWith(rs, Instructor, instructor);
            && a.instructor == instructor
            && a.total == |own| > 0
            && a.average == Average(own, OverallRating, parse)
            && |a.sessions| == a.total
            && (forall i :: 0 <= i < |own| ==> a.sessions[i] == SessionOf(own[i]))
            && |a.byDomain| == |Distinct(LabelSeq(own, Domain))|
            && (forall i :: 0 <= i < |a.byDomain| ==>
                  var tag := Distinct(LabelSeq(own, Domain))[i];
                  a.byDomain[i] == GroupLine(tag, |RowsLabelled(own, Domain, tag)|,
                                             Average(RowsLabelled(own, Domain, tag), OverallRating, parse)))
            && CountSum(a.byDomain) == a.total
  {
    var a := InstructorAnalysis(instructor, rs, parse);
    var own := RowsWith(rs, Instructor, instructor);
    GroupByOutcome(own, Domain, DomainMapEntry);
    GroupedLabels(own, Domain);
    GroupedRows(own, Domain);
    GroupedSize(own, Domain);
    var groups := Grouped(own, Domain);
    CountSumIsSizeSum(groups, parse);
    forall i | 0 <= i < |a.byDomain|
      ensures a.byDomain[i].tag == Distinct(LabelSeq(own, Domain))[i]
    {
      assert Labels(groups)[i] == groups[i].tag;
    }
  }

  /** The domain report covers all of the domain's records: an instructor breakdown whose lines
      are the distinct instructor labels in first-seen order, each counting and averaging exactly
      the records with that label, and counts that add up to the total. */
  lemma DomainReportFacts(domain: string, rs: seq<Record>, parse: string -> Option<real>)
    requires DomainAnalysis(domain, rs, parse).DomainReport?
    ensures var a := DomainAnalysis(domain, rs, parse);
            var own := RowsWith(rs, Domain, domain);
            && a.domain == domain
            && a.total == |own| > 0
            && a.average == Average(own, OverallRating, parse)
            && |a.byInstructor| == |Distinct(LabelSeq(own, Instructor))|
            && (forall i :: 0 <= i < |a.byInstructor| ==>
                  var tag := Distinct(LabelSeq(own, Instructor))[i];
                  a.byInstructor[i] == GroupLine(tag, |RowsLabelled(own, Instructor, tag)|,
                                                 Average(RowsLabelled(own, Instructor, tag), OverallRating, parse)))
            && CountSum(a.byInstructor) == a.total
  {
    var a := DomainAnalysis(domain, rs, parse);
    var own := RowsWith(rs, Domain, domain);
    GroupByOutcome(own, Instructor, InstructorMapEntry);
    GroupedLabels(own, Instructor);
    GroupedRows(own, Instructor);
    GroupedSize(own, Instructor);
    var groups := Grouped(own, Instructor);
    CountSumIsSizeSum(groups, parse);
    forall i | 0 <= i < |a.byInstructor|
      ensures a.byInstructor[i].tag == Distinct(LabelSeq(own, Instructor))[i]
    {
      assert Labels(groups)[i] == groups[i].tag;
    }
  }

  /** The analysis fails exactly when the chosen subject has a record whose breakdown label is a
      property name inherited from `Object.prototype`, and the failure names the map entry whose
      `push` was missing. */
  lemma ManualAnalysisErrorIff(lowerQuery: string, rs: seq<Record>, parse: string -> Option<real>)
    ensures var a := Analyse(lowerQuery, rs, parse);
            var ins := FirstMentioned(lowerQuery, Vocabulary(rs, Instructor));
            var dom := FirstMentioned(lowerQuery, Vocabulary(rs, Domain));
            && (ins.Some? ==>
                  (a.AnalysisError? <==> exists r :: r in RowsWith(rs, Instructor, ins.value)
                                                    && LabelOf(r, Domain) in JsObject.InheritedNames)
                  && (a.AnalysisError? ==> a.message == PushError(DomainMapEntry)))
            && (ins.None? && dom.Some? ==>
                  (a.AnalysisError? <==> exists r :: r in RowsWith(rs, Domain, dom.value)
                                                    && LabelOf(r, Instructor) in JsObject.InheritedNames)
                  && (a.AnalysisError? ==> a.message == PushError(InstructorMapEntry)))
            && (ins.None? && dom.None? ==> !a.AnalysisError?)
  {
    var ins := FirstMentioned(lowerQuery, Vocabulary(rs, Instructor));
    var dom := FirstMentioned(lowerQuery, Vocabulary(rs, Domain));
    if ins.Some? {
      VocabularyEntryHasRows(rs, Instructor, ins.value);
      GroupByOutcome(RowsWith(rs, Instructor, ins.value), Domain, DomainMapEntry);
    } else if dom.Some? {
      VocabularyEntryHasRows(rs, Domain, dom.value);
      GroupByOutcome(RowsWith(rs, Domain, dom.value), Instructor, InstructorMapEntry);
    }
  }

  // ---------------------------------------------------------------------------------------
  // The reply text

  /** The overall-average line; `fmt` is `toFixed(2)`, whose text is never empty and so always
      truthy. */
  function OverallLine(average: Option<real>, fmt: real -> string): string {
    match average
    case Some(x) => "Overall average rating: " + fmt(x) + "\n"
    case None => "Overall average rating: No valid ratings available\n"
  }

  /** The session count and overall-average lines every report carries. */
  function Summary(total: nat, average: Option<real>, fmt: real -> string): string {
    "Total sessions: " + NatToString(total) + "\n" + OverallLine(average, fmt)
  }

  function RenderGroupLine(line: GroupLine, fmt: real -> string): string {
    "- " + line.tag + ": " + NatToString(line.count) + " session(s)"
    + (match line.average case Some(x) => ", Average rating: " + fmt(x) case None => "")
    + "\n"
  }

  function RenderGroupLines(lines: seq<GroupLine>, fmt: real -> string): string
    decreases |lines|
  {
    if lines == [] then "" else RenderGroupLine(lines[0], fmt) + RenderGroupLines(lines[1..], fmt)
  }

  /** One session block, numbered from `number`. */
  function RenderSession(number: nat, s: Session): string {
    NatToString(number) + ". " + s.topic + "\n"
    + "   - Domain: " + s.domain + "\n"
    + "   - Date: " + s.date + "\n"
    + "   - Rating: " + s.rating + "\n"
    + (match s.cohorts case Some(c) => "   - Cohorts: " + c + "\n" case None => "")
    + "\n"
  }

  /** The session blocks, numbered consecutively from `first`. */
  function RenderSessions(first: nat, sessions: seq<Session>): string
    decreases |sessions|
  {
    if sessions == [] then "" else RenderSession(first, sessions[0]) + RenderSessions(first + 1, sessions[1..])
  }

  /** `t` sits inside any text that has it between two other parts. */
  lemma ContainsMiddle(a: string, t: string, b: string)
    ensures Contains(a + t + b, t)
  {
    assert t <= (a + t + b)[|a|..];
  }

  lemma {:induction false} RenderSessionsAppend(first: nat, a: seq<Session>, b: seq<Session>)
    ensures RenderSessions(first, a + b) == RenderSessions(first, a) + RenderSessions(first + |a|, b)
    decreases |a|
  {
    if a == [] {
      assert a + b == b;
    } else {
      assert a + b == [a[0]] + (a[1..] + b);
      RenderSessionsAppend(first + 1, a[1..], b);
      RenderSessionsHead(first, a[0], a[1..] + b);
      AssocText(RenderSession(first, a[0]), RenderSessions(first + 1, a[1..]), RenderSessions(first + |a|, b));
    }
  }

  /** The session list is numbered consecutively: session `k` is rendered as block `first + k`,
      after the blocks of the sessions before it and before those of the sessions after it. */
  lemma RenderSessionsNumbered(first: nat, sessions: seq<Session>, k: nat)
    requires k < |sessions|
    ensures RenderSessions(first, sessions)
         == RenderSessions(first, sessions[..k]) + RenderSession(first + k, sessions[k])
            + RenderSessions(first + k + 1, sessions[k + 1..])
  {
    var before := sessions[..k];
    var after := sessions[k + 1..];
    var blocks := RenderSessions(first, before);
    assert sessions == before + ([sessions[k]] + after);
    RenderSessionsAppend(first, before, [sessions[k]] + after);
    RenderSessionsHead(first + k, sessions[k], after);
    AssocText(blocks, RenderSession(first + k, sessions[k]), RenderSessions(first + k + 1, after));
  }

  lemma RenderSessionsHead(first: nat, s: Session, rest: seq<Session>)
    ensures RenderSessions(first, [s] + rest) == RenderSession(first, s) + RenderSessions(first + 1, rest)
  {
    assert ([s] + rest)[0] == s;
    assert ([s] + rest)[1..] == rest;
  }

  lemma AssocText(a: string, b: string, c: string)
    ensures a + (b + c) == a + b + c
  {
  }

  const ErrorPrefix := "Error performing analysis: "
  const DefaultReply := "Could not analyze this specific query. " + "Please try asking about a specific instructor or domain."

  /** A reply opening with anything but `E` cannot be mistaken for the error reply. */
  lemma NotAnErrorReply(head: string, rest: string)
    requires |head| > 0 && head[0] != 'E'
    ensures !(ErrorPrefix <= head + rest)
  {
    assert (head + rest)[0] == head[0];
  }

  /** The text `performManualAnalysis` returns for an outcome: never empty, and the error reply
      is the only one opening with the error prefix. */
  function Render(a: Analysis, fmt: real -> string): (text: string)
    ensures |text| > 0
    ensures a.AnalysisError? ==> text == ErrorPrefix + a.message
    ensures !a.AnalysisError? ==> !(ErrorPrefix <= text)
  {
    match a
    case InstructorReport(instructor, total, average, byDomain, sessions) =>
      var head := "Information for instructor " + instructor + ":\n\n";
      var rest := "\nSessions by domain:\n" + RenderGroupLines(byDomain, fmt)
        + "\nSessions:\n" + RenderSessions(1, sessions);
      NotAnErrorReply(head, Summary(total, average, fmt) + rest);
      head + Summary(total, average, fmt) + rest
    case DomainReport(domain, total, average, byInstructor) =>
      var head := "Analysis for " + domain + " domain:\n\n";
      var rest := "\nSessions by instructor:\n" + RenderGroupLines(byInstructor, fmt);
      NotAnErrorReply(head, Summary(total, average, fmt) + rest);
      head + Summary(total, average, fmt) + rest
    case NoInstructorData(instructor) =>
      NotAnErrorReply("No data found for instructor: ", instructor);
      "No data found for instructor: " + instructor
    case NoDomainData(domain) =>
      NotAnErrorReply("No data found for domain: ", domain);
      "No data found for domain: " + domain
    case Unrecognised =>
      assert DefaultReply[0] == 'C';
      NotAnErrorReply(DefaultReply, "");
      assert DefaultReply + "" == DefaultReply;
      DefaultReply
    case AnalysisError(message) => ErrorPrefix + message
  }

  lemma ContainsEnds(a: string, b: string)
    ensures Contains(a + b, a) && Contains(a + b, b)
  {
    assert a <= (a + b)[0..];
    assert b <= (a + b)[|a|..];
  }

  /** A report states its session count and its overall average: the formatted average when
      some rating parsed, and "No valid ratings available" when none did. */
  lemma RenderReportsAverage(a: Analysis, fmt: real -> string)
    requires a.InstructorReport? || a.DomainReport?
    ensures Contains(Render(a, fmt), "Total sessions: " + NatToString(a.total) + "\n")
    ensures a.average.None? ==>
              Contains(Render(a, fmt), "Overall average rating: No valid ratings available\n")
    ensures a.average.Some? ==>
              Contains(Render(a, fmt), "Overall average rating: " + fmt(a.average.value) + "\n")
  {
    var summary := Summary(a.total, a.average, fmt);
    var count := "Total sessions: " + NatToString(a.total) + "\n";
    ContainsEnds(count, OverallLine(a.average, fmt));
    ReportHoldsSummary(a, fmt);
    ContainsTransitive(Render(a, fmt), summary, count);
    ContainsTransitive(Render(a, fmt), summary, OverallLine(a.average, fmt));
  }

  lemma ReportHoldsSummary(a: Analysis, fmt: real -> string)
    requires a.InstructorReport? || a.DomainReport?
    ensures Contains(Render(a, fmt), Summary(a.total, a.average, fmt))
  {
    var summary := Summary(a.total, a.average, fmt);
    if a.InstructorReport? {
      var head := "Information for instructor " + a.instructor + ":\n\n";
      var rest := "\nSessions by domain:\n" + RenderGroupLines(a.byDomain, fmt)
        + "\nSessions:\n" + RenderSessions(1, a.sessions);
      assert Render(a, fmt) == head + summary + rest;
      ContainsMiddle(head, summary, rest);
    } else {
      var head := "Analysis for " + a.domain + " domain:\n\n";
      var rest := "\nSessions by instructor:\n" + RenderGroupLines(a.byInstructor, fmt);
      assert Render(a, fmt) == head + summary + rest;
      ContainsMiddle(head, summary, rest);
    }
  }
}
