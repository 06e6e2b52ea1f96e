/**
 * Structured rows: the header-keyed records built from a raw sheet, the entity key used for
 * de-duplication, and the first-seen vocabularies of a field's values.
 */
module Records {
  import opened Wrappers

  /** One data row keyed by header name. `None` is JavaScript's `null` (a short row) and also
      stands for a key the record does not have (`undefined`). */
  type Record = map<string, Option<string>>

  const Instructor := "Instructor"
  const Domain := "Domain"
  const TopicCode := "Topic Code"
  const SessionDate := "Session Date"
  const OverallRating := "Overall Average Rating"
  const Cohorts := "Cohorts"

  /** `record[field]`. */
  function Get(r: Record, field: string): Option<string> {
    if field in r then r[field] else None
  }

  /** JavaScript truthiness of a cell: a non-empty string. */
  predicate Truthy(v: Option<string>) {
    v.Some? && v.value != ""
  }

  /** `record[field] || fallback`. */
  function OrElse(v: Option<string>, fallback: string): string {
    if Truthy(v) then v.value else fallback
  }

  /** The record carries the non-empty value `v` in `field`. */
  predicate HasValue(r: Record, field: string, v: string) {
    v != "" && Get(r, field) == Some(v)
  }

  /** The (Topic Code, Instructor, Session Date) triple that identifies one session. */
  datatype EntityKey = EntityKey(topic: Option<string>, instructor: Option<string>, date: Option<string>)

  function Key(r: Record): EntityKey {
    EntityKey(Get(r, TopicCode), Get(r, Instructor), Get(r, SessionDate))
  }

  // ---------------------------------------------------------------------------------------
  // Structuring

  /** The cell a header at index `i` reads from a row: `null` past the row's end. */
  function CellAt(row: seq<string>, i: nat): Option<string> {
    if i < |row| then Some(row[i]) else None
  }

  /** No later header repeats the name at index `i`, so the cell at `i` is the one that sticks. */
  predicate LastOccurrence(headers: seq<string>, i: int)
    requires 0 <= i < |headers|
  {
    forall j :: i < j < |headers| ==> headers[j] != headers[i]
  }

  /** `rec` is the zip of `headers` with `row`: one key per header name, each bound to the cell
      under its last column. */
  ghost predicate Zipped(headers: seq<string>, row: seq<string>, rec: Record) {
    && rec.Keys == (set h | h in headers)
    && forall i :: 0 <= i < |headers| && LastOccurrence(headers, i) ==>
         headers[i] in rec && rec[headers[i]] == CellAt(row, i)
  }

  /** One `headers.forEach` pass: each header in turn assigns its cell, so a repeated name keeps
      the later column. */
  function BuildRecord(headers: seq<string>, row: seq<string>): (rec: Record)
    ensures Zipped(headers, row, rec)
    decreases |headers|
  {
    if |headers| == 0 then map[]
    else
      var n := |headers| - 1;
      var prefix := BuildRecord(headers[..n], row);
      ZipStep(headers, row, prefix);
      prefix[headers[n] := CellAt(row, n)]
  }

  lemma ZipKeys(init: seq<string>, last: string)
    ensures (set h | h in init + [last]) == (set h | h in init) + {last}
  {
  }

  /** Assigning the last column on top of the zip of the other columns zips all of them. */
  lemma ZipStep(headers: seq<string>, row: seq<string>, prefix: Record)
    requires |headers| > 0
    requires Zipped(headers[..|headers| - 1], row, prefix)
    ensures Zipped(headers, row, prefix[headers[|headers| - 1] := CellAt(row, |headers| - 1)])
  {
    var n := |headers| - 1;
    var rec := prefix[headers[n] := CellAt(row, n)];
    assert headers == headers[..n] + [headers[n]];
    ZipKeys(headers[..n], headers[n]);
    forall i | 0 <= i < |headers| && LastOccurrence(headers, i)
      ensures headers[i] in rec && rec[headers[i]] == CellAt(row, i)
    {
      if i < n {
        assert headers[..n][i] == headers[i];
        assert LastOccurrence(headers[..n], i);
      }
    }
  }

  /** `convertToStructured`: the first row is the header, every later row becomes one record. */
  function Structure(rows: seq<seq<string>>): (rs: seq<Record>)
    ensures |rows| < 2 ==> rs == []
    ensures |rows| >= 2 ==> |rs| == |rows| - 1
    ensures forall i :: 0 <= i < |rs| ==> Zipped(rows[0], rows[i + 1], rs[i])
  {
    if |rows| < 2 then []
    else seq(|rows| - 1, i requires 0 <= i < |rows| - 1 => BuildRecord(rows[0], rows[i + 1]))
  }

  /** Index of the last column named `h`. */
  function LastIndexOf(headers: seq<string>, h: string): (i: nat)
    requires h in headers
    ensures i < |headers| && headers[i] == h && LastOccurrence(headers, i)
    decreases |headers|
  {
    var n := |headers| - 1;
    if headers[n] == h then n
    else
      assert h in headers[..n] by { var k :| 0 <= k < |headers| && headers[k] == h; assert headers[..n][k] == h; }
      LastIndexOf(headers[..n], h)
  }

  /** Zipping determines the record: the structuring contract leaves no freedom. */
  lemma ZippedUnique(headers: seq<string>, row: seq<string>, a: Record, b: Record)
    requires Zipped(headers, row, a) && Zipped(headers, row, b)
    ensures a == b
  {
    forall h | h in a.Keys
      ensures a[h] == b[h]
    {
      var i := LastIndexOf(headers, h);
    }
  }

  /** Every record of one sheet has the same key set, so comparing two records' values of a field
      with JavaScript `===` is comparing their `Get` results. */
  lemma StructureKeysUniform(rows: seq<seq<string>>, i: nat, j: nat)
    requires i < |Structure(rows)| && j < |Structure(rows)|
    ensures Structure(rows)[i].Keys == Structure(rows)[j].Keys == (set h | h in rows[0])
  {
  }

  // ---------------------------------------------------------------------------------------
  // Vocabularies

  predicate NoDuplicates<T(==)>(xs: seq<T>) {
    forall i, j :: 0 <= i < j < |xs| ==> xs[i] != xs[j]
  }

  /** The non-empty values of `field`, in row order (`rows.map(r => r[field]).filter(Boolean)`). */
  function FieldValues(rs: seq<Record>, field: string): (vs: seq<string>)
    ensures forall v :: v in vs <==> exists r :: r in rs && HasValue(r, field, v)
    decreases |rs|
  {
    if rs == [] then []
    else
      var head := if Truthy(Get(rs[0], field)) then [Get(rs[0], field).value] else [];
      var rest := FieldValues(rs[1..], field);
      assert forall v :: v in head + rest <==> exists r :: r in rs && HasValue(r, field, v) by {
        forall v
          ensures v in head + rest <==> exists r :: r in rs && HasValue(r, field, v)
        {
          if v in head {
            assert HasValue(rs[0], field, v);
          }
          if v in rest {
            var r :| r in rs[1..] && HasValue(r, field, v);
            assert r in rs;
          }
          if exists r :: r in rs && HasValue(r, field, v) {
            var r :| r in rs && HasValue(r, field, v);
            if r != rs[0] {
              assert r in rs[1..] by { assert rs == [rs[0]] + rs[1..]; }
            }
          }
        }
      }
      head + rest
  }

  /** `[...new Set(xs)]`: the distinct elements of `xs`, each at its first appearance. */
  function Distinct(xs: seq<string>): (d: seq<string>)
    ensures NoDuplicates(d)
    ensures forall x :: x in d <==> x in xs
    decreases |xs|
  {
    if xs == [] then []
    else
      var n := |xs| - 1;
      assert forall x :: x in xs <==> x in xs[..n] || x == xs[n] by { assert xs == xs[..n] + [xs[n]]; }
      var p := Distinct(xs[..n]);
      if xs[n] in p then p else p + [xs[n]]
  }

  /** Position of the first occurrence of `x`. */
  function FirstIndex(xs: seq<string>, x: string): (i: nat)
    requires x in xs
    ensures i < |xs| && xs[i] == x && x !in xs[..i]
    decreases |xs|
  {
    if xs[0] == x then 0
    else
      var k := FirstIndex(xs[1..], x);
      assert xs[..k + 1] == [xs[0]] + xs[1..][..k];
      1 + k
  }

  lemma {:induction false} FirstIndexAppend(xs: seq<string>, y: string, x: string)
    requires x in xs
    ensures x in xs + [y] && FirstIndex(xs + [y], x) == FirstIndex(xs, x)
  {
    if xs[0] != x {
      assert (xs + [y])[1..] == xs[1..] + [y];
      FirstIndexAppend(xs[1..], y, x);
    }
  }

  /** `Distinct` keeps first-seen order: earlier in the result means first seen earlier in the input. */
  lemma {:induction false} DistinctFirstSeenOrder(xs: seq<string>)
    ensures forall i, j :: 0 <= i < j < |Distinct(xs)| ==>
              FirstIndex(xs, Distinct(xs)[i]) < FirstIndex(xs, Distinct(xs)[j])
    decreases |xs|
  {
    if xs != [] {
      var n := |xs| - 1;
      var p := xs[..n];
      assert xs == p + [xs[n]];
      DistinctFirstSeenOrder(p);
      var d := Distinct(xs);
      var dp := Distinct(p);
      forall i, j | 0 <= i < j < |d|
        ensures FirstIndex(xs, d[i]) < FirstIndex(xs, d[j])
      {
        assert d[i] in dp;
        FirstIndexAppend(p, xs[n], d[i]);
        if j < |dp| {
          FirstIndexAppend(p, xs[n], d[j]);
        } else {
          assert d[j] == xs[n] && xs[n] !in p;
          assert FirstIndex(xs, d[j]) == n;
        }
      }
    }
  }

  /** The distinct non-empty values of `field` in first-seen order, as the analyser derives its
      instructor, domain and topic vocabularies. */
  function Vocabulary(rs: seq<Record>, field: string): (vocab: seq<string>)
    ensures NoDuplicates(vocab)
    ensures forall v :: v in vocab <==> exists r :: r in rs && HasValue(r, field, v)
  {
    Distinct(FieldValues(rs, field))
  }

  /** Index of the first record whose `field` is the non-empty value `v`, or `|rs|` when none is. */
  function FirstRecordWith(rs: seq<Record>, field: string, v: string): (k: nat)
    ensures k <= |rs|
    ensures k < |rs| ==> HasValue(rs[k], field, v)
    ensures forall m :: 0 <= m < k ==> !HasValue(rs[m], field, v)
    decreases |rs|
  {
    if rs == [] then 0
    else if HasValue(rs[0], field, v) then 0
    else 1 + FirstRecordWith(rs[1..], field, v)
  }

  lemma FirstIndexCons(x: string, xs: seq<string>, v: string)
    requires v in xs && v != x
    ensures v in [x] + xs && FirstIndex([x] + xs, v) == 1 + FirstIndex(xs, v)
  {
    assert ([x] + xs)[1..] == xs;
  }

  /** `FieldValues` lists the values in record order: a value first listed before another is
      first carried by an earlier record. */
  lemma {:induction false} FieldValuesRecordOrder(rs: seq<Record>, field: string, v: string, w: string)
    requires v in FieldValues(rs, field) && w in FieldValues(rs, field)
    requires FirstIndex(FieldValues(rs, field), v) < FirstIndex(FieldValues(rs, field), w)
    ensures FirstRecordWith(rs, field, v) < FirstRecordWith(rs, field, w) < |rs|
    decreases |rs|
  {
    var vs := FieldValues(rs, field);
    var rest := FieldValues(rs[1..], field);
    if Truthy(Get(rs[0], field)) {
      var x := Get(rs[0], field).value;
      assert vs == [x] + rest;
      if x == v {
        FirstRecordWithAt(rs, field, v, w);
      } else {
        assert w != x;
        FirstIndexCons(x, rest, v);
        FirstIndexCons(x, rest, w);
        FieldValuesRecordOrder(rs[1..], field, v, w);
        FirstRecordWithSkip(rs, field, v);
        FirstRecordWithSkip(rs, field, w);
      }
    } else {
      assert vs == rest;
      FieldValuesRecordOrder(rs[1..], field, v, w);
      FirstRecordWithSkip(rs, field, v);
      FirstRecordWithSkip(rs, field, w);
    }
  }

  lemma FirstRecordWithAt(rs: seq<Record>, field: string, v: string, w: string)
    requires |rs| > 0 && HasValue(rs[0], field, v) && v != w
    requires w in FieldValues(rs, field)
    ensures FirstRecordWith(rs, field, v) < FirstRecordWith(rs, field, w) < |rs|
  {
    var r :| r in rs && HasValue(r, field, w);
  }

  lemma FirstRecordWithSkip(rs: seq<Record>, field: string, v: string)
    requires |rs| > 0 && !HasValue(rs[0], field, v)
    ensures FirstRecordWith(rs, field, v) == 1 + FirstRecordWith(rs[1..], field, v)
  {
  }

  /** Vocabulary order is first-appearance order: an earlier vocabulary entry is first carried by
      an earlier record, both among the field's non-empty values and among the records. */
  lemma VocabularyFirstSeenOrder(rs: seq<Record>, field: string, i: nat, j: nat)
    requires i < j < |Vocabulary(rs, field)|
    ensures FirstIndex(FieldValues(rs, field), Vocabulary(rs, field)[i])
          < FirstIndex(FieldValues(rs, field), Vocabulary(rs, field)[j])
    ensures FirstRecordWith(rs, field, Vocabulary(rs, field)[i])
          < FirstRecordWith(rs, field, Vocabulary(rs, field)[j]) < |rs|
  {
    DistinctFirstSeenOrder(FieldValues(rs, field));
    FieldValuesRecordOrder(rs, field, Vocabulary(rs, field)[i], Vocabulary(rs, field)[j]);
  }
}
