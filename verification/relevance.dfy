/**
 * The tiered relevance filter (`filterRelevantData`): which records of the sheet are handed to
 * the completion service for a query.
 *
 * Tiers, highest first: instructor and domain (both always run; domain rows are de-duplicated
 * by entity key), then topic, then intent keywords, then a per-instructor sample. A lower tier
 * runs only while the running result is still empty.
 */
module Relevance {
  import opened Wrappers
  import opened Text
  import opened Records
  import JsObject

  /** `lowerQuery.includes(name.toLowerCase())`. */
  predicate Mentions(lowerQuery: string, name: string) {
    Contains(lowerQuery, Lower(name))
  }

  /** The record's non-empty `field` value is mentioned by the query. */
  predicate MentionedBy(lowerQuery: string, r: Record, field: string) {
    Truthy(Get(r, field)) && Mentions(lowerQuery, Get(r, field).value)
  }

  ghost predicate AnyMentioned(lowerQuery: string, rs: seq<Record>, field: string) {
    exists r :: r in rs && MentionedBy(lowerQuery, r, field)
  }

  // ---------------------------------------------------------------------------------------
  // Row filters

  /** `rs.filter(r => r[field] === v)`, in row order. */
  function RowsWith(rs: seq<Record>, field: string, v: string): (out: seq<Record>)
    ensures forall r :: r in out <==> r in rs && Get(r, field) == Some(v)
    ensures |out| <= |rs|
    decreases |rs|
  {
    if rs == [] then []
    else
      assert forall r :: r in rs <==> r == rs[0] || r in rs[1..] by { assert rs == [rs[0]] + rs[1..]; }
      (if Get(rs[0], field) == Some(v) then [rs[0]] else []) + RowsWith(rs[1..], field, v)
  }

  /** `rs.filter(r => r[field])`: rows whose `field` is a non-empty string. */
  function RowsWithAny(rs: seq<Record>, field: string): (out: seq<Record>)
    ensures forall r :: r in out <==> r in rs && Truthy(Get(r, field))
    decreases |rs|
  {
    if rs == [] then []
    else
      assert forall r :: r in rs <==> r == rs[0] || r in rs[1..] by { assert rs == [rs[0]] + rs[1..]; }
      (if Truthy(Get(rs[0], field)) then [rs[0]] else []) + RowsWithAny(rs[1..], field)
  }

  /** Reference for a vocabulary tier: the rows whose non-empty `field` the query mentions, in
      row order. */
  function Selected(lowerQuery: string, rs: seq<Record>, field: string): (out: seq<Record>)
    ensures forall r :: r in out <==> r in rs && MentionedBy(lowerQuery, r, field)
    decreases |rs|
  {
    if rs == [] then []
    else
      assert forall r :: r in rs <==> r == rs[0] || r in rs[1..] by { assert rs == [rs[0]] + rs[1..]; }
      (if MentionedBy(lowerQuery, rs[0], field) then [rs[0]] else []) + Selected(lowerQuery, rs[1..], field)
  }

  lemma {:induction false} RowsWithAppend(a: seq<Record>, b: seq<Record>, field: string, v: string)
    ensures RowsWith(a + b, field, v) == RowsWith(a, field, v) + RowsWith(b, field, v)
    decreases |a|
  {
    if a != [] {
      var head := if Get(a[0], field) == Some(v) then [a[0]] else [];
      var rest := RowsWith(a[1..], field, v);
      var tail := RowsWith(b, field, v);
      RowsWithAppend(a[1..], b, field, v);
      assert (a + b)[0] == a[0] && (a + b)[1..] == a[1..] + b;
      RowsWithUnfold(a + b, field, v);
      RowsWithUnfold(a, field, v);
      AssocRows(head, rest, tail);
    } else {
      assert a + b == b;
    }
  }

  lemma RowsWithUnfold(rs: seq<Record>, field: string, v: string)
    requires rs != []
    ensures RowsWith(rs, field, v) == (if Get(rs[0], field) == Some(v) then [rs[0]] else []) + RowsWith(rs[1..], field, v)
  {
  }

  lemma AssocRows(a: seq<Record>, b: seq<Record>, c: seq<Record>)
    ensures a + (b + c) == (a + b) + c
  {
  }

  // ---------------------------------------------------------------------------------------
  // Instructor and topic tiers

  /** For each vocabulary entry the query mentions, in vocabulary order, all rows carrying it
      (the instructor loop at :110-117 and the topic loop at :142-148). */
  function MatchedRows(lowerQuery: string, rs: seq<Record>, field: string, vocab: seq<string>): (out: seq<Record>)
    ensures forall r :: r in out ==> r in rs && Get(r, field).Some? && Get(r, field).value in vocab
                                     && Mentions(lowerQuery, Get(r, field).value)
    decreases |vocab|
  {
    if vocab == [] then []
    else
      (if Mentions(lowerQuery, vocab[0]) then RowsWith(rs, field, vocab[0]) else [])
      + MatchedRows(lowerQuery, rs, field, vocab[1..])
  }

  /** Rows whose `field` value lies in `names`, in row order. */
  function SelectIn(rs: seq<Record>, field: string, names: set<string>): seq<Record>
    decreases |rs|
  {
    if rs == [] then []
    else
      (if Get(rs[0], field).Some? && Get(rs[0], field).value in names then [rs[0]] else [])
      + SelectIn(rs[1..], field, names)
  }

  function MentionedNames(lowerQuery: string, vocab: seq<string>): set<string> {
    set v | v in vocab && Mentions(lowerQuery, v)
  }

  lemma {:induction false} SelectInSplit(rs: seq<Record>, field: string, names: set<string>, v: string)
    requires v !in names
    ensures multiset(SelectIn(rs, field, names + {v}))
         == multiset(RowsWith(rs, field, v)) + multiset(SelectIn(rs, field, names))
    decreases |rs|
  {
    if rs != [] {
      SelectInSplit(rs[1..], field, names, v);
    }
  }

  lemma {:induction false} MatchedRowsAsSelectIn(lowerQuery: string, rs: seq<Record>, field: string, vocab: seq<string>)
    requires NoDuplicates(vocab)
    ensures multiset(MatchedRows(lowerQuery, rs, field, vocab))
         == multiset(SelectIn(rs, field, MentionedNames(lowerQuery, vocab)))
    decreases |vocab|
  {
    if vocab != [] {
      var tail := vocab[1..];
      assert NoDuplicates(tail);
      MatchedRowsAsSelectIn(lowerQuery, rs, field, tail);
      assert vocab[0] !in tail;
      var names := MentionedNames(lowerQuery, tail);
      var head := if Mentions(lowerQuery, vocab[0]) then RowsWith(rs, field, vocab[0]) else [];
      assert MatchedRows(lowerQuery, rs, field, vocab) == head + MatchedRows(lowerQuery, rs, field, tail);
      if Mentions(lowerQuery, vocab[0]) {
        assert MentionedNames(lowerQuery, vocab) == names + {vocab[0]};
        SelectInSplit(rs, field, names, vocab[0]);
        calc {
          multiset(MatchedRows(lowerQuery, rs, field, vocab));
          multiset(head) + multiset(MatchedRows(lowerQuery, rs, field, tail));
          multiset(RowsWith(rs, field, vocab[0])) + multiset(SelectIn(rs, field, names));
          multiset(SelectIn(rs, field, names + {vocab[0]}));
          multiset(SelectIn(rs, field, MentionedNames(lowerQuery, vocab)));
        }
      } else {
        assert MentionedNames(lowerQuery, vocab) == names;
        calc {
          multiset(MatchedRows(lowerQuery, rs, field, vocab));
          multiset(MatchedRows(lowerQuery, rs, field, tail));
          multiset(SelectIn(rs, field, names));
          multiset(SelectIn(rs, field, MentionedNames(lowerQuery, vocab)));
        }
      }
    } else {
      assert MentionedNames(lowerQuery, vocab) == {};
      SelectInNothing(rs, field);
    }
  }

  lemma {:induction false} SelectInNothing(rs: seq<Record>, field: string)
    ensures SelectIn(rs, field, {}) == []
    decreases |rs|
  {
    if rs != [] {
      SelectInNothing(rs[1..], field);
    }
  }

  lemma {:induction false} SelectInAgrees(lowerQuery: string, rs: seq<Record>, field: string, names: set<string>)
    requires forall r :: r in rs ==>
               ((Get(r, field).Some? && Get(r, field).value in names) <==> MentionedBy(lowerQuery, r, field))
    ensures SelectIn(rs, field, names) == Selected(lowerQuery, rs, field)
    decreases |rs|
  {
    if rs != [] {
      assert rs[0] in rs;
      assert forall r :: r in rs[1..] ==> r in rs;
      SelectInAgrees(lowerQuery, rs[1..], field, names);
    }
  }

  /** A vocabulary tier selects exactly the rows whose non-empty `field` the query mentions, each
      once: the same multiset of rows as the row-order reference `Selected`. */
  lemma VocabularyTierSelectsMentioned(lowerQuery: string, rs: seq<Record>, field: string)
    ensures multiset(MatchedRows(lowerQuery, rs, field, Vocabulary(rs, field)))
         == multiset(Selected(lowerQuery, rs, field))
  {
    var vocab := Vocabulary(rs, field);
    MatchedRowsAsSelectIn(lowerQuery, rs, field, vocab);
    forall r | r in rs
      ensures (Get(r, field).Some? && Get(r, field).value in MentionedNames(lowerQuery, vocab))
              <==> MentionedBy(lowerQuery, r, field)
    {
      if MentionedBy(lowerQuery, r, field) {
        assert HasValue(r, field, Get(r, field).value);
      }
    }
    SelectInAgrees(lowerQuery, rs, field, MentionedNames(lowerQuery, vocab));
  }

  /** Membership form: a row reaches a vocabulary tier iff its non-empty `field` is mentioned. */
  lemma VocabularyTierMembership(lowerQuery: string, rs: seq<Record>, field: string, r: Record)
    ensures r in MatchedRows(lowerQuery, rs, field, Vocabulary(rs, field))
        <==> r in rs && MentionedBy(lowerQuery, r, field)
  {
    VocabularyTierSelectsMentioned(lowerQuery, rs, field);
    assert r in MatchedRows(lowerQuery, rs, field, Vocabulary(rs, field))
       <==> r in multiset(MatchedRows(lowerQuery, rs, field, Vocabulary(rs, field)));
    assert r in Selected(lowerQuery, rs, field) <==> r in multiset(Selected(lowerQuery, rs, field));
  }

  /** Restricted to one value, a vocabulary tier is all rows carrying it, in row order, when
      the value is a mentioned vocabulary entry, and nothing otherwise. */
  lemma {:induction false} MatchedRowsPerEntry(lowerQuery: string, rs: seq<Record>, field: string,
                                               vocab: seq<string>, v: string)
    requires NoDuplicates(vocab)
    ensures RowsWith(MatchedRows(lowerQuery, rs, field, vocab), field, v)
         == if v in vocab && Mentions(lowerQuery, v) then RowsWith(rs, field, v) else []
    decreases |vocab|
  {
    if vocab != [] {
      var u := vocab[0];
      var tail := vocab[1..];
      var head := if Mentions(lowerQuery, u) then RowsWith(rs, field, u) else [];
      var later := MatchedRows(lowerQuery, rs, field, tail);
      assert NoDuplicates(tail);
      assert u !in tail;
      assert v in vocab <==> v == u || v in tail by { assert vocab == [u] + tail; }
      MatchedRowsPerEntry(lowerQuery, rs, field, tail, v);
      HeadEntry(lowerQuery, rs, field, u, v);
      PerEntryStep(head, later, field, v, u == v && Mentions(lowerQuery, u),
                   v in tail && Mentions(lowerQuery, v), RowsWith(rs, field, v));
    }
  }

  /** Combines the first entry's share with the later entries' share; at most one is non-empty. */
  lemma PerEntryStep(head: seq<Record>, later: seq<Record>, field: string, v: string,
                     inHead: bool, inLater: bool, own: seq<Record>)
    requires RowsWith(head, field, v) == (if inHead then own else [])
    requires RowsWith(later, field, v) == (if inLater then own else [])
    requires !(inHead && inLater)
    ensures RowsWith(head + later, field, v) == if inHead || inLater then own else []
  {
    RowsWithAppend(head, later, field, v);
    assert own + [] == own && [] + own == own;
  }

  /** The first entry's share of a vocabulary tier, restricted to one value. */
  lemma HeadEntry(lowerQuery: string, rs: seq<Record>, field: string, u: string, v: string)
    ensures var head := if Mentions(lowerQuery, u) then RowsWith(rs, field, u) else [];
            RowsWith(head, field, v) == if u == v && Mentions(lowerQuery, u) then RowsWith(rs, field, v) else []
  {
    var head := if Mentions(lowerQuery, u) then RowsWith(rs, field, u) else [];
    if u == v {
      RowsWithAll(head, field, v);
    } else {
      RowsWithNone(head, field, v);
    }
  }

  /** Position of a record's `field` value in `vocab`; `|vocab|` when the value is not there. */
  function Rank(vocab: seq<string>, r: Record, field: string): (k: nat)
    ensures k <= |vocab|
    ensures k < |vocab| <==> Get(r, field).Some? && Get(r, field).value in vocab
    ensures k < |vocab| ==> vocab[k] == Get(r, field).value
  {
    if Get(r, field).Some? && Get(r, field).value in vocab then FirstIndex(vocab, Get(r, field).value)
    else |vocab|
  }

  /** The rows come grouped by `field` value, the groups in `vocab` order. */
  predicate InVocabularyOrder(out: seq<Record>, field: string, vocab: seq<string>) {
    forall i, j :: 0 <= i < j < |out| ==> Rank(vocab, out[i], field) <= Rank(vocab, out[j], field)
  }

  lemma RankFirst(vocab: seq<string>, r: Record, field: string)
    requires |vocab| > 0 && Get(r, field) == Some(vocab[0])
    ensures Rank(vocab, r, field) == 0
  {
  }

  lemma RankRest(vocab: seq<string>, r: Record, field: string)
    requires |vocab| > 0 && NoDuplicates(vocab)
    requires Get(r, field).Some? && Get(r, field).value in vocab[1..]
    ensures Rank(vocab, r, field) == 1 + Rank(vocab[1..], r, field)
  {
    var x := Get(r, field).value;
    var k :| 0 <= k < |vocab[1..]| && vocab[1..][k] == x;
    assert vocab[k + 1] == x && x != vocab[0];
  }

  /** One group for the first entry followed by rows ordered by the later entries is ordered by
      the whole vocabulary. */
  lemma OrderedConcat(head: seq<Record>, rest: seq<Record>, field: string, vocab: seq<string>)
    requires |vocab| > 0 && NoDuplicates(vocab)
    requires forall r :: r in head ==> Get(r, field) == Some(vocab[0])
    requires forall r :: r in rest ==> Get(r, field).Some? && Get(r, field).value in vocab[1..]
    requires InVocabularyOrder(rest, field, vocab[1..])
    ensures InVocabularyOrder(head + rest, field, vocab)
  {
    var out := head + rest;
    forall i, j | 0 <= i < j < |out|
      ensures Rank(vocab, out[i], field) <= Rank(vocab, out[j], field)
    {
      if i < |head| {
        assert out[i] == head[i];
        RankFirst(vocab, head[i], field);
      } else {
        assert out[i] == rest[i - |head|] && out[j] == rest[j - |head|];
        RankRest(vocab, rest[i - |head|], field);
        RankRest(vocab, rest[j - |head|], field);
      }
    }
  }

  /** A vocabulary tier lists its rows grouped by value, the groups in vocabulary order. */
  lemma {:induction false} MatchedRowsInVocabularyOrder(lowerQuery: string, rs: seq<Record>, field: string,
                                                        vocab: seq<string>)
    requires NoDuplicates(vocab)
    ensures InVocabularyOrder(MatchedRows(lowerQuery, rs, field, vocab), field, vocab)
    decreases |vocab|
  {
    if vocab != [] {
      var tail := vocab[1..];
      assert NoDuplicates(tail);
      MatchedRowsInVocabularyOrder(lowerQuery, rs, field, tail);
      var head := if Mentions(lowerQuery, vocab[0]) then RowsWith(rs, field, vocab[0]) else [];
      OrderedConcat(head, MatchedRows(lowerQuery, rs, field, tail), field, vocab);
    }
  }

  // ---------------------------------------------------------------------------------------
  // Domain tier: union with de-duplication by entity key

  function KeySet(rs: seq<Record>): set<EntityKey> {
    set r | r in rs :: Key(r)
  }

  predicate KeysDistinct(rs: seq<Record>) {
    forall i, j :: 0 <= i < j < |rs| ==> Key(rs[i]) != Key(rs[j])
  }

  lemma KeySetAppend(a: seq<Record>, b: seq<Record>)
    ensures KeySet(a + b) == KeySet(a) + KeySet(b)
  {
    forall k | k in KeySet(a + b)
      ensures k in KeySet(a) + KeySet(b)
    {
      var r :| r in a + b && Key(r) == k;
    }
    forall k | k in KeySet(a) + KeySet(b)
      ensures k in KeySet(a + b)
    {
      if k in KeySet(a) {
        var r :| r in a && Key(r) == k;
        assert r in a + b;
      } else {
        var r :| r in b && Key(r) == k;
        assert r in a + b;
      }
    }
  }

  /** `domainRows.forEach(row => { if (!relevantRows.some(sameKey(row))) relevantRows.push(row) })`:
      each row is appended unless a row already present (including one appended earlier in the
      same pass) has its key. */
  function AddUnseen(acc: seq<Record>, rows: seq<Record>): seq<Record>
    decreases |rows|
  {
    if rows == [] then acc
    else AddUnseen(if Key(rows[0]) in KeySet(acc) then acc else acc + [rows[0]], rows[1..])
  }

  /** Reference for what `AddUnseen` appends: row `j` is appended iff its key is neither in `acc`
      nor carried by an earlier row of `rows`. */
  function FreshRows(acc: seq<Record>, rows: seq<Record>): (out: seq<Record>)
    ensures forall r :: r in out ==> r in rows && Key(r) !in KeySet(acc)
    ensures KeysDistinct(out)
    ensures KeySet(acc) + KeySet(out) == KeySet(acc) + KeySet(rows)
    decreases |rows|
  {
    if rows == [] then []
    else
      var n := |rows| - 1;
      var p := rows[..n];
      var x := rows[n];
      var prev := FreshRows(acc, p);
      FreshStep(acc, rows, prev);
      prev + (if Key(x) in KeySet(acc) + KeySet(p) then [] else [x])
  }

  /** Inductive step of `FreshRows`: extending by the last row keeps its three properties. */
  lemma FreshStep(acc: seq<Record>, rows: seq<Record>, prev: seq<Record>)
    requires |rows| > 0
    requires forall r :: r in prev ==> r in rows[..|rows| - 1] && Key(r) !in KeySet(acc)
    requires KeysDistinct(prev)
    requires KeySet(acc) + KeySet(prev) == KeySet(acc) + KeySet(rows[..|rows| - 1])
    ensures var x := rows[|rows| - 1];
            var out := prev + (if Key(x) in KeySet(acc) + KeySet(rows[..|rows| - 1]) then [] else [x]);
            && (forall r :: r in out ==> r in rows && Key(r) !in KeySet(acc))
            && KeysDistinct(out)
            && KeySet(acc) + KeySet(out) == KeySet(acc) + KeySet(rows)
  {
    var n := |rows| - 1;
    var p := rows[..n];
    var x := rows[n];
    assert rows == p + [x];
    KeySetAppend(p, [x]);
    assert KeySet([x]) == {Key(x)};
    assert forall r :: r in p ==> r in rows;
    if Key(x) !in KeySet(acc) + KeySet(p) {
      KeySetAppend(prev, [x]);
      DistinctAppendOne(prev, x);
    }
  }

  /** Appending a record with an unseen key keeps the keys pairwise different. */
  lemma DistinctAppendOne(prev: seq<Record>, x: Record)
    requires KeysDistinct(prev) && Key(x) !in KeySet(prev)
    ensures KeysDistinct(prev + [x])
  {
    var out := prev + [x];
    forall i, j | 0 <= i < j < |out|
      ensures Key(out[i]) != Key(out[j])
    {
      if j == |prev| {
        assert out[i] == prev[i] && Key(prev[i]) in KeySet(prev);
      } else {
        assert out[i] == prev[i] && out[j] == prev[j];
      }
    }
  }

  lemma {:induction false} AddUnseenKeys(acc: seq<Record>, rows: seq<Record>)
    ensures KeySet(AddUnseen(acc, rows)) == KeySet(acc) + KeySet(rows)
    decreases |rows|
  {
    if rows != [] {
      var acc' := if Key(rows[0]) in KeySet(acc) then acc else acc + [rows[0]];
      AddUnseenKeys(acc', rows[1..]);
      KeySetAppend(acc, [rows[0]]);
      assert rows == [rows[0]] + rows[1..];
      KeySetAppend([rows[0]], rows[1..]);
    }
  }

  lemma {:induction false} AddUnseenLast(acc: seq<Record>, p: seq<Record>, x: Record)
    ensures AddUnseen(acc, p + [x])
         == (var a := AddUnseen(acc, p); if Key(x) in KeySet(a) then a else a + [x])
    decreases |p|
  {
    if p != [] {
      var acc' := if Key(p[0]) in KeySet(acc) then acc else acc + [p[0]];
      assert (p + [x])[1..] == p[1..] + [x];
      AddUnseenLast(acc', p[1..], x);
    }
  }

  /** The operational union appends exactly the reference `FreshRows`. */
  lemma {:induction false} AddUnseenAppendsFresh(acc: seq<Record>, rows: seq<Record>)
    ensures AddUnseen(acc, rows) == acc + FreshRows(acc, rows)
    decreases |rows|
  {
    if rows != [] {
      var n := |rows| - 1;
      var p := rows[..n];
      assert rows == p + [rows[n]];
      AddUnseenAppendsFresh(acc, p);
      AddUnseenLast(acc, p, rows[n]);
      AddUnseenKeys(acc, p);
    }
  }

  lemma {:induction false} AddUnseenConcat(acc: seq<Record>, a: seq<Record>, b: seq<Record>)
    ensures AddUnseen(AddUnseen(acc, a), b) == AddUnseen(acc, a + b)
    decreases |a|
  {
    if a != [] {
      var acc' := if Key(a[0]) in KeySet(acc) then acc else acc + [a[0]];
      assert (a + b)[0] == a[0];
      assert (a + b)[1..] == a[1..] + b;
      AddUnseenConcat(acc', a[1..], b);
      calc {
        AddUnseen(acc, a + b);
        AddUnseen(acc', a[1..] + b);
        AddUnseen(AddUnseen(acc', a[1..]), b);
        AddUnseen(AddUnseen(acc, a), b);
      }
    } else {
      assert a + b == b;
    }
  }

  /** The domain loop (:120-138): for each domain the query mentions, in vocabulary order, union
      its rows into the running result. */
  function DomainTier(acc: seq<Record>, lowerQuery: string, rs: seq<Record>, domains: seq<string>): seq<Record>
    decreases |domains|
  {
    if domains == [] then acc
    else
      DomainTier(if Mentions(lowerQuery, domains[0]) then AddUnseen(acc, RowsWith(rs, Domain, domains[0])) else acc,
                 lowerQuery, rs, domains[1..])
  }

  /** The domain loop appends, after the running result, exactly the fresh rows among the
      mentioned domains' rows taken in vocabulary order. */
  lemma {:induction false} DomainTierAppendsFresh(acc: seq<Record>, lowerQuery: string, rs: seq<Record>, domains: seq<string>)
    ensures DomainTier(acc, lowerQuery, rs, domains)
         == acc + FreshRows(acc, MatchedRows(lowerQuery, rs, Domain, domains))
    decreases |domains|
  {
    if domains == [] {
      AddUnseenAppendsFresh(acc, []);
    } else {
      var head := if Mentions(lowerQuery, domains[0]) then RowsWith(rs, Domain, domains[0]) else [];
      var acc' := if Mentions(lowerQuery, domains[0]) then AddUnseen(acc, head) else acc;
      assert acc' == AddUnseen(acc, head);
      DomainTierAppendsFresh(acc', lowerQuery, rs, domains[1..]);
      AddUnseenAppendsFresh(acc', MatchedRows(lowerQuery, rs, Domain, domains[1..]));
      AddUnseenConcat(acc, head, MatchedRows(lowerQuery, rs, Domain, domains[1..]));
      AddUnseenAppendsFresh(acc, MatchedRows(lowerQuery, rs, Domain, domains));
    }
  }

  // ---------------------------------------------------------------------------------------
  // Keyword tier and sampling

  const HighestRatingPhrase := "highest rating"
  const TopInstructorPhrase := "top instructor"

  /** The intent-keyword rules (:153-165); the first phrase found decides, and its filter
      replaces the (empty) result. */
  function KeywordRows(lowerQuery: string, rs: seq<Record>): (out: seq<Record>)
    ensures forall r :: r in out ==> r in rs
  {
    if Contains(lowerQuery, HighestRatingPhrase) || Contains(lowerQuery, TopInstructorPhrase) then
      RowsWithAny(rs, OverallRating)
    else if Contains(lowerQuery, "backend") then RowsWith(rs, Domain, "Backend")
    else if Contains(lowerQuery, "fullstack") then RowsWith(rs, Domain, "Fullstack")
    else []
  }

  function Min(a: int, b: int): int {
    if a <= b then a else b
  }

  /** One instructor's entry in the sample map (:174-175): the first three of its rows. An
      instructor named `__proto__` replaces the map's prototype and so contributes nothing. */
  function SampleOf(rs: seq<Record>, instructor: string): (out: seq<Record>)
    ensures forall r :: r in out ==> r in rs && Get(r, Instructor) == Some(instructor)
  {
    if instructor == JsObject.ProtoKey then []
    else
      var own := RowsWith(rs, Instructor, instructor);
      assert forall r :: r in own[..Min(3, |own|)] ==> r in own;
      own[..Min(3, |own|)]
  }

  /** `Object.values(instructorMap).flat()`, enumerating the map in insertion order. */
  function Sample(rs: seq<Record>, instructors: seq<string>): (out: seq<Record>)
    ensures forall r :: r in out ==> r in rs && Get(r, Instructor).Some? && Get(r, Instructor).value in instructors
    decreases |instructors|
  {
    if instructors == [] then []
    else SampleOf(rs, instructors[0]) + Sample(rs, instructors[1..])
  }

  // ---------------------------------------------------------------------------------------
  // The filter

  /** `filterRelevantData`. */
  function FilterRelevant(query: string, rs: seq<Record>): (out: seq<Record>)
    ensures forall r :: r in out ==> r in rs
  {
    var lowerQuery := Lower(query);
    var instructors := Vocabulary(rs, Instructor);
    var byInstructor := MatchedRows(lowerQuery, rs, Instructor, instructors);
    var withDomains := DomainTier(byInstructor, lowerQuery, rs, Vocabulary(rs, Domain));
    DomainTierAppendsFresh(byInstructor, lowerQuery, rs, Vocabulary(rs, Domain));
    if withDomains != [] then withDomains
    else
      var byTopic := MatchedRows(lowerQuery, rs, TopicCode, Vocabulary(rs, TopicCode));
      if byTopic != [] then byTopic
      else
        var byKeyword := KeywordRows(lowerQuery, rs);
        if byKeyword != [] then byKeyword
        else Sample(rs, instructors)
  }

  // ---------------------------------------------------------------------------------------
  // Properties of the filter

  /** The query asks for a ranking (the first keyword rule). */
  predicate AsksForTopRated(lowerQuery: string) {
    Contains(lowerQuery, HighestRatingPhrase) || Contains(lowerQuery, TopInstructorPhrase)
  }

  lemma TierNonEmptyIff(lowerQuery: string, rs: seq<Record>, field: string)
    ensures MatchedRows(lowerQuery, rs, field, Vocabulary(rs, field)) != [] <==> AnyMentioned(lowerQuery, rs, field)
  {
    var m := MatchedRows(lowerQuery, rs, field, Vocabulary(rs, field));
    if m != [] {
      VocabularyTierMembership(lowerQuery, rs, field, m[0]);
    }
    if AnyMentioned(lowerQuery, rs, field) {
      var r :| r in rs && MentionedBy(lowerQuery, r, field);
      VocabularyTierMembership(lowerQuery, rs, field, r);
    }
  }

  lemma FreshIntoEmpty(rows: seq<Record>)
    ensures FreshRows([], rows) == [] <==> rows == []
  {
    if rows != [] {
      assert Key(rows[0]) in KeySet(rows);
      assert KeySet([]) == {};
    }
  }

  /** The "backend" and "fullstack" keyword rules can never select a row: had any row carried
      that domain, the domain tier would already have matched it and the keyword tier would
      not run. */
  lemma KeywordDomainRulesSelectNothing(lowerQuery: string, rs: seq<Record>)
    requires !AnyMentioned(lowerQuery, rs, Domain)
    ensures Contains(lowerQuery, "backend") ==> RowsWith(rs, Domain, "Backend") == []
    ensures Contains(lowerQuery, "fullstack") ==> RowsWith(rs, Domain, "Fullstack") == []
  {
    assert Lower("Backend") == "backend";
    assert Lower("Fullstack") == "fullstack";
    if Contains(lowerQuery, "backend") && RowsWith(rs, Domain, "Backend") != [] {
      var r := RowsWith(rs, Domain, "Backend")[0];
      assert MentionedBy(lowerQuery, r, Domain);
    }
    if Contains(lowerQuery, "fullstack") && RowsWith(rs, Domain, "Fullstack") != [] {
      var r := RowsWith(rs, Domain, "Fullstack")[0];
      assert MentionedBy(lowerQuery, r, Domain);
    }
  }

  /** Which tier decides the result, stated by what the data and the query contain:
      instructor/domain mentions win (instructor rows, then fresh domain rows); otherwise topic
      mentions; otherwise a ranking request over the rated rows; otherwise the sample. */
  lemma TierPrecedence(query: string, rs: seq<Record>)
    ensures var lowerQuery := Lower(query);
            var byInstructor := MatchedRows(lowerQuery, rs, Instructor, Vocabulary(rs, Instructor));
            var byDomain := MatchedRows(lowerQuery, rs, Domain, Vocabulary(rs, Domain));
            var out := FilterRelevant(query, rs);
            var upper := AnyMentioned(lowerQuery, rs, Instructor) || AnyMentioned(lowerQuery, rs, Domain);
            var topic := AnyMentioned(lowerQuery, rs, TopicCode);
            var ranked := AsksForTopRated(lowerQuery) && RowsWithAny(rs, OverallRating) != [];
            && (upper ==> out != [] && out == byInstructor + FreshRows(byInstructor, byDomain))
            && (!upper && topic ==> out != [] && out == MatchedRows(lowerQuery, rs, TopicCode, Vocabulary(rs, TopicCode)))
            && (!upper && !topic && ranked ==> out == RowsWithAny(rs, OverallRating))
            && (!upper && !topic && !ranked ==> out == Sample(rs, Vocabulary(rs, Instructor)))
  {
    var lowerQuery := Lower(query);
    var byInstructor := MatchedRows(lowerQuery, rs, Instructor, Vocabulary(rs, Instructor));
    var byDomain := MatchedRows(lowerQuery, rs, Domain, Vocabulary(rs, Domain));
    DomainTierAppendsFresh(byInstructor, lowerQuery, rs, Vocabulary(rs, Domain));
    TierNonEmptyIff(lowerQuery, rs, Instructor);
    TierNonEmptyIff(lowerQuery, rs, Domain);
    TierNonEmptyIff(lowerQuery, rs, TopicCode);
    if byInstructor == [] {
      FreshIntoEmpty(byDomain);
    }
    if !AnyMentioned(lowerQuery, rs, Domain) {
      KeywordDomainRulesSelectNothing(lowerQuery, rs);
    }
  }

  /** Every row of an instructor the query mentions reaches the completion service. */
  lemma MentionedInstructorRowsIncluded(query: string, rs: seq<Record>, r: Record)
    requires r in rs && MentionedBy(Lower(query), r, Instructor)
    ensures r in FilterRelevant(query, rs)
  {
    TierPrecedence(query, rs);
    VocabularyTierMembership(Lower(query), rs, Instructor, r);
  }

  /** Extending a query never drops an instructor's rows: whatever the shorter query's
      instructor tier matched, the longer query still selects. */
  lemma ExtendedQueryKeepsInstructorRows(shorter: string, longer: string, rs: seq<Record>, r: Record)
    requires Contains(Lower(longer), Lower(shorter))
    requires r in MatchedRows(Lower(shorter), rs, Instructor, Vocabulary(rs, Instructor))
    ensures r in FilterRelevant(longer, rs)
  {
    VocabularyTierMembership(Lower(shorter), rs, Instructor, r);
    ContainsTransitive(Lower(longer), Lower(shorter), Lower(Get(r, Instructor).value));
    MentionedInstructorRowsIncluded(longer, rs, r);
  }

  lemma {:induction false} RowsWithAll(xs: seq<Record>, field: string, v: string)
    requires forall r :: r in xs ==> Get(r, field) == Some(v)
    ensures RowsWith(xs, field, v) == xs
    decreases |xs|
  {
    if xs != [] {
      assert forall r :: r in xs[1..] ==> r in xs;
      RowsWithAll(xs[1..], field, v);
      assert xs == [xs[0]] + xs[1..];
    }
  }

  lemma {:induction false} RowsWithNone(xs: seq<Record>, field: string, v: string)
    requires forall r :: r in xs ==> Get(r, field) != Some(v)
    ensures RowsWith(xs, field, v) == []
    decreases |xs|
  {
    if xs != [] {
      assert forall r :: r in xs[1..] ==> r in xs;
      RowsWithNone(xs[1..], field, v);
    }
  }

  /** The sample restricted to one instructor is that instructor's first `min(3, count)` rows in
      row order, for every instructor of the list except `__proto__`; nothing for the others. */
  lemma {:induction false} SamplePerInstructor(rs: seq<Record>, instructors: seq<string>, v: string)
    requires NoDuplicates(instructors)
    ensures var own := RowsWith(rs, Instructor, v);
            RowsWith(Sample(rs, instructors), Instructor, v)
            == if v in instructors && v != JsObject.ProtoKey then own[..Min(3, |own|)] else []
    decreases |instructors|
  {
    if instructors == [] {
    } else {
      var u := instructors[0];
      var tail := instructors[1..];
      assert NoDuplicates(tail);
      SamplePerInstructor(rs, tail, v);
      RowsWithAppend(SampleOf(rs, u), Sample(rs, tail), Instructor, v);
      if u == v {
        RowsWithAll(SampleOf(rs, u), Instructor, v);
        assert v !in tail;
      } else {
        RowsWithNone(SampleOf(rs, u), Instructor, v);
      }
    }
  }

  /** The sample lists its rows grouped by instructor, the groups in the list's order. */
  lemma {:induction false} SampleInVocabularyOrder(rs: seq<Record>, instructors: seq<string>)
    requires NoDuplicates(instructors)
    ensures InVocabularyOrder(Sample(rs, instructors), Instructor, instructors)
    decreases |instructors|
  {
    if instructors != [] {
      var tail := instructors[1..];
      assert NoDuplicates(tail);
      SampleInVocabularyOrder(rs, tail);
      OrderedConcat(SampleOf(rs, instructors[0]), Sample(rs, tail), Instructor, instructors);
    }
  }

  /** The sample is empty only when no row names an instructor (other than `__proto__`). */
  lemma SampleEmptyOnlyIfNoInstructors(rs: seq<Record>)
    requires Sample(rs, Vocabulary(rs, Instructor)) == []
    ensures forall r :: r in rs ==> !Truthy(Get(r, Instructor)) || Get(r, Instructor).value == JsObject.ProtoKey
  {
    forall r | r in rs && Truthy(Get(r, Instructor))
      ensures Get(r, Instructor).value == JsObject.ProtoKey
    {
      var v := Get(r, Instructor).value;
      assert HasValue(r, Instructor, v);
      SamplePerInstructor(rs, Vocabulary(rs, Instructor), v);
      var own := RowsWith(rs, Instructor, v);
      assert r in own;
    }
  }

  /** The filter answers with nothing only when no row names an instructor (other than
      `__proto__`); otherwise some tier, at worst the sample, selects a row. */
  lemma FilterEmptyOnlyIfNoInstructors(query: string, rs: seq<Record>)
    requires FilterRelevant(query, rs) == []
    ensures forall r :: r in rs ==> !Truthy(Get(r, Instructor)) || Get(r, Instructor).value == JsObject.ProtoKey
  {
    SampleEmptyOnlyIfNoInstructors(rs);
  }

  // ---------------------------------------------------------------------------------------
  // Entity keys stay distinct

  lemma KeysDistinctConcat(a: seq<Record>, b: seq<Record>)
    requires KeysDistinct(a) && KeysDistinct(b)
    requires forall i, j :: 0 <= i < |a| && 0 <= j < |b| ==> Key(a[i]) != Key(b[j])
    ensures KeysDistinct(a + b)
  {
    forall i, j | 0 <= i < j < |a + b|
      ensures Key((a + b)[i]) != Key((a + b)[j])
    {
      if j < |a| {
        assert (a + b)[i] == a[i] && (a + b)[j] == a[j];
      } else if i < |a| {
        assert (a + b)[i] == a[i] && (a + b)[j] == b[j - |a|];
      } else {
        assert (a + b)[i] == b[i - |a|] && (a + b)[j] == b[j - |a|];
      }
    }
  }

  /** Rows that differ in instructor or in topic code differ in entity key. */
  lemma KeyFieldsDiffer(r1: Record, r2: Record, field: string)
    requires field == Instructor || field == TopicCode
    requires Get(r1, field) != Get(r2, field)
    ensures Key(r1) != Key(r2)
  {
  }

  lemma {:induction false} KeysDistinctRowsWith(rs: seq<Record>, field: string, v: string)
    requires KeysDistinct(rs)
    ensures KeysDistinct(RowsWith(rs, field, v))
    decreases |rs|
  {
    if rs != [] {
      var rest := RowsWith(rs[1..], field, v);
      var head := if Get(rs[0], field) == Some(v) then [rs[0]] else [];
      KeysDistinctRowsWith(rs[1..], field, v);
      forall i, j | 0 <= i < |head| && 0 <= j < |rest|
        ensures Key(head[i]) != Key(rest[j])
      {
        assert rest[j] in rs[1..];
        var k :| 0 <= k < |rs[1..]| && rs[1..][k] == rest[j];
        assert rs[k + 1] == rest[j];
      }
      KeysDistinctConcat(head, rest);
    }
  }

  lemma {:induction false} KeysDistinctRowsWithAny(rs: seq<Record>, field: string)
    requires KeysDistinct(rs)
    ensures KeysDistinct(RowsWithAny(rs, field))
    decreases |rs|
  {
    if rs != [] {
      var rest := RowsWithAny(rs[1..], field);
      var head := if Truthy(Get(rs[0], field)) then [rs[0]] else [];
      KeysDistinctRowsWithAny(rs[1..], field);
      forall i, j | 0 <= i < |head| && 0 <= j < |rest|
        ensures Key(head[i]) != Key(rest[j])
      {
        assert rest[j] in rs[1..];
        var k :| 0 <= k < |rs[1..]| && rs[1..][k] == rest[j];
        assert rs[k + 1] == rest[j];
      }
      KeysDistinctConcat(head, rest);
    }
  }

  lemma {:induction false} KeysDistinctMatched(lowerQuery: string, rs: seq<Record>, field: string, vocab: seq<string>)
    requires field == Instructor || field == TopicCode
    requires KeysDistinct(rs) && NoDuplicates(vocab)
    ensures KeysDistinct(MatchedRows(lowerQuery, rs, field, vocab))
    decreases |vocab|
  {
    if vocab != [] {
      var tail := vocab[1..];
      assert NoDuplicates(tail);
      assert vocab[0] !in tail;
      var head := if Mentions(lowerQuery, vocab[0]) then RowsWith(rs, field, vocab[0]) else [];
      var rest := MatchedRows(lowerQuery, rs, field, tail);
      KeysDistinctRowsWith(rs, field, vocab[0]);
      KeysDistinctMatched(lowerQuery, rs, field, tail);
      forall i, j | 0 <= i < |head| && 0 <= j < |rest|
        ensures Key(head[i]) != Key(rest[j])
      {
        assert head[i] in head && rest[j] in rest;
        KeyFieldsDiffer(head[i], rest[j], field);
      }
      KeysDistinctConcat(head, rest);
    }
  }

  lemma {:induction false} KeysDistinctSample(rs: seq<Record>, instructors: seq<string>)
    requires KeysDistinct(rs) && NoDuplicates(instructors)
    ensures KeysDistinct(Sample(rs, instructors))
    decreases |instructors|
  {
    if instructors != [] {
      var tail := instructors[1..];
      assert NoDuplicates(tail);
      assert instructors[0] !in tail;
      var head := SampleOf(rs, instructors[0]);
      var rest := Sample(rs, tail);
      KeysDistinctRowsWith(rs, Instructor, instructors[0]);
      KeysDistinctSample(rs, tail);
      forall i, j | 0 <= i < |head| && 0 <= j < |rest|
        ensures Key(head[i]) != Key(rest[j])
      {
        assert head[i] in head && rest[j] in rest;
        KeyFieldsDiffer(head[i], rest[j], Instructor);
      }
      KeysDistinctConcat(head, rest);
    }
  }

  /** On a sheet whose sessions have distinct entity keys, the filter never selects two rows
      with the same key, whichever tier decides. (The instructor, topic and keyword tiers do no
      de-duplication of their own: distinctness comes from the input.) */
  lemma FilterKeepsKeysDistinct(query: string, rs: seq<Record>)
    requires KeysDistinct(rs)
    ensures KeysDistinct(FilterRelevant(query, rs))
  {
    var lowerQuery := Lower(query);
    TierPrecedence(query, rs);
    if AnyMentioned(lowerQuery, rs, Instructor) || AnyMentioned(lowerQuery, rs, Domain) {
      UpperTiersKeysDistinct(lowerQuery, rs);
    } else if AnyMentioned(lowerQuery, rs, TopicCode) {
      KeysDistinctMatched(lowerQuery, rs, TopicCode, Vocabulary(rs, TopicCode));
    } else if AsksForTopRated(lowerQuery) && RowsWithAny(rs, OverallRating) != [] {
      KeysDistinctRowsWithAny(rs, OverallRating);
    } else {
      KeysDistinctSample(rs, Vocabulary(rs, Instructor));
    }
  }

  /** The instructor tier followed by the fresh domain rows never repeats a key. */
  lemma UpperTiersKeysDistinct(lowerQuery: string, rs: seq<Record>)
    requires KeysDistinct(rs)
    ensures var byInstructor := MatchedRows(lowerQuery, rs, Instructor, Vocabulary(rs, Instructor));
            KeysDistinct(byInstructor + FreshRows(byInstructor, MatchedRows(lowerQuery, rs, Domain, Vocabulary(rs, Domain))))
  {
    var byInstructor := MatchedRows(lowerQuery, rs, Instructor, Vocabulary(rs, Instructor));
    var added := FreshRows(byInstructor, MatchedRows(lowerQuery, rs, Domain, Vocabulary(rs, Domain)));
    KeysDistinctMatched(lowerQuery, rs, Instructor, Vocabulary(rs, Instructor));
    forall i, j | 0 <= i < |byInstructor| && 0 <= j < |added|
      ensures Key(byInstructor[i]) != Key(added[j])
    {
      assert added[j] in added;
      assert Key(byInstructor[i]) in KeySet(byInstructor);
    }
    KeysDistinctConcat(byInstructor, added);
  }
}
