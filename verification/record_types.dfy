/**
 * `summarize_record_types`: a histogram of the records' type tags, as a
 * dictionary whose iteration order is by count, highest first, and then by
 * tag, lowest first. The dictionary is modelled as the sequence of its items
 * in iteration order.
 */
module RecordTypes {
  import opened GeometryPolyline
  import opened Seqs

  /** One dictionary item: a tag and how many records carry it. */
  type Entry = (int, nat)

  /** The sort key `(-count, tag)`: `a` comes before `b`. */
  predicate Before(a: Entry, b: Entry) {
    a.1 > b.1 || (a.1 == b.1 && a.0 < b.0)
  }

  /** Every item comes strictly before every later one (so no tag appears twice). */
  predicate Ordered(es: seq<Entry>) {
    forall i, j :: 0 <= i < j < |es| ==> Before(es[i], es[j])
  }

  predicate DistinctKeys(es: seq<Entry>) {
    forall i, j :: 0 <= i < j < |es| ==> es[i].0 != es[j].0
  }

  function SumCounts(es: seq<Entry>): nat {
    if es == [] then 0 else SumCounts(es[..|es| - 1]) + es[|es| - 1].1
  }

  // ------------------------------------------------------------ sorted(..., key=lambda kv: (-kv[1], kv[0]))

  /** Inserts `e` in front of the first item it comes before. */
  function Insert(e: Entry, es: seq<Entry>): (r: seq<Entry>)
    ensures |r| == |es| + 1 && multiset(r) == multiset(es) + multiset{e}
  {
    if es == [] then [e]
    else if Before(e, es[0]) then [e] + es
    else
      assert es == [es[0]] + es[1..];
      [es[0]] + Insert(e, es[1..])
  }

  /** `sorted` on items with distinct tags: insertion sort (the key is total there, so any correct sort agrees). */
  function Sort(es: seq<Entry>): (r: seq<Entry>)
    ensures |r| == |es| && multiset(r) == multiset(es)
  {
    if es == [] then []
    else
      assert es == es[..|es| - 1] + [es[|es| - 1]];
      Insert(es[|es| - 1], Sort(es[..|es| - 1]))
  }

  /** Inserting an item whose tag is new into an ordered sequence keeps it ordered. */
  lemma {:induction false} InsertOrdered(e: Entry, es: seq<Entry>)
    requires Ordered(es) && forall k :: 0 <= k < |es| ==> es[k].0 != e.0
    ensures Ordered(Insert(e, es))
  {
    if es != [] && !Before(e, es[0]) {
      var tail := es[1..];
      InsertOrdered(e, tail);
      var r := Insert(e, es);
      var ins := Insert(e, tail);
      assert r == [es[0]] + ins;
      forall j | 0 <= j < |ins| ensures Before(es[0], ins[j]) {
        assert ins[j] in multiset(tail) + multiset{e} by {
          assert ins[j] in multiset(ins);
        }
        if ins[j] != e {
          assert ins[j] in tail;
        }
      }
    }
  }

  /** Sums of counts do not depend on the order of the items. */
  lemma {:induction false} InsertSum(e: Entry, es: seq<Entry>)
    ensures SumCounts(Insert(e, es)) == SumCounts(es) + e.1
  {
    if es != [] {
      var s := Insert(e, es);
      if Before(e, es[0]) {
        SumCons(e, es);
      } else {
        InsertSum(e, es[1..]);
        SumCons(es[0], Insert(e, es[1..]));
        SumCons(es[0], es[1..]);
        assert es == [es[0]] + es[1..];
      }
    }
  }

  /** The sum seen from the front. */
  lemma {:induction false} SumCons(e: Entry, es: seq<Entry>)
    ensures SumCounts([e] + es) == e.1 + SumCounts(es)
    decreases |es|
  {
    if es != [] {
      var s := [e] + es;
      assert s[..|s| - 1] == [e] + es[..|es| - 1];
      SumCons(e, es[..|es| - 1]);
    }
  }

  /** Sorting items with distinct tags yields them ordered, with the same total. */
  lemma {:induction false} SortOrdered(es: seq<Entry>)
    requires DistinctKeys(es)
    ensures Ordered(Sort(es)) && SumCounts(Sort(es)) == SumCounts(es)
  {
    if es != [] {
      var init, last := es[..|es| - 1], es[|es| - 1];
      SortOrdered(init);
      var s := Sort(init);
      forall k | 0 <= k < |s| ensures s[k].0 != last.0 {
        assert s[k] in multiset(init);
        var m :| 0 <= m < |init| && init[m] == s[k];
      }
      InsertOrdered(last, s);
      InsertSum(last, s);
    }
  }

  // ------------------------------------------------------------ the counting loop

  /** `ts.count(t)` */
  function Count(ts: seq<int>, t: int): (n: nat)
    ensures n <= |ts|
  {
    if ts == [] then 0 else Count(ts[..|ts| - 1], t) + (if ts[|ts| - 1] == t then 1 else 0)
  }

  lemma CountSnoc(ts: seq<int>, x: int, t: int)
    ensures Count(ts + [x], t) == Count(ts, t) + (if x == t then 1 else 0)
  {
    assert (ts + [x])[..|ts|] == ts;
  }

  /** A value occurs a positive number of times exactly when it is in the sequence. */
  lemma {:induction false} CountPositive(ts: seq<int>, t: int)
    ensures Count(ts, t) > 0 <==> t in ts
  {
    if ts != [] {
      var init := ts[..|ts| - 1];
      CountPositive(init, t);
      assert ts == init + [ts[|ts| - 1]];
    }
  }

  /** `counts.items()`: the items in insertion order `order`. */
  function Items(order: seq<int>, counts: map<int, nat>): (es: seq<Entry>)
    requires forall k :: 0 <= k < |order| ==> order[k] in counts
    ensures |es| == |order| && forall k {:trigger es[k]} :: 0 <= k < |order| ==> es[k] == (order[k], counts[order[k]])
  {
    if order == [] then [] else Items(order[..|order| - 1], counts) + [(order[|order| - 1], counts[order[|order| - 1]])]
  }

  /** Changing the count of a tag that is not in `order` leaves the items alone. */
  lemma ItemsFrame(order: seq<int>, counts: map<int, nat>, t: int, c: nat)
    requires forall k :: 0 <= k < |order| ==> order[k] in counts && order[k] != t
    ensures Items(order, counts[t := c]) == Items(order, counts)
  {
  }

  /** Adding one to the count of a tag that occurs once in `order` adds one to the total. */
  lemma {:induction false} ItemsBump(order: seq<int>, counts: map<int, nat>, t: int, m: nat)
    requires forall k :: 0 <= k < |order| ==> order[k] in counts
    requires m < |order| && order[m] == t
    requires forall k :: 0 <= k < |order| && k != m ==> order[k] != t
    ensures SumCounts(Items(order, counts[t := counts[t] + 1])) == SumCounts(Items(order, counts)) + 1
  {
    var n := |order|;
    var init := order[..n - 1];
    var counts' := counts[t := counts[t] + 1];
    assert Items(order, counts') == Items(init, counts') + [(order[n - 1], counts'[order[n - 1]])];
    assert Items(order, counts) == Items(init, counts) + [(order[n - 1], counts[order[n - 1]])];
    if m == n - 1 {
      ItemsFrame(init, counts, t, counts[t] + 1);
    } else {
      ItemsBump(init, counts, t, m);
    }
  }

  /** `counts` maps exactly the values occurring in `ts`, each to its number of occurrences. */
  ghost predicate Counted(ts: seq<int>, counts: map<int, nat>) {
    && (forall t :: t in counts ==> counts[t] == Count(ts, t) > 0)
    && (forall t :: t !in counts ==> Count(ts, t) == 0)
  }

  /** `order` lists the keys of `counts`, each once. */
  ghost predicate Keys(order: seq<int>, counts: map<int, nat>) {
    && (forall a, b :: 0 <= a < b < |order| ==> order[a] != order[b])
    && (forall k :: 0 <= k < |order| ==> order[k] in counts)
    && (forall t :: t in counts ==> t in order)
  }

  /**
   * `order` and `counts` are the dictionary `counts` after counting `ts`: its
   * keys in insertion order and the number of occurrences of each, which add up to `|ts|`.
   */
  ghost predicate Tallies(ts: seq<int>, order: seq<int>, counts: map<int, nat>) {
    Counted(ts, counts) && Keys(order, counts) && SumCounts(Items(order, counts)) == |ts|
  }

  /** `counts.get(t, 0) + 1` counts one more `t`. */
  lemma CountedStep(ts: seq<int>, counts: map<int, nat>, t: int)
    requires Counted(ts, counts)
    ensures Counted(ts + [t], counts[t := (if t in counts then counts[t] else 0) + 1])
  {
    forall u ensures Count(ts + [t], u) == Count(ts, u) + (if t == u then 1 else 0) {
      CountSnoc(ts, t, u);
    }
  }

  /** A step of the loop on a tag already counted: its count goes up by one. */
  lemma TallyBump(ts: seq<int>, order: seq<int>, counts: map<int, nat>, t: int)
    requires Tallies(ts, order, counts) && t in counts
    ensures Tallies(ts + [t], order, counts[t := counts[t] + 1])
  {
    CountedStep(ts, counts, t);
    var m :| 0 <= m < |order| && order[m] == t;
    ItemsBump(order, counts, t, m);
  }

  /** A step of the loop on a new tag: it is added last, with count 1. */
  lemma TallyNew(ts: seq<int>, order: seq<int>, counts: map<int, nat>, t: int)
    requires Tallies(ts, order, counts) && t !in counts
    ensures Tallies(ts + [t], order + [t], counts[t := 1])
  {
    CountedStep(ts, counts, t);
    var order', counts' := order + [t], counts[t := 1];
    ItemsFrame(order, counts, t, 1);
    assert Items(order', counts') == Items(order, counts') + [(t, 1)];
  }

  /** The loop of `summarize_record_types`: `counts[t] = counts.get(t, 0) + 1` for each record's tag `t`. */
  method CountTags(records: seq<PolylineRecord>) returns (order: seq<int>, counts: map<int, nat>)
    ensures Tallies(Tags(records), order, counts)
  {
    ghost var ts := Tags(records);
    counts, order := map[], [];
    for k := 0 to |records|
      invariant Tallies(ts[..k], order, counts)
    {
      var t := records[k].recType;
      TagsSnoc(records, k);
      if t in counts {
        TallyBump(ts[..k], order, counts, t);
        counts := counts[t := counts[t] + 1];
      } else {
        TallyNew(ts[..k], order, counts, t);
        order, counts := order + [t], counts[t := 1];
      }
    }
    assert ts[..|records|] == ts;
  }

  lemma TagsSnoc(records: seq<PolylineRecord>, k: nat)
    requires k < |records|
    ensures Tags(records)[..k + 1] == Tags(records)[..k] + [records[k].recType]
  {
    PrefixSnoc(Tags(records), k);
  }

  /**
   * `summarize_record_types`: counts each tag in one pass, then orders the
   * items by count, highest first, ties by tag, lowest first.
   */
  method SummarizeRecordTypes(records: seq<PolylineRecord>) returns (summary: seq<Entry>)
    ensures Ordered(summary)
    ensures forall k :: 0 <= k < |summary| ==>
      summary[k].0 in Tags(records) && summary[k].1 == Count(Tags(records), summary[k].0)
    ensures forall t :: t in Tags(records) ==> exists k :: 0 <= k < |summary| && summary[k].0 == t
    ensures SumCounts(summary) == |records|
  {
    var order, counts := CountTags(records);
    var items := Items(order, counts);
    SortOrdered(items);
    summary := Sort(items);
    SortedItemsSound(Tags(records), order, counts, summary);
    SortedItemsComplete(Tags(records), order, counts, summary);
  }

  /** An item of the sorted counts is a value of `ts` with its number of occurrences. */
  lemma SortedItemsSound(ts: seq<int>, order: seq<int>, counts: map<int, nat>, summary: seq<Entry>)
    requires Tallies(ts, order, counts)
    requires summary == Sort(Items(order, counts))
    ensures forall k :: 0 <= k < |summary| ==> summary[k].0 in ts && summary[k].1 == Count(ts, summary[k].0)
  {
    var items := Items(order, counts);
    forall k | 0 <= k < |summary|
      ensures summary[k].0 in ts && summary[k].1 == Count(ts, summary[k].0)
    {
      assert summary[k] in multiset(items);
      var m :| 0 <= m < |items| && items[m] == summary[k];
      var t := order[m];
      assert t in counts && summary[k] == (t, counts[t]);
      CountPositive(ts, t);
    }
  }

  /** Every value of `ts` has an item in the sorted counts. */
  lemma SortedItemsComplete(ts: seq<int>, order: seq<int>, counts: map<int, nat>, summary: seq<Entry>)
    requires Tallies(ts, order, counts)
    requires summary == Sort(Items(order, counts))
    ensures forall t :: t in ts ==> exists k :: 0 <= k < |summary| && summary[k].0 == t
  {
    var items := Items(order, counts);
    forall t | t in ts ensures exists k :: 0 <= k < |summary| && summary[k].0 == t {
      CountPositive(ts, t);
      assert t in counts;
      var m :| 0 <= m < |order| && order[m] == t;
      assert items[m] in multiset(items);
      assert items[m] in multiset(summary);
      var k :| 0 <= k < |summary| && summary[k] == items[m];
    }
  }
}
