/**
 * The grouping step of `downloadZip`: results are collected into an object
 * keyed by category, each category created on its first result and each
 * result appended to its category's list; the folders of the archive follow
 * the keys in insertion order.
 */
module ResultGrouping {
  import opened Entries
  import opened FileProcessing

  type Groups = seq<Entry<seq<Outcome>>>

  /** `if (!categories[c]) categories[c] = []; categories[c].push(result);` */
  function AddToGroup(groups: Groups, r: Outcome): Groups
  {
    Upsert(groups, r.category, [], (g: seq<Outcome>) => g + [r])
  }

  /** `results.forEach(...)` over an initially empty object. */
  function GroupByCategory(results: seq<Outcome>): Groups
  {
    if results == [] then []
    else AddToGroup(GroupByCategory(results[..|results| - 1]), results[|results| - 1])
  }

  /** The results of category `k`, in their original relative order. */
  function InCategory(results: seq<Outcome>, k: string): seq<Outcome>
  {
    if results == [] then []
    else InCategory(results[..|results| - 1], k)
         + (if results[|results| - 1].category == k then [results[|results| - 1]] else [])
  }

  function SumSizes(groups: Groups): int
  {
    if groups == [] then 0 else |groups[0].value| + SumSizes(groups[1..])
  }

  lemma AddToGroupEffect(groups: Groups, r: Outcome)
    requires DistinctKeys(groups)
    ensures var g' := AddToGroup(groups, r); var k := r.category;
      && DistinctKeys(g')
      && Keys(g') == (if k in Keys(groups) then Keys(groups) else Keys(groups) + [k])
      && (forall i :: 0 <= i < |groups| ==> g'[i] == if groups[i].key == k then Entry(k, groups[i].value + [r]) else groups[i])
      && (k !in Keys(groups) ==> g'[|groups|] == Entry(k, [r]))
  {
    UpsertEffect(groups, r.category, [], (g: seq<Outcome>) => g + [r]);
    assert [] + [r] == [r];
  }

  lemma InCategoryAppend(pre: seq<Outcome>, last: Outcome, k: string)
    ensures InCategory(pre + [last], k) == InCategory(pre, k) + (if last.category == k then [last] else [])
  {
    assert (pre + [last])[..|pre|] == pre;
  }

  lemma {:induction false} InCategoryAbsent(results: seq<Outcome>, k: string)
    requires forall j :: 0 <= j < |results| ==> results[j].category != k
    ensures InCategory(results, k) == []
  {
    if results != [] {
      InCategoryAbsent(results[..|results| - 1], k);
    }
  }

  /** The keys are distinct, and every result's category is one of them. */
  lemma {:induction false} GroupKeys(results: seq<Outcome>)
    ensures DistinctKeys(GroupByCategory(results))
    ensures forall j :: 0 <= j < |results| ==> results[j].category in Keys(GroupByCategory(results))
  {
    if results != [] {
      var pre := results[..|results| - 1];
      var last := results[|results| - 1];
      var old_ := GroupByCategory(pre);
      var groups := AddToGroup(old_, last);
      assert GroupByCategory(results) == groups;
      GroupKeys(pre);
      AddToGroupKeys(old_, last);
      assert results == pre + [last];
      KeysCover(pre, last, (x: Outcome) => x.category, {}, Keys(old_), Keys(groups));
    }
  }

  /** Adding a result keeps the keys distinct, keeps every key, and makes its category a key. */
  lemma AddToGroupKeys(groups: Groups, r: Outcome)
    requires DistinctKeys(groups)
    ensures DistinctKeys(AddToGroup(groups, r))
    ensures forall k :: k in Keys(groups) ==> k in Keys(AddToGroup(groups, r))
    ensures r.category in Keys(AddToGroup(groups, r))
  {
    AddToGroupEffect(groups, r);
  }

  /** One more result keeps each group equal to the results of its category, in order. */
  lemma {:induction false} GroupStep(pre: seq<Outcome>, last: Outcome, old_: Groups, i: nat)
    requires forall i :: 0 <= i < |old_| ==> old_[i].value == InCategory(pre, old_[i].key) != []
    requires DistinctKeys(old_) && forall j :: 0 <= j < |pre| ==> pre[j].category in Keys(old_)
    requires i < |AddToGroup(old_, last)|
    ensures var e := AddToGroup(old_, last)[i];
      e.value == InCategory(pre + [last], e.key) != []
  {
    var k := last.category;
    AddToGroupEffect(old_, last);
    if i < |old_| {
      InCategoryAppend(pre, last, old_[i].key);
    } else {
      assert k !in Keys(old_);
      forall j | 0 <= j < |pre|
        ensures pre[j].category != k
      {
        assert pre[j].category in Keys(old_);
      }
      InCategoryAbsent(pre, k);
      InCategoryAppend(pre, last, k);
    }
  }

  /**
   * Each group holds exactly the results of its category, in their original
   * relative order, and no group is empty.
   */
  lemma {:induction false} GroupContents(results: seq<Outcome>)
    ensures forall i :: 0 <= i < |GroupByCategory(results)| ==>
      GroupByCategory(results)[i].value == InCategory(results, GroupByCategory(results)[i].key) != []
  {
    if results != [] {
      var pre := results[..|results| - 1];
      var last := results[|results| - 1];
      var old_ := GroupByCategory(pre);
      GroupContents(pre);
      GroupKeys(pre);
      assert forall i :: 0 <= i < |old_| ==> old_[i].value == InCategory(pre, old_[i].key) != [];
      var groups := GroupByCategory(results);
      assert groups == AddToGroup(old_, last);
      assert results == pre + [last];
      forall i | 0 <= i < |groups|
        ensures groups[i].value == InCategory(results, groups[i].key) != []
      {
        GroupStep(pre, last, old_, i);
      }
    }
  }

  lemma {:induction false} SumSizesUpdate(gs: Groups, i: nat, e: Entry<seq<Outcome>>)
    requires i < |gs|
    ensures SumSizes(gs[i := e]) == SumSizes(gs) - |gs[i].value| + |e.value|
  {
    if i > 0 {
      assert gs[i := e][1..] == gs[1..][i - 1 := e];
      SumSizesUpdate(gs[1..], i - 1, e);
    }
  }

  lemma {:induction false} SumSizesAppend(gs: Groups, e: Entry<seq<Outcome>>)
    ensures SumSizes(gs + [e]) == SumSizes(gs) + |e.value|
  {
    if gs != [] {
      assert (gs + [e])[1..] == gs[1..] + [e];
      SumSizesAppend(gs[1..], e);
    } else {
      assert (gs + [e])[1..] == [];
    }
  }

  /** The groups together hold as many results as there are: none is lost or duplicated. */
  lemma {:induction false} GroupSizesTotal(results: seq<Outcome>)
    ensures SumSizes(GroupByCategory(results)) == |results|
  {
    if results != [] {
      var pre := results[..|results| - 1];
      var last := results[|results| - 1];
      var k := last.category;
      var old_ := GroupByCategory(pre);
      GroupSizesTotal(pre);
      GroupKeys(pre);
      AddToGroupEffect(old_, last);
      match Find(old_, k)
      case Some(i) =>
        assert GroupByCategory(results) == old_[i := Entry(k, old_[i].value + [last])];
        SumSizesUpdate(old_, i, Entry(k, old_[i].value + [last]));
      case None =>
        assert GroupByCategory(results) == old_ + [Entry(k, [last])];
        SumSizesAppend(old_, Entry(k, [last]));
    }
  }

  /**
   * Every result lands in the folder of its own category: that folder exists,
   * and it lists the result among the results of that category.
   */
  lemma ResultInItsGroup(results: seq<Outcome>, j: nat)
    requires j < |results|
    ensures exists i ::
              && 0 <= i < |GroupByCategory(results)|
              && GroupByCategory(results)[i].key == results[j].category
              && results[j] in GroupByCategory(results)[i].value
  {
    var groups := GroupByCategory(results);
    GroupKeys(results);
    assert results[j].category in Keys(groups);
    var i :| 0 <= i < |groups| && Keys(groups)[i] == results[j].category;
    GroupContents(results);
    assert groups[i].key == results[j].category;
    assert groups[i].value == InCategory(results, results[j].category);
    InCategoryContains(results, j);
    assert results[j] in groups[i].value;
  }

  lemma {:induction false} InCategoryContains(results: seq<Outcome>, j: nat)
    requires j < |results|
    ensures results[j] in InCategory(results, results[j].category)
  {
    if j < |results| - 1 {
      InCategoryContains(results[..|results| - 1], j);
    }
  }
}
