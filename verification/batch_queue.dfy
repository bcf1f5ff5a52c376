/**
 * The batch pipeline of `processFiles`: the dropped files are queued with
 * their positions, at most ten are in flight at a time, a finished file frees
 * its slot for the next queued one, and once everything has finished the
 * results are put back in the order of the original list.
 *
 * Promises are replaced by a transition system: a `Batch` is the queue, the
 * files in flight and the results so far, and `Complete` lets ANY file in
 * flight finish next, so the properties below hold for every completion order.
 */
module BatchQueue {
  import opened Common
  import opened Patterns
  import opened FileProcessing

  /** `CONCURRENT_LIMIT`: files processed at the same time. */
  const ConcurrentLimit: nat := 10

  /** `files.map((file, index) => ({ file, index }))`. */
  function Queue(files: seq<FileRef>): (r: seq<WorkItem>)
    ensures |r| == |files|
    ensures forall i :: 0 <= i < |files| ==> r[i] == WorkItem(files[i], i)
  {
    seq(|files|, i requires 0 <= i < |files| => WorkItem(files[i], i))
  }

  /**
   * `fileQueue` (still waiting), `activePromises` (in flight),
   * `processedResults` and `completedCount`.
   */
  datatype Batch = Batch(pending: seq<WorkItem>, active: seq<WorkItem>, results: seq<Outcome>, completed: nat)

  /** The positions of the files in flight, counted with multiplicity. */
  function SlotBag(items: seq<WorkItem>): multiset<int>
  {
    if items == [] then multiset{} else multiset{items[0].index} + SlotBag(items[1..])
  }

  /** The positions the results belong to, counted with multiplicity. */
  function IndexBag(rs: seq<Outcome>): multiset<int>
  {
    if rs == [] then multiset{} else multiset{rs[0].index} + IndexBag(rs[1..])
  }

  /**
   * `startNext()`: while files are waiting and a slot is free, the file at the
   * head of the queue is shifted off and started (the function calls itself
   * after starting one).
   */
  function StartNext(b: Batch): Batch
    decreases |b.pending|
  {
    if |b.pending| > 0 && |b.active| < ConcurrentLimit then
      StartNext(b.(pending := b.pending[1..], active := b.active + [b.pending[0]]))
    else
      b
  }

  /** The free slots: ten minus the files in flight, never negative. */
  function FreeSlots(b: Batch): nat
  {
    if |b.active| < ConcurrentLimit then ConcurrentLimit - |b.active| else 0
  }

  /**
   * `startNext` moves the first `min(waiting, free slots)` files of the queue,
   * in queue order, to the end of the files in flight, and touches nothing else.
   */
  lemma {:induction false} StartNextEffect(b: Batch)
    ensures var r := StartNext(b); var n := Min(|b.pending|, FreeSlots(b));
      && r.pending == b.pending[n..]
      && r.active == b.active + b.pending[..n]
      && r.results == b.results && r.completed == b.completed
    decreases |b.pending|
  {
    var n := Min(|b.pending|, FreeSlots(b));
    if |b.pending| > 0 && |b.active| < ConcurrentLimit {
      var c := b.(pending := b.pending[1..], active := b.active + [b.pending[0]]);
      StartNextEffect(c);
      var m := Min(|c.pending|, FreeSlots(c));
      assert m == n - 1;
      assert c.pending[m..] == b.pending[n..];
      assert c.active + c.pending[..m] == b.active + b.pending[..n];
    } else {
      assert n == 0;
      assert b.pending[0..] == b.pending && b.active + b.pending[..0] == b.active;
    }
  }

  /** The initial `for (i = 0; i < Math.min(CONCURRENT_LIMIT, fileQueue.length); i++) startNext();`. */
  function InitialRounds(b: Batch, i: nat): Batch
    decreases ConcurrentLimit - i
  {
    if i < Min(ConcurrentLimit, |b.pending|) then InitialRounds(StartNext(b), i + 1) else b
  }

  /** The state once the initial batch is started; an empty file list returns before any processing. */
  function StartBatch(files: seq<FileRef>): (r: Option<Batch>)
    ensures r.None? <==> files == []
  {
    if files == [] then None else Some(InitialRounds(Batch(Queue(files), [], [], 0), 0))
  }

  /**
   * The file in slot `k` finishes with `extraction`: `processFile` shapes its
   * result (it never rejects), the `.then` handler records it, frees the slot,
   * and starts the next file if any is waiting.
   */
  function Complete(b: Batch, k: nat, extraction: Extraction, matches: Matcher): Batch
    requires k < |b.active|
  {
    var freed := Record(b, k, ProcessFile(b.active[k], extraction, matches));
    if |freed.pending| > 0 then StartNext(freed) else freed
  }

  /** The `.then` handler before it starts the next file: the result is pushed and the slot freed. */
  function Record(b: Batch, k: nat, outcome: Outcome): Batch
    requires k < |b.active|
  {
    Batch(b.pending, b.active[..k] + b.active[k + 1..], b.results + [outcome], b.completed + 1)
  }

  /** The `while (activePromises.size > 0 || fileQueue.length > 0)` loop is over. */
  predicate Drained(b: Batch)
  {
    b.pending == [] && b.active == []
  }

  /** Files still to finish. */
  function Remaining(b: Batch): nat
  {
    |b.pending| + |b.active|
  }

  /**
   * What holds of the batch between events, except that free slots are used:
   * the queue is the untouched tail of the original list (admission is FIFO);
   * every admitted file is either in flight or has exactly one result; each
   * in-flight file and each result belongs to its position in the list; at
   * most ten files are in flight; the progress counter counts the results.
   */
  predicate Consistent(items: seq<WorkItem>, b: Batch)
  {
    && (forall i :: 0 <= i < |items| ==> items[i].index == i)
    && |b.pending| <= |items|
    && b.pending == items[|items| - |b.pending|..]
    && |b.active| <= ConcurrentLimit
    && SlotBag(b.active) + IndexBag(b.results) == Positions(0, |items| - |b.pending|)
    && (forall j :: 0 <= j < |b.active| ==> 0 <= b.active[j].index < |items| && b.active[j] == items[b.active[j].index])
    && (forall j :: 0 <= j < |b.results| ==> 0 <= b.results[j].index < |items| && b.results[j].file == items[b.results[j].index].file)
    && b.completed == |b.results|
  }

  /** The invariant of the queue: consistent, and no slot is idle while a file waits. */
  predicate Inv(items: seq<WorkItem>, b: Batch)
  {
    Consistent(items, b) && (|b.pending| > 0 ==> |b.active| == ConcurrentLimit)
  }

  /** The positions lo, lo+1, ..., hi-1, once each. */
  function Positions(lo: int, hi: int): multiset<int>
    decreases hi - lo
  {
    if lo >= hi then multiset{} else multiset{lo} + Positions(lo + 1, hi)
  }

  lemma {:induction false} PositionsSnoc(lo: int, hi: int)
    requires lo <= hi
    ensures Positions(lo, hi + 1) == Positions(lo, hi) + multiset{hi}
    decreases hi - lo
  {
    if lo < hi {
      PositionsSnoc(lo + 1, hi);
    }
  }

  lemma {:induction false} PositionsSize(lo: int, hi: int)
    requires lo <= hi
    ensures |Positions(lo, hi)| == hi - lo
    decreases hi - lo
  {
    if lo < hi {
      PositionsSize(lo + 1, hi);
    }
  }

  /** Starting the head of the queue keeps the batch consistent. */
  lemma StartOneConsistent(items: seq<WorkItem>, b: Batch)
    requires Consistent(items, b)
    requires |b.pending| > 0 && |b.active| < ConcurrentLimit
    ensures Consistent(items, b.(pending := b.pending[1..], active := b.active + [b.pending[0]]))
  {
    var admitted := |items| - |b.pending|;
    var head := b.pending[0];
    assert head == items[admitted];
    assert b.pending[1..] == items[admitted + 1..];
    var c := b.(pending := b.pending[1..], active := b.active + [head]);
    SlotBagAppend(b.active, [head]);
    assert SlotBag([head]) == multiset{admitted} by { assert [head][1..] == []; }
    PositionsSnoc(0, admitted);
    assert SlotBag(c.active) + IndexBag(c.results) == Positions(0, |items| - |c.pending|);
    assert c.pending == items[|items| - |c.pending|..];
    forall j | 0 <= j < |c.active|
      ensures 0 <= c.active[j].index < |items| && c.active[j] == items[c.active[j].index]
    {
      if j < |b.active| { assert c.active[j] == b.active[j]; }
    }
  }

  /** `startNext` keeps the batch consistent and leaves no slot idle while a file waits. */
  lemma {:induction false} StartNextInv(items: seq<WorkItem>, b: Batch)
    requires Consistent(items, b)
    ensures Inv(items, StartNext(b))
    decreases |b.pending|
  {
    if |b.pending| > 0 && |b.active| < ConcurrentLimit {
      StartOneConsistent(items, b);
      StartNextInv(items, b.(pending := b.pending[1..], active := b.active + [b.pending[0]]));
    }
  }

  /** The initial rounds amount to one `startNext`: its recursion already fills every free slot. */
  lemma InitialRoundsFill(b: Batch)
    ensures InitialRounds(b, 0) == StartNext(b)
  {
    if 0 < Min(ConcurrentLimit, |b.pending|) {
      StartNextSettles(b);
      InitialRoundsSettled(StartNext(b), 1);
    } else {
      StartNextSettled(b);
    }
  }

  /** On a settled batch the remaining initial rounds change nothing. */
  lemma {:induction false} InitialRoundsSettled(b: Batch, i: nat)
    requires Settled(b)
    ensures InitialRounds(b, i) == b
    decreases ConcurrentLimit - i
  {
    if i < Min(ConcurrentLimit, |b.pending|) {
      StartNextSettled(b);
      InitialRoundsSettled(b, i + 1);
    }
  }

  /** Nothing can start: no file waits or every slot is busy. */
  predicate Settled(b: Batch)
  {
    b.pending == [] || |b.active| >= ConcurrentLimit
  }

  /** `startNext` leaves the batch settled. */
  lemma StartNextSettles(b: Batch)
    ensures Settled(StartNext(b))
  {
    StartNextEffect(b);
  }

  /** On a settled batch `startNext` does nothing. */
  lemma StartNextSettled(b: Batch)
    requires Settled(b)
    ensures StartNext(b) == b
  {
  }

  /** The batch starts with the first `min(10, N)` files in flight and satisfies the invariant. */
  lemma StartBatchInv(files: seq<FileRef>)
    requires files != []
    ensures var b := StartBatch(files).value; var n := Min(|files|, ConcurrentLimit);
      && Inv(Queue(files), b)
      && b.active == Queue(files)[..n] && b.pending == Queue(files)[n..]
      && b.results == [] && b.completed == 0
  {
    var b0 := Batch(Queue(files), [], [], 0);
    InitialRoundsFill(b0);
    StartNextEffect(b0);
    assert [] + Queue(files)[..Min(|files|, ConcurrentLimit)] == Queue(files)[..Min(|files|, ConcurrentLimit)];
    StartNextInv(Queue(files), b0);
  }

  lemma {:induction false} SlotBagAppend(a: seq<WorkItem>, b: seq<WorkItem>)
    ensures SlotBag(a + b) == SlotBag(a) + SlotBag(b)
  {
    if a == [] {
      assert a + b == b;
    } else {
      assert (a + b)[1..] == a[1..] + b;
      SlotBagAppend(a[1..], b);
    }
  }

  lemma {:induction false} IndexBagAppend(a: seq<Outcome>, b: seq<Outcome>)
    ensures IndexBag(a + b) == IndexBag(a) + IndexBag(b)
  {
    if a == [] {
      assert a + b == b;
    } else {
      assert (a + b)[1..] == a[1..] + b;
      IndexBagAppend(a[1..], b);
    }
  }

  lemma {:induction false} SlotBagRemove(s: seq<WorkItem>, k: nat)
    requires k < |s|
    ensures SlotBag(s[..k] + s[k + 1..]) + multiset{s[k].index} == SlotBag(s)
  {
    var front, back := s[..k], s[k + 1..];
    var mid := [s[k]] + back;
    assert s == front + mid;
    assert mid[0] == s[k] && mid[1..] == back;
    assert SlotBag(mid) == multiset{s[k].index} + SlotBag(back);
    SlotBagAppend(front, mid);
    SlotBagAppend(front, back);
  }

  /** Recording the result of a file in flight keeps the batch consistent. */
  lemma RecordConsistent(items: seq<WorkItem>, b: Batch, k: nat, outcome: Outcome)
    requires Consistent(items, b) && k < |b.active|
    requires outcome.index == b.active[k].index && outcome.file == b.active[k].file
    ensures Consistent(items, Record(b, k, outcome))
  {
    var c := Record(b, k, outcome);
    RecordBags(b, k, outcome);
    forall j | 0 <= j < |c.active|
      ensures 0 <= c.active[j].index < |items| && c.active[j] == items[c.active[j].index]
    {
      if j < k { assert c.active[j] == b.active[j]; } else { assert c.active[j] == b.active[j + 1]; }
    }
    forall j | 0 <= j < |c.results|
      ensures 0 <= c.results[j].index < |items| && c.results[j].file == items[c.results[j].index].file
    {
      if j < |b.results| { assert c.results[j] == b.results[j]; }
    }
  }

  /** Moving a file from its slot to the results keeps the positions accounted for. */
  lemma RecordBags(b: Batch, k: nat, outcome: Outcome)
    requires k < |b.active| && outcome.index == b.active[k].index
    ensures var c := Record(b, k, outcome);
      SlotBag(c.active) + IndexBag(c.results) == SlotBag(b.active) + IndexBag(b.results)
  {
    SlotBagRemove(b.active, k);
    IndexBagAppend(b.results, [outcome]);
    assert IndexBag([outcome]) == multiset{outcome.index} by { assert [outcome][1..] == []; }
  }

  /** Finishing any file in flight keeps the invariant, with one more result. */
  lemma CompleteInv(items: seq<WorkItem>, b: Batch, k: nat, extraction: Extraction, matches: Matcher)
    requires Inv(items, b) && k < |b.active|
    ensures var b' := Complete(b, k, extraction, matches);
      && Inv(items, b')
      && b'.results == b.results + [ProcessFile(b.active[k], extraction, matches)]
      && Remaining(b') == Remaining(b) - 1
  {
    var freed := Record(b, k, ProcessFile(b.active[k], extraction, matches));
    RecordConsistent(items, b, k, ProcessFile(b.active[k], extraction, matches));
    if |freed.pending| > 0 {
      StartNextInv(items, freed);
      StartNextEffect(freed);
    }
  }

  /** While the loop has not ended, some file is in flight, so a completion can happen. */
  lemma Progress(items: seq<WorkItem>, b: Batch)
    requires Inv(items, b) && !Drained(b)
    ensures |b.active| > 0
  {
  }

  /** When the loop ends, every position of the list has exactly one result. */
  lemma DrainedExactlyOnce(items: seq<WorkItem>, b: Batch)
    requires Inv(items, b) && Drained(b)
    ensures IndexBag(b.results) == Positions(0, |items|)
    ensures |b.results| == |items| && b.completed == |items|
  {
    assert SlotBag(b.active) == multiset{};
    BagOfPositions(b.results, |items|);
  }

  lemma BagOfPositions(rs: seq<Outcome>, n: nat)
    requires IndexBag(rs) == Positions(0, n)
    ensures |rs| == n
  {
    IndexBagSize(rs);
    PositionsSize(0, n);
  }

  lemma {:induction false} IndexBagSize(rs: seq<Outcome>)
    ensures |IndexBag(rs)| == |rs|
  {
    if rs != [] {
      IndexBagSize(rs[1..]);
    }
  }

  // ---------------------------------------------------------------- ordering

  predicate SortedByIndex(s: seq<Outcome>)
  {
    forall i, j :: 0 <= i < j < |s| ==> s[i].index <= s[j].index
  }

  function Insert(x: Outcome, s: seq<Outcome>): (r: seq<Outcome>)
    requires SortedByIndex(s)
    ensures SortedByIndex(r)
    ensures |r| == |s| + 1 && (r[0] == x || (s != [] && r[0] == s[0]))
  {
    if s == [] then [x]
    else if x.index <= s[0].index then [x] + s
    else
      var rest := Insert(x, s[1..]);
      assert s == [s[0]] + s[1..];
      assert s[0].index <= rest[0].index;
      [s[0]] + rest
  }

  lemma {:induction false} InsertPermutes(x: Outcome, s: seq<Outcome>)
    requires SortedByIndex(s)
    ensures multiset(Insert(x, s)) == multiset(s) + multiset{x}
  {
    if s != [] && x.index > s[0].index {
      InsertPermutes(x, s[1..]);
      assert s == [s[0]] + s[1..];
    }
  }

  lemma {:induction false} InsertIndexBag(x: Outcome, s: seq<Outcome>)
    requires SortedByIndex(s)
    ensures IndexBag(Insert(x, s)) == IndexBag(s) + multiset{x.index}
  {
    if s == [] {
      assert [x][1..] == [];
    } else if x.index <= s[0].index {
      assert ([x] + s)[1..] == s;
    } else {
      var tail := s[1..];
      InsertIndexBag(x, tail);
      assert Insert(x, s) == [s[0]] + Insert(x, tail);
      IndexBagCons(s[0], Insert(x, tail));
    }
  }

  lemma IndexBagCons(a: Outcome, rest: seq<Outcome>)
    ensures IndexBag([a] + rest) == multiset{a.index} + IndexBag(rest)
  {
    assert ([a] + rest)[1..] == rest;
  }

  /** `processedResults.sort((a, b) => a.index - b.index)`. */
  function SortByIndex(s: seq<Outcome>): (r: seq<Outcome>)
    ensures SortedByIndex(r) && |r| == |s|
  {
    if s == [] then [] else Insert(s[|s| - 1], SortByIndex(s[..|s| - 1]))
  }

  /** Sorting only rearranges the results. */
  lemma {:induction false} SortPermutes(s: seq<Outcome>)
    ensures multiset(SortByIndex(s)) == multiset(s)
  {
    if s != [] {
      SortPermutes(s[..|s| - 1]);
      InsertPermutes(s[|s| - 1], SortByIndex(s[..|s| - 1]));
      assert s == s[..|s| - 1] + [s[|s| - 1]];
    }
  }

  lemma {:induction false} SortIndexBag(s: seq<Outcome>)
    ensures IndexBag(SortByIndex(s)) == IndexBag(s)
  {
    if s != [] {
      var init := s[..|s| - 1];
      SortIndexBag(init);
      InsertIndexBag(s[|s| - 1], SortByIndex(init));
      assert s == init + [s[|s| - 1]];
      IndexBagAppend(init, [s[|s| - 1]]);
      assert IndexBag([s[|s| - 1]]) == multiset{s[|s| - 1].index} by { assert [s[|s| - 1]][1..] == []; }
    }
  }

  lemma {:induction false} InIndexBag(rs: seq<Outcome>, v: int)
    requires v in IndexBag(rs)
    ensures exists j :: 0 <= j < |rs| && rs[j].index == v
  {
    if rs[0].index != v {
      InIndexBag(rs[1..], v);
      var j :| 0 <= j < |rs[1..]| && rs[1..][j].index == v;
      assert rs[j + 1].index == v;
    }
  }

  lemma {:induction false} IndexInBag(rs: seq<Outcome>, j: nat)
    requires j < |rs|
    ensures rs[j].index in IndexBag(rs)
  {
    if j > 0 {
      IndexInBag(rs[1..], j - 1);
    }
  }

  lemma HeadIsLowest(rs: seq<Outcome>, lo: int, hi: int)
    requires lo < hi
    requires SortedByIndex(rs)
    requires IndexBag(rs) == Positions(lo, hi)
    ensures rs != [] && rs[0].index == lo
  {
    assert lo in Positions(lo, hi);
    InIndexBag(rs, lo);
    IndexInBag(rs, 0);
    PositionsCount(lo, hi, rs[0].index);
  }

  lemma TailBag(rs: seq<Outcome>, lo: int, hi: int)
    requires lo < hi
    requires rs != [] && rs[0].index == lo
    requires IndexBag(rs) == Positions(lo, hi)
    ensures IndexBag(rs[1..]) == Positions(lo + 1, hi)
  {
    assert Positions(lo, hi) == multiset{lo} + Positions(lo + 1, hi);
    assert IndexBag(rs) == multiset{lo} + IndexBag(rs[1..]);
    forall v
      ensures IndexBag(rs[1..])[v] == Positions(lo + 1, hi)[v]
    {
      assert (multiset{lo} + IndexBag(rs[1..]))[v] == (multiset{lo} + Positions(lo + 1, hi))[v];
    }
  }

  /** Results sorted by position whose positions are lo, ..., hi-1 (once each) sit at those positions. */
  lemma {:induction false} SortedPositionsAreIdentity(rs: seq<Outcome>, lo: int, hi: int)
    requires lo <= hi
    requires SortedByIndex(rs)
    requires IndexBag(rs) == Positions(lo, hi)
    ensures |rs| == hi - lo
    ensures forall i :: 0 <= i < |rs| ==> rs[i].index == lo + i
    decreases hi - lo
  {
    IndexBagSize(rs);
    PositionsSize(lo, hi);
    if lo < hi {
      HeadIsLowest(rs, lo, hi);
      TailBag(rs, lo, hi);
      var tail := rs[1..];
      SortedTail(rs);
      SortedPositionsAreIdentity(tail, lo + 1, hi);
      forall i | 0 <= i < |rs|
        ensures rs[i].index == lo + i
      {
        if i > 0 { assert rs[i] == tail[i - 1]; }
      }
    }
  }

  lemma SortedTail(rs: seq<Outcome>)
    requires rs != [] && SortedByIndex(rs)
    ensures SortedByIndex(rs[1..])
  {
    forall i, j | 0 <= i < j < |rs| - 1
      ensures rs[1..][i].index <= rs[1..][j].index
    {
      assert rs[1..][i] == rs[i + 1] && rs[1..][j] == rs[j + 1];
    }
  }

  lemma {:induction false} PositionsCount(lo: int, hi: int, v: int)
    requires lo <= hi
    ensures Positions(lo, hi)[v] == if lo <= v < hi then 1 else 0
    decreases hi - lo
  {
    if lo < hi {
      PositionsCount(lo + 1, hi, v);
    }
  }

  /**
   * Whatever the completion order: after the final sort the results are one
   * per file, in the order of the original list.
   */
  lemma ResultsInOriginalOrder(items: seq<WorkItem>, b: Batch)
    requires Inv(items, b) && Drained(b)
    ensures var r := SortByIndex(b.results);
      && |r| == |items|
      && (forall i :: 0 <= i < |r| ==> r[i].index == i && r[i].file == items[i].file)
      && (forall i :: 0 <= i < |r| ==> r[i] in b.results)
  {
    DrainedExactlyOnce(items, b);
    var r := SortByIndex(b.results);
    SortIndexBag(b.results);
    SortPermutes(b.results);
    SortedPositionsAreIdentity(r, 0, |items|);
    forall i | 0 <= i < |r|
      ensures r[i].index == i && r[i].file == items[i].file && r[i] in b.results
    {
      assert r[i] in multiset(b.results);
    }
  }

  /** Every result is what `processFile` makes of its file with that file's extraction. */
  predicate Faithful(items: seq<WorkItem>, rs: seq<Outcome>, extract: WorkItem -> Extraction, matches: Matcher)
  {
    forall j :: 0 <= j < |rs| ==>
      0 <= rs[j].index < |items| && rs[j] == ProcessFile(items[rs[j].index], extract(items[rs[j].index]), matches)
  }

  lemma FaithfulStep(items: seq<WorkItem>, b: Batch, k: nat, extract: WorkItem -> Extraction, matches: Matcher)
    requires Inv(items, b) && k < |b.active| && Faithful(items, b.results, extract, matches)
    ensures Faithful(items, Complete(b, k, extract(b.active[k]), matches).results, extract, matches)
  {
    CompleteInv(items, b, k, extract(b.active[k]), matches);
    var rs := Complete(b, k, extract(b.active[k]), matches).results;
    assert b.active[k] == items[b.active[k].index];
    forall j | 0 <= j < |rs|
      ensures 0 <= rs[j].index < |items| && rs[j] == ProcessFile(items[rs[j].index], extract(items[rs[j].index]), matches)
    {
      if j < |b.results| { assert rs[j] == b.results[j]; }
    }
  }

  /** Once drained, the sorted results are, position by position, `processFile` of each file. */
  lemma FaithfulSorted(files: seq<FileRef>, b: Batch, extract: WorkItem -> Extraction, matches: Matcher)
    requires Inv(Queue(files), b) && Drained(b) && Faithful(Queue(files), b.results, extract, matches)
    ensures var r := SortByIndex(b.results);
      && |r| == |files|
      && forall i :: 0 <= i < |files| ==>
           r[i] == ProcessFile(WorkItem(files[i], i), extract(WorkItem(files[i], i)), matches)
  {
    var items := Queue(files);
    ResultsInOriginalOrder(items, b);
    var r := SortByIndex(b.results);
    forall i | 0 <= i < |files|
      ensures r[i] == ProcessFile(WorkItem(files[i], i), extract(WorkItem(files[i], i)), matches)
    {
      var j :| 0 <= j < |b.results| && b.results[j] == r[i];
      assert items[i] == WorkItem(files[i], i);
    }
  }

  /**
   * `processFiles`. What PDF parsing (`pdf`) and OCR (`ocr`) make of each
   * file is given, and so is the order in which files in flight finish
   * (`pick`, any choice): nothing happens for an empty list; otherwise the
   * results are those of `processFile` on every file, one each, in the order
   * of the list, each PDF read by `extractPdfText` and every other file by OCR.
   */
  method ProcessFiles(files: seq<FileRef>, pdf: WorkItem -> PdfPages, ocr: WorkItem -> Extraction, pick: Batch -> nat, matches: Matcher)
    returns (r: Option<seq<Outcome>>)
    ensures r.None? <==> files == []
    ensures r.Some? ==> |r.value| == |files|
    ensures r.Some? ==> forall i :: 0 <= i < |files| ==>
      r.value[i] == ProcessFile(WorkItem(files[i], i), Extract(files[i], pdf(WorkItem(files[i], i)), ocr(WorkItem(files[i], i))), matches)
  {
    if files == [] {
      return None;
    }
    var extract := (w: WorkItem) => Extract(w.file, pdf(w), ocr(w));
    var items := Queue(files);
    StartBatchInv(files);
    var b := StartBatch(files).value;
    while !Drained(b)
      invariant Inv(items, b)
      invariant Faithful(items, b.results, extract, matches)
      decreases Remaining(b)
    {
      Progress(items, b);
      var k := pick(b) % |b.active|;
      CompleteInv(items, b, k, extract(b.active[k]), matches);
      FaithfulStep(items, b, k, extract, matches);
      b := Complete(b, k, extract(b.active[k]), matches);
    }
    FaithfulSorted(files, b, extract, matches);
    return Some(SortByIndex(b.results));
  }
}
