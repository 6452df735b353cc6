/** Document indexing with the high-quality technique: splitting documents over hash buckets,
    marking segments per bucket, and stopping, failing and resuming in between. One worker
    handles a document at a time; what the outside does to it is a parameter of each run. */
module Indexing {
  import opened Wrappers

  datatype SegmentStatus = SegmentWaiting | SegmentIndexing | SegmentCompleted

  datatype Segment = Segment(nodeId: string, content: string, status: SegmentStatus)

  datatype Doc = Doc(id: string, content: string)

  datatype Status = Waiting | Parsing | Cleaning | Splitting | Indexing | Completed | Error

  /** A document row with its segments. */
  datatype State = State(status: Status, paused: bool, segments: seq<Segment>, tokens: nat)

  const WORKERS := 10

  /** How a step of a worker goes: through, stopped by a pause, or into an exception. */
  datatype Fate = Proceeds | Stops | Fails

  /** Everything the outside contributes to one run. hash is SHA-256 of the content as a
      number; count is the embedding model's token count. */
  datatype Events = Events(extracting: Fate, transformed: Option<seq<Doc>>, addFailsAfter: Option<nat>,
                           segmenting: Fate, marked: bool, modelReady: bool, chunks: nat -> Fate, finishing: Fate,
                           hash: string -> nat, count: string -> nat)

  function Through(s: State, fate: Fate): Fate {
    if s.paused then Stops else fate
  }

  function Bucket(ev: Events, d: Doc): (g: nat)
    ensures g < WORKERS
  {
    ev.hash(d.content) % WORKERS
  }

  /** The documents of bucket g, in order. */
  function InBucket(ev: Events, docs: seq<Doc>, g: nat): seq<Doc> {
    if docs == [] then []
    else
      var before, last := InBucket(ev, docs[..|docs| - 1], g), docs[|docs| - 1];
      if Bucket(ev, last) == g then before + [last] else before
  }

  function TokenSum(ev: Events, docs: seq<Doc>): nat {
    if docs == [] then 0 else TokenSum(ev, docs[..|docs| - 1]) + ev.count(docs[|docs| - 1].content)
  }

  function Ids(docs: seq<Doc>): set<string> {
    set i | 0 <= i < |docs| :: docs[i].id
  }

  /** The segment update of one bucket: only segments being indexed change. */
  function MarkCompleted(segments: seq<Segment>, ids: set<string>): (r: seq<Segment>)
    ensures |r| == |segments|
  {
    seq(|segments|, i requires 0 <= i < |segments| =>
      if segments[i].nodeId in ids && segments[i].status == SegmentIndexing
      then segments[i].(status := SegmentCompleted) else segments[i])
  }

  /** Segments after the first n buckets have been worked on. */
  function AfterBuckets(s: State, docs: seq<Doc>, ev: Events, n: nat): seq<Segment> {
    if n == 0 then s.segments
    else
      var before, chunk := AfterBuckets(s, docs, ev, n - 1), InBucket(ev, docs, n - 1);
      if chunk != [] && Through(s, ev.chunks(n - 1)) == Proceeds then MarkCompleted(before, Ids(chunk)) else before
  }

  /** The first bucket from g on whose work did not go through decides the outcome. */
  function FirstFailure(s: State, docs: seq<Doc>, ev: Events, g: nat): Fate
    requires g <= WORKERS
    decreases WORKERS - g
  {
    if g == WORKERS then Proceeds
    else if InBucket(ev, docs, g) != [] && Through(s, ev.chunks(g)) != Proceeds then Through(s, ev.chunks(g))
    else FirstFailure(s, docs, ev, g + 1)
  }

  /** The token count of a bucket's future; an empty bucket counts nothing. */
  function FutureOf(s: State, docs: seq<Doc>, ev: Events, g: nat): Option<nat> {
    var chunk := InBucket(ev, docs, g);
    if chunk == [] || Through(s, ev.chunks(g)) == Proceeds then Some(TokenSum(ev, chunk)) else None
  }

  /** What a failed or stopped step leaves: an error status, or a paused document. */
  function Halted(s: State, fate: Fate): State
    requires fate != Proceeds
  {
    if fate == Stops then s.(paused := true) else s.(status := Error)
  }

  function LoadSpec(s: State, docs: seq<Doc>, ev: Events): State {
    if !ev.modelReady then Halted(s, Fails)
    else
      var worked := s.(segments := AfterBuckets(s, docs, ev, WORKERS));
      var failure := FirstFailure(s, docs, ev, 0);
      if failure != Proceeds then Halted(worked, failure)
      else if Through(s, ev.finishing) != Proceeds then Halted(worked, Through(s, ev.finishing))
      else worked.(status := Completed, tokens := TokenSum(ev, docs))
  }

  /** One document of add_documents: a known node id is overwritten, a new one appended. */
  function AddOne(segments: seq<Segment>, d: Doc): seq<Segment> {
    if segments == [] then [Segment(d.id, d.content, SegmentWaiting)]
    else if segments[0].nodeId == d.id then [segments[0].(content := d.content)] + segments[1..]
    else [segments[0]] + AddOne(segments[1..], d)
  }

  function AddAll(segments: seq<Segment>, docs: seq<Doc>): seq<Segment> {
    if docs == [] then segments else AddOne(AddAll(segments, docs[..|docs| - 1]), docs[|docs| - 1])
  }

  function AllIndexing(segments: seq<Segment>): (r: seq<Segment>)
    ensures |r| == |segments|
  {
    seq(|segments|, i requires 0 <= i < |segments| => segments[i].(status := SegmentIndexing))
  }

  /** Add the segments, switch the document, switch every segment of the document. */
  function LoadSegmentsSpec(s: State, docs: seq<Doc>, ev: Events): (State, Fate) {
    if ev.addFailsAfter.Some? && ev.addFailsAfter.value < |docs| then
      (s.(segments := AddAll(s.segments, docs[..ev.addFailsAfter.value])), Fails)
    else
      var added := s.(segments := AddAll(s.segments, docs));
      if Through(s, ev.segmenting) != Proceeds then (added, Through(s, ev.segmenting))
      else
        var switched := added.(status := Indexing);
        if !ev.marked then (switched, Fails)
        else (switched.(segments := AllIndexing(added.segments)), Proceeds)
  }

  function RunSpec(s: State, ev: Events): State {
    if Through(s, ev.extracting) != Proceeds then Halted(s, Through(s, ev.extracting))
    else
      var split := s.(status := Splitting);
      if ev.transformed == None then Halted(split, Fails)
      else
        var (loaded, fate) := LoadSegmentsSpec(split, ev.transformed.value, ev);
        if fate != Proceeds then Halted(loaded, fate) else LoadSpec(loaded, ev.transformed.value, ev)
  }

  function RunInSplittingSpec(s: State, ev: Events): State {
    RunSpec(s.(segments := []), ev)
  }

  function Unfinished(segments: seq<Segment>): seq<Doc> {
    if segments == [] then []
    else
      var before, last := Unfinished(segments[..|segments| - 1]), segments[|segments| - 1];
      if last.status != SegmentCompleted then before + [Doc(last.nodeId, last.content)] else before
  }

  function RunInIndexingSpec(s: State, ev: Events): State {
    LoadSpec(s, Unfinished(s.segments), ev)
  }

  // --- The worker, step by step ---------------------------------------------

  /** The bucket lists, filled document by document. */
  method Distribute(docs: seq<Doc>, ev: Events) returns (groups: seq<seq<Doc>>)
    ensures |groups| == WORKERS
    ensures forall g :: 0 <= g < WORKERS ==> groups[g] == InBucket(ev, docs, g)
  {
    groups := seq(WORKERS, _ => []);
    for i := 0 to |docs|
      invariant |groups| == WORKERS
      invariant forall g :: 0 <= g < WORKERS ==> groups[g] == InBucket(ev, docs[..i], g)
    {
      var g := Bucket(ev, docs[i]);
      assert docs[..i + 1][..i] == docs[..i];
      groups := groups[g := groups[g] + [docs[i]]];
    }
    assert docs[..|docs|] == docs;
  }

  /** The tokens, and the documents, of the first n groups. */
  function Total(ev: Events, groups: seq<seq<Doc>>, n: nat): nat
    requires n <= |groups|
  {
    if n == 0 then 0 else Total(ev, groups, n - 1) + TokenSum(ev, groups[n - 1])
  }

  function Union(groups: seq<seq<Doc>>, n: nat): multiset<Doc>
    requires n <= |groups|
  {
    if n == 0 then multiset{} else Union(groups, n - 1) + multiset(groups[n - 1])
  }

  lemma {:induction false} EmptyGroups(ev: Events, groups: seq<seq<Doc>>, n: nat)
    requires n <= |groups| && forall g :: 0 <= g < |groups| ==> groups[g] == []
    ensures Total(ev, groups, n) == 0 && Union(groups, n) == multiset{}
  {
    if n == 0 {
    } else {
      EmptyGroups(ev, groups, n - 1);
    }
  }

  lemma BucketsAppend(ev: Events, init: seq<Doc>, d: Doc, before: seq<seq<Doc>>, groups: seq<seq<Doc>>)
    requires |before| == |groups| == WORKERS
    requires forall g :: 0 <= g < WORKERS ==> before[g] == InBucket(ev, init, g)
    requires forall g :: 0 <= g < WORKERS ==> groups[g] == InBucket(ev, init + [d], g)
    ensures groups == before[Bucket(ev, d) := before[Bucket(ev, d)] + [d]]
  {
    assert (init + [d])[..|init|] == init;
  }

  lemma TokenSumAppend(ev: Events, docs: seq<Doc>, d: Doc)
    ensures TokenSum(ev, docs + [d]) == TokenSum(ev, docs) + ev.count(d.content)
  {
    assert (docs + [d])[..|docs|] == docs;
  }

  /** One more document in one group adds its tokens and itself. */
  lemma {:induction false} TotalGrows(ev: Events, groups: seq<seq<Doc>>, g: nat, d: Doc, more: seq<seq<Doc>>, n: nat)
    requires g < |groups| && more == groups[g := groups[g] + [d]] && n <= |groups|
    ensures Total(ev, more, n) == Total(ev, groups, n) + if g < n then ev.count(d.content) else 0
  {
    if n == 0 {
    } else {
      TotalGrows(ev, groups, g, d, more, n - 1);
      if g == n - 1 {
        TokenSumAppend(ev, groups[g], d);
      }
    }
  }

  lemma {:induction false} UnionCounts(groups: seq<seq<Doc>>, g: nat, d: Doc, more: seq<seq<Doc>>, n: nat, x: Doc)
    requires g < |groups| && more == groups[g := groups[g] + [d]] && n <= |groups|
    ensures Union(more, n)[x] == Union(groups, n)[x] + if g < n && x == d then 1 else 0
  {
    if n == 0 {
    } else {
      UnionCounts(groups, g, d, more, n - 1, x);
      assert g == n - 1 ==> multiset(more[n - 1]) == multiset(groups[n - 1]) + multiset{d};
    }
  }

  lemma UnionGrows(groups: seq<seq<Doc>>, g: nat, d: Doc, more: seq<seq<Doc>>, n: nat)
    requires g < n <= |groups| && more == groups[g := groups[g] + [d]]
    ensures Union(more, n) == Union(groups, n) + multiset{d}
  {
    forall x ensures Union(more, n)[x] == (Union(groups, n) + multiset{d})[x] {
      UnionCounts(groups, g, d, more, n, x);
    }
  }

  /** Every document is in exactly one bucket, and the totals add up. */
  lemma {:induction false} BucketsPartition(ev: Events, docs: seq<Doc>, groups: seq<seq<Doc>>)
    requires |groups| == WORKERS && forall g :: 0 <= g < WORKERS ==> groups[g] == InBucket(ev, docs, g)
    ensures Union(groups, WORKERS) == multiset(docs)
    ensures Total(ev, groups, WORKERS) == TokenSum(ev, docs)
  {
    if docs == [] {
      EmptyGroups(ev, groups, WORKERS);
    } else {
      var init, last := docs[..|docs| - 1], docs[|docs| - 1];
      assert docs == init + [last];
      var before := seq(WORKERS, g requires 0 <= g < WORKERS => InBucket(ev, init, g));
      BucketsAppend(ev, init, last, before, groups);
      BucketsPartition(ev, init, before);
      TotalGrows(ev, before, Bucket(ev, last), last, groups, WORKERS);
      UnionGrows(before, Bucket(ev, last), last, groups, WORKERS);
    }
  }

  class DocumentRow {
    var status: Status
    var paused: bool
    var segments: seq<Segment>
    var tokens: nat

    ghost function Now(): State
      reads this
    {
      State(status, paused, segments, tokens)
    }

    method Halt(fate: Fate)
      requires fate != Proceeds
      modifies this
      ensures Now() == Halted(old(Now()), fate)
    {
      if fate == Stops {
        paused := true;
      } else {
        status := Error;
      }
    }

    method ProcessChunk(chunk: seq<Doc>, fate: Fate, count: string -> nat, ghost ev: Events) returns (r: Option<nat>)
      requires ev.count == count
      modifies this`segments
      ensures r == if fate == Proceeds then Some(TokenSum(ev, chunk)) else None
      ensures segments == if fate == Proceeds then MarkCompleted(old(segments), Ids(chunk)) else old(segments)
    {
      if fate != Proceeds {
        return None;
      }
      var total := 0;
      for i := 0 to |chunk|
        invariant total == TokenSum(ev, chunk[..i])
      {
        assert chunk[..i + 1][..i] == chunk[..i];
        total := total + count(chunk[i].content);
      }
      assert chunk[..|chunk|] == chunk;
      segments := MarkCompleted(segments, Ids(chunk));
      return Some(total);
    }

    /** The executor: one future per bucket, all of them finished on return. */
    method SubmitChunks(groups: seq<seq<Doc>>, ghost docs: seq<Doc>, ev: Events) returns (futures: seq<Option<nat>>)
      requires |groups| == WORKERS && forall g :: 0 <= g < WORKERS ==> groups[g] == InBucket(ev, docs, g)
      modifies this`segments
      ensures segments == AfterBuckets(old(Now()), docs, ev, WORKERS)
      ensures |futures| == WORKERS
      ensures forall g :: 0 <= g < WORKERS ==> futures[g] == FutureOf(old(Now()), docs, ev, g)
    {
      ghost var s0 := Now();
      futures := [];
      for g := 0 to WORKERS
        invariant |futures| == g && segments == AfterBuckets(s0, docs, ev, g) && paused == s0.paused
        invariant forall h :: 0 <= h < g ==> futures[h] == FutureOf(s0, docs, ev, h)
      {
        var future := Some(0);
        if groups[g] != [] {
          future := ProcessChunk(groups[g], if paused then Stops else ev.chunks(g), ev.count, ev);
        }
        futures := futures + [future];
      }
    }

    method Load(docs: seq<Doc>, ev: Events)
      modifies this
      ensures Now() == LoadSpec(old(Now()), docs, ev)
    {
      if !ev.modelReady {
        Halt(Fails);
        return;
      }
      ghost var s0 := Now();
      var groups := Distribute(docs, ev);
      var futures := SubmitChunks(groups, docs, ev);
      var total, next := 0, 0;
      while next < WORKERS && futures[next].Some?
        invariant next <= WORKERS && total == Total(ev, groups, next)
        invariant FirstFailure(s0, docs, ev, 0) == FirstFailure(s0, docs, ev, next)
      {
        total := total + futures[next].value;
        next := next + 1;
      }
      if next < WORKERS {
        Halt(if paused then Stops else ev.chunks(next));
        return;
      }
      BucketsPartition(ev, docs, groups);
      if paused || ev.finishing != Proceeds {
        Halt(if paused then Stops else ev.finishing);
        return;
      }
      status, tokens := Completed, total;
    }

    method LoadSegments(docs: seq<Doc>, ev: Events) returns (fate: Fate)
      modifies this
      ensures (Now(), fate) == LoadSegmentsSpec(old(Now()), docs, ev)
    {
      ghost var segments0 := segments;
      var n := if ev.addFailsAfter.Some? && ev.addFailsAfter.value < |docs| then ev.addFailsAfter.value else |docs|;
      for i := 0 to n
        invariant Now() == old(Now()).(segments := AddAll(segments0, docs[..i]))
      {
        assert docs[..i + 1][..i] == docs[..i];
        segments := AddOne(segments, docs[i]);
      }
      assert docs[..|docs|] == docs;
      if n < |docs| {
        return Fails;
      }
      if paused || ev.segmenting != Proceeds {
        return if paused then Stops else ev.segmenting;
      }
      status := Indexing;
      if !ev.marked {
        return Fails;
      }
      segments := AllIndexing(segments);
      return Proceeds;
    }

    method Run(ev: Events)
      modifies this
      ensures Now() == RunSpec(old(Now()), ev)
    {
      if paused || ev.extracting != Proceeds {
        Halt(if paused then Stops else ev.extracting);
        return;
      }
      status := Splitting;
      if ev.transformed == None {
        Halt(Fails);
        return;
      }
      var fate := LoadSegments(ev.transformed.value, ev);
      if fate != Proceeds {
        Halt(fate);
        return;
      }
      Load(ev.transformed.value, ev);
    }

    method RunInSplittingStatus(ev: Events)
      modifies this
      ensures Now() == RunInSplittingSpec(old(Now()), ev)
    {
      segments := [];
      Run(ev);
    }

    method RunInIndexingStatus(ev: Events)
      modifies this
      ensures Now() == RunInIndexingSpec(old(Now()), ev)
    {
      var docs := [];
      for i := 0 to |segments|
        invariant docs == Unfinished(segments[..i]) && Now() == old(Now())
      {
        assert segments[..i + 1][..i] == segments[..i];
        if segments[i].status != SegmentCompleted {
          docs := docs + [Doc(segments[i].nodeId, segments[i].content)];
        }
      }
      assert segments[..|segments|] == segments;
      Load(docs, ev);
    }
  }

  // --- Buckets partition the documents --------------------------------------

  lemma IdsAppend(a: seq<Doc>, b: seq<Doc>)
    ensures Ids(a + b) == Ids(a) + Ids(b)
  {
    forall id ensures id in Ids(a + b) <==> id in Ids(a) + Ids(b) {
      if id in Ids(a) {
        var i :| 0 <= i < |a| && a[i].id == id;
        assert (a + b)[i].id == id;
      }
      if id in Ids(b) {
        var i :| 0 <= i < |b| && b[i].id == id;
        assert (a + b)[|a| + i].id == id;
      }
    }
  }

  lemma {:induction false} BucketMembers(ev: Events, docs: seq<Doc>, g: nat)
    ensures forall id :: id in Ids(InBucket(ev, docs, g)) <==>
              exists i :: 0 <= i < |docs| && docs[i].id == id && Bucket(ev, docs[i]) == g
  {
    if docs == [] {
    } else {
      var init, last := docs[..|docs| - 1], docs[|docs| - 1];
      BucketMembers(ev, init, g);
      assert docs == init + [last];
      IdsAppend(InBucket(ev, init, g), [last]);
      forall id | id in Ids(InBucket(ev, docs, g))
        ensures exists i :: 0 <= i < |docs| && docs[i].id == id && Bucket(ev, docs[i]) == g
      {
        if id in Ids(InBucket(ev, init, g)) {
          var i :| 0 <= i < |init| && init[i].id == id && Bucket(ev, init[i]) == g;
          assert docs[i].id == id && Bucket(ev, docs[i]) == g;
        } else {
          assert docs[|init|].id == id;
        }
      }
      forall i | 0 <= i < |docs| && Bucket(ev, docs[i]) == g ensures docs[i].id in Ids(InBucket(ev, docs, g)) {
        if i < |init| { assert init[i].id in Ids(InBucket(ev, init, g)); }
      }
    }
  }

  // --- When a completed document is complete --------------------------------

  ghost predicate AllCompleted(segments: seq<Segment>) {
    forall i :: 0 <= i < |segments| ==> segments[i].status == SegmentCompleted
  }

  /** Already completed, or being indexed and among the documents given. */
  predicate Reachable(segment: Segment, ids: set<string>) {
    segment.status == SegmentCompleted || (segment.status == SegmentIndexing && segment.nodeId in ids)
  }

  lemma {:induction false} NoFailure(s: State, docs: seq<Doc>, ev: Events, g: nat)
    requires g <= WORKERS && FirstFailure(s, docs, ev, g) == Proceeds
    ensures forall h :: g <= h < WORKERS && InBucket(ev, docs, h) != [] ==> Through(s, ev.chunks(h)) == Proceeds
    decreases WORKERS - g
  {
    if g == WORKERS {
    } else {
      NoFailure(s, docs, ev, g + 1);
    }
  }

  ghost predicate InFirst(ev: Events, docs: seq<Doc>, id: string, n: nat) {
    exists g :: 0 <= g < n && id in Ids(InBucket(ev, docs, g))
  }

  /** If no bucket fails, a segment's status after n buckets depends on those buckets only. */
  lemma {:induction false} SegmentAfter(s: State, docs: seq<Doc>, ev: Events, n: nat, i: nat)
    requires n <= WORKERS && i < |s.segments| && FirstFailure(s, docs, ev, 0) == Proceeds
    ensures |AfterBuckets(s, docs, ev, n)| == |s.segments|
    ensures var before, after := s.segments[i], AfterBuckets(s, docs, ev, n)[i];
            after == if before.status == SegmentIndexing && InFirst(ev, docs, before.nodeId, n)
                     then before.(status := SegmentCompleted) else before
  {
    if n == 0 {
    } else {
      SegmentAfter(s, docs, ev, n - 1, i);
      NoFailure(s, docs, ev, 0);
      var id, chunk := s.segments[i].nodeId, InBucket(ev, docs, n - 1);
      if InFirst(ev, docs, id, n) && !InFirst(ev, docs, id, n - 1) {
        var g :| 0 <= g < n && id in Ids(InBucket(ev, docs, g));
        assert g == n - 1;
      }
    }
  }

  lemma InSomeBucket(ev: Events, docs: seq<Doc>, id: string)
    ensures InFirst(ev, docs, id, WORKERS) <==> id in Ids(docs)
  {
    if id in Ids(docs) {
      var i :| 0 <= i < |docs| && docs[i].id == id;
      BucketMembers(ev, docs, Bucket(ev, docs[i]));
      assert id in Ids(InBucket(ev, docs, Bucket(ev, docs[i])));
    }
    if InFirst(ev, docs, id, WORKERS) {
      var g :| 0 <= g < WORKERS && id in Ids(InBucket(ev, docs, g));
      BucketMembers(ev, docs, g);
      var i :| 0 <= i < |docs| && docs[i].id == id && Bucket(ev, docs[i]) == g;
      assert docs[i].id in Ids(docs);
    }
  }

  lemma {:induction false} NothingAfter(s: State, docs: seq<Doc>, ev: Events, n: nat)
    ensures |AfterBuckets(s, docs, ev, n)| == |s.segments|
  {
    if n == 0 {
    } else {
      NothingAfter(s, docs, ev, n - 1);
    }
  }

  /** A load that ends in "completed" has completed every segment exactly when each was
      completed before, or was being indexed and its document was given. */
  lemma LoadCompletesAll(s: State, docs: seq<Doc>, ev: Events)
    requires s.status != Completed && LoadSpec(s, docs, ev).status == Completed
    ensures AllCompleted(LoadSpec(s, docs, ev).segments) <==>
            forall i :: 0 <= i < |s.segments| ==> Reachable(s.segments[i], Ids(docs))
    ensures LoadSpec(s, docs, ev).tokens == TokenSum(ev, docs)
  {
    var after := LoadSpec(s, docs, ev).segments;
    if s.segments != [] { SegmentAfter(s, docs, ev, WORKERS, 0); }
    forall i | 0 <= i < |s.segments|
      ensures |after| == |s.segments| && (after[i].status == SegmentCompleted <==> Reachable(s.segments[i], Ids(docs)))
    {
      SegmentAfter(s, docs, ev, WORKERS, i);
      InSomeBucket(ev, docs, s.segments[i].nodeId);
    }
    if s.segments == [] { NothingAfter(s, docs, ev, WORKERS); }
  }

  // --- Every run ------------------------------------------------------------

  predicate Fresh(status: Status) {
    status in {Waiting, Parsing, Cleaning}
  }

  ghost predicate NoneWaiting(segments: seq<Segment>) {
    forall i :: 0 <= i < |segments| ==> segments[i].status != SegmentWaiting
  }

  /** What a row keeps, as long as fresh documents have no segments. */
  ghost predicate Inv(s: State) {
    && (s.status == Completed ==> AllCompleted(s.segments))
    && (s.status == Indexing ==> NoneWaiting(s.segments))
  }

  /** A document's row and the tasks queued for it: the first run, and the resumes and retries
      asked for. */
  datatype Life = Life(row: State, startQueued: bool, recovers: nat, retries: nat)

  /** What the services and the task queue do to a document, one after another. A resume and a
      retry are asked for first and done by a task later, which goes by the status that it finds;
      the retry task may fail before it deletes the segments. */
  datatype Op =
    | Start(ev: Events) | Pause
    | AskRecover | Recover(ev: Events)
    | AskRetry | Retry(cleaning: Fate, ev: Events)

  predicate Allowed(l: Life, op: Op) {
    match op
    case Start(_) => l.startQueued
    case Pause => l.row.status !in {Completed, Error}
    case AskRecover => l.row.paused
    case Recover(_) => l.recovers > 0
    case AskRetry => l.row.status != Completed
    case Retry(_, _) => l.retries > 0
  }

  /** What the resume task makes of the row it finds. */
  function Resumed(s: State, ev: Events): State {
    if Fresh(s.status) then RunSpec(s, ev)
    else if s.status == Splitting then RunInSplittingSpec(s, ev)
    else if s.status == Indexing then RunInIndexingSpec(s, ev)
    else s
  }

  /** The retry task takes a pause for an error; the other tasks leave the status alone. */
  function PauseIsError(s: State): State {
    if s.status in {Completed, Error} then s else s.(status := Error)
  }

  function Do(l: Life, op: Op): Life
    requires Allowed(l, op)
  {
    var s := l.row;
    match op
    case Start(ev) => l.(row := RunSpec(s.(status := Parsing), ev), startQueued := false)
    case Pause => l.(row := s.(paused := true))
    case AskRecover => l.(row := s.(paused := false), recovers := l.recovers + 1)
    case Recover(ev) => l.(row := Resumed(s, ev), recovers := l.recovers - 1)
    case AskRetry => l.(row := s.(status := Waiting), retries := l.retries + 1)
    case Retry(cleaning, ev) =>
      l.(row :=
        if cleaning != Proceeds then s.(status := Error)
        else PauseIsError(RunSpec(s.(status := Parsing, segments := []), ev)),
        retries := l.retries - 1)
  }

  /** What keeps a document safe: no other task overtakes its first run, and no resume task
      overtakes a retry task that has been asked for. */
  predicate Orderly(l: Life, op: Op) {
    && (l.startQueued ==> !op.Recover? && !op.Retry?)
    && (op.Recover? && Fresh(l.row.status) ==> l.retries == 0)
  }

  ghost predicate LifeInv(l: Life) {
    && Inv(l.row)
    && (Fresh(l.row.status) && l.retries == 0 ==> l.row.segments == [])
    && (l.startQueued ==> l.row.segments == [])
  }

  lemma {:induction false} UnfinishedIds(segments: seq<Segment>)
    ensures forall i :: 0 <= i < |segments| && segments[i].status != SegmentCompleted ==>
              segments[i].nodeId in Ids(Unfinished(segments))
  {
    if segments == [] {
    } else {
      var init, last := segments[..|segments| - 1], segments[|segments| - 1];
      UnfinishedIds(init);
      var d := Doc(last.nodeId, last.content);
      IdsAppend(Unfinished(init), [d]);
      assert [d][0].id in Ids([d]);
    }
  }

  function NodeIds(segments: seq<Segment>): set<string> {
    set i | 0 <= i < |segments| :: segments[i].nodeId
  }

  lemma NodeIdsCons(x: Segment, xs: seq<Segment>)
    ensures NodeIds([x] + xs) == {x.nodeId} + NodeIds(xs)
  {
    assert ([x] + xs)[0] == x;
    forall i | 0 <= i < |xs| ensures xs[i].nodeId in NodeIds([x] + xs) {
      assert ([x] + xs)[i + 1] == xs[i];
    }
  }

  lemma {:induction false} AddOneIds(segments: seq<Segment>, d: Doc)
    ensures NodeIds(AddOne(segments, d)) == NodeIds(segments) + {d.id}
  {
    if segments == [] {
      assert AddOne(segments, d)[0].nodeId == d.id;
    } else {
      NodeIdsCons(segments[0], segments[1..]);
      if segments[0].nodeId == d.id {
        NodeIdsCons(segments[0].(content := d.content), segments[1..]);
      } else {
        AddOneIds(segments[1..], d);
        NodeIdsCons(segments[0], AddOne(segments[1..], d));
      }
      assert segments == [segments[0]] + segments[1..];
    }
  }

  /** Adding documents leaves segments of the old and of the given node ids. */
  lemma {:induction false} AddAllIds(segments: seq<Segment>, docs: seq<Doc>)
    ensures NodeIds(AddAll(segments, docs)) == NodeIds(segments) + Ids(docs)
  {
    if docs == [] {
      assert Ids(docs) == {};
    } else {
      var init, last := docs[..|docs| - 1], docs[|docs| - 1];
      AddAllIds(segments, init);
      AddOneIds(AddAll(segments, init), last);
      assert docs == init + [last];
      IdsAppend(init, [last]);
      assert Ids([last]) == {last.id} by { assert [last][0].id in Ids([last]); }
    }
  }

  lemma AllReachable(segments: seq<Segment>, ids: set<string>)
    ensures var switched := AllIndexing(segments);
            && NoneWaiting(switched)
            && ((forall i :: 0 <= i < |switched| ==> Reachable(switched[i], ids)) <==> NodeIds(segments) <= ids)
  {
    var switched := AllIndexing(segments);
    if NodeIds(segments) <= ids {
      forall i | 0 <= i < |switched| ensures Reachable(switched[i], ids) {
        assert segments[i].nodeId in NodeIds(segments);
      }
    }
    if forall i :: 0 <= i < |switched| ==> Reachable(switched[i], ids) {
      forall id | id in NodeIds(segments) ensures id in ids {
        var i :| 0 <= i < |segments| && segments[i].nodeId == id;
        assert Reachable(switched[i], ids);
      }
    }
  }

  /** A whole run that ends in "completed" completes everything exactly when the document had
      no old segment outside the new documents: old segments are switched back to indexing. */
  lemma RunCompletesUnlessOldSegments(s: State, ev: Events)
    requires s.status != Completed && RunSpec(s, ev).status == Completed
    ensures ev.transformed.Some?
    ensures AllCompleted(RunSpec(s, ev).segments) <==> NodeIds(s.segments) <= Ids(ev.transformed.value)
  {
    var docs := ev.transformed.value;
    var loaded := LoadSegmentsSpec(s.(status := Splitting), docs, ev).0;
    AddAllIds(s.segments, docs);
    AllReachable(AddAll(s.segments, docs), Ids(docs));
    LoadCompletesAll(loaded, docs, ev);
  }

  lemma {:induction false} MarkedStaysIndexing(s: State, docs: seq<Doc>, ev: Events, n: nat)
    requires NoneWaiting(s.segments)
    ensures NoneWaiting(AfterBuckets(s, docs, ev, n))
  {
    if n == 0 {
    } else {
      MarkedStaysIndexing(s, docs, ev, n - 1);
    }
  }

  lemma LoadKeepsInv(s: State, docs: seq<Doc>, ev: Events)
    requires s.status == Indexing && NoneWaiting(s.segments)
    requires forall i :: 0 <= i < |s.segments| ==> Reachable(s.segments[i], Ids(docs))
    ensures Inv(LoadSpec(s, docs, ev))
  {
    MarkedStaysIndexing(s, docs, ev, WORKERS);
    if LoadSpec(s, docs, ev).status == Completed {
      LoadCompletesAll(s, docs, ev);
    }
  }

  lemma RunKeepsInv(s: State, ev: Events)
    requires s.segments == [] && (Fresh(s.status) || s.status == Splitting)
    ensures Inv(RunSpec(s, ev))
  {
    if Through(s, ev.extracting) == Proceeds && ev.transformed.Some? {
      var docs := ev.transformed.value;
      var (loaded, fate) := LoadSegmentsSpec(s.(status := Splitting), docs, ev);
      if fate == Proceeds {
        AddAllIds([], docs);
        AllReachable(AddAll([], docs), Ids(docs));
        LoadKeepsInv(loaded, docs, ev);
      }
    }
  }

  /** A row outside the fresh states, or without segments: what a run leaves. */
  lemma RunLeavesNoFreshSegments(s: State, ev: Events)
    requires s.segments == []
    ensures Fresh(RunSpec(s, ev).status) ==> RunSpec(s, ev).segments == []
  {
  }

  lemma LoadEnds(s: State, docs: seq<Doc>, ev: Events)
    ensures LoadSpec(s, docs, ev).status in {s.status, Completed, Error}
  {
  }

  lemma OpKeepsInv(l: Life, op: Op)
    requires LifeInv(l) && Allowed(l, op) && Orderly(l, op)
    ensures LifeInv(Do(l, op))
  {
    var s := l.row;
    match op
    case Start(ev) =>
      RunKeepsInv(s.(status := Parsing), ev);
      RunLeavesNoFreshSegments(s.(status := Parsing), ev);
    case Pause =>
    case AskRecover =>
    case AskRetry =>
    case Retry(cleaning, ev) =>
      RunKeepsInv(s.(status := Parsing, segments := []), ev);
    case Recover(ev) =>
      if Fresh(s.status) {
        RunKeepsInv(s, ev);
        RunLeavesNoFreshSegments(s, ev);
      } else if s.status == Splitting {
        RunKeepsInv(s.(segments := []), ev);
        RunLeavesNoFreshSegments(s.(segments := []), ev);
      } else if s.status == Indexing {
        UnfinishedIds(s.segments);
        LoadKeepsInv(s, Unfinished(s.segments), ev);
        LoadEnds(s, Unfinished(s.segments), ev);
      }
  }

  ghost predicate Ran(l: Life, ops: seq<Op>, end: Life)
    decreases |ops|
  {
    if ops == [] then l == end else Allowed(l, ops[0]) && Ran(Do(l, ops[0]), ops[1..], end)
  }

  ghost predicate OrderlyRun(l: Life, ops: seq<Op>)
    decreases |ops|
  {
    ops == [] || (Allowed(l, ops[0]) && Orderly(l, ops[0]) && OrderlyRun(Do(l, ops[0]), ops[1..]))
  }

  lemma {:induction false} RanKeepsInv(l: Life, ops: seq<Op>, end: Life)
    requires LifeInv(l) && Ran(l, ops, end) && OrderlyRun(l, ops)
    ensures LifeInv(end)
    decreases |ops|
  {
    if ops == [] {
    } else {
      OpKeepsInv(l, ops[0]);
      RanKeepsInv(Do(l, ops[0]), ops[1..], end);
    }
  }

  const NEW_DOCUMENT := Life(State(Waiting, false, [], 0), true, 0, 0)

  /** However often a new document is paused, resumed, failed and retried, from whatever status:
      in an orderly run, when it is marked completed, every one of its segments is completed. */
  lemma CompletedMeansComplete(ops: seq<Op>, end: Life)
    requires Ran(NEW_DOCUMENT, ops, end) && OrderlyRun(NEW_DOCUMENT, ops)
    ensures end.row.status == Completed ==> AllCompleted(end.row.segments)
  {
    RanKeepsInv(NEW_DOCUMENT, ops, end);
  }

  // --- What the order is for --------------------------------------------------

  /** A run in which everything goes through, and the document splits into the given pieces. */
  function Smooth(pieces: seq<Doc>): Events {
    Events(Proceeds, Some(pieces), None, Proceeds, true, true, _ => Proceeds, Proceeds, _ => 0, _ => 0)
  }

  lemma {:induction false} SmoothCompletes(s: State, docs: seq<Doc>, pieces: seq<Doc>, g: nat)
    requires !s.paused && g <= WORKERS
    ensures FirstFailure(s, docs, Smooth(pieces), g) == Proceeds
    decreases WORKERS - g
  {
    if g == WORKERS {
    } else {
      SmoothCompletes(s, docs, pieces, g + 1);
    }
  }

  /** A run in which everything goes through misses the old segments outside the new pieces. */
  lemma SmoothRunMisses(s: State, pieces: seq<Doc>)
    requires s.status != Completed && !s.paused && !(NodeIds(s.segments) <= Ids(pieces))
    ensures RunSpec(s, Smooth(pieces)).status == Completed && !AllCompleted(RunSpec(s, Smooth(pieces)).segments)
  {
    var loaded := LoadSegmentsSpec(s.(status := Splitting), pieces, Smooth(pieces)).0;
    SmoothCompletes(loaded, pieces, pieces, 0);
    RunCompletesUnlessOldSegments(s, Smooth(pieces));
  }

  function Longest(segments: seq<Segment>): (n: nat)
    ensures forall i :: 0 <= i < |segments| ==> |segments[i].nodeId| <= n
  {
    if segments == [] then 0
    else
      var before, last := Longest(segments[..|segments| - 1]), |segments[|segments| - 1].nodeId|;
      if before < last then last else before
  }

  /** A whole run is safe in every event exactly when the document has no segments to begin with:
      otherwise one new piece, with a node id of its own, is enough. */
  lemma RunIsSafeIffNoSegments(s: State)
    requires s.status != Completed && !s.paused
    ensures s.segments == [] <==>
            forall ev: Events :: RunSpec(s, ev).status == Completed ==> AllCompleted(RunSpec(s, ev).segments)
  {
    if s.segments == [] {
      forall ev: Events | RunSpec(s, ev).status == Completed ensures AllCompleted(RunSpec(s, ev).segments) {
        RunCompletesUnlessOldSegments(s, ev);
      }
    } else {
      var piece := Doc(seq(Longest(s.segments) + 1, _ => 'x'), "");
      assert s.segments[0].nodeId in NodeIds(s.segments) && s.segments[0].nodeId !in Ids([piece]);
      SmoothRunMisses(s, [piece]);
    }
  }

  /** A resume on its own completes everything exactly when no segment still waits, that is,
      when the two commits of loading the segments were not torn apart. */
  lemma ResumeIsCompleteUnlessTorn(s: State, ev: Events)
    requires s.status == Indexing && RunInIndexingSpec(s, ev).status == Completed
    ensures AllCompleted(RunInIndexingSpec(s, ev).segments) <==> NoneWaiting(s.segments)
  {
    LoadCompletesAll(s, Unfinished(s.segments), ev);
    UnfinishedIds(s.segments);
  }

  /** What the resume task needs of the row that it finds. */
  ghost predicate SafeToResume(s: State) {
    && (Fresh(s.status) ==> s.paused || s.segments == [])
    && (s.status == Indexing ==> s.paused || NoneWaiting(s.segments))
    && (s.status == Completed ==> AllCompleted(s.segments))
  }

  /** The resume task is safe in every event exactly then. */
  lemma ResumeIsSafeExactly(s: State)
    ensures SafeToResume(s) <==>
            forall ev: Events :: Resumed(s, ev).status == Completed ==> AllCompleted(Resumed(s, ev).segments)
  {
    var ev0 := Smooth([]);
    if Fresh(s.status) && !s.paused {
      RunIsSafeIffNoSegments(s);
      assert forall ev: Events :: Resumed(s, ev) == RunSpec(s, ev);
    } else if s.status == Splitting {
      forall ev: Events | Resumed(s, ev).status == Completed ensures AllCompleted(Resumed(s, ev).segments) {
        RunCompletesUnlessOldSegments(s.(segments := []), ev);
      }
    } else if s.status == Indexing && !s.paused {
      forall ev: Events | Resumed(s, ev).status == Completed
        ensures AllCompleted(Resumed(s, ev).segments) <==> NoneWaiting(s.segments)
      {
        ResumeIsCompleteUnlessTorn(s, ev);
      }
      SmoothCompletes(s, Unfinished(s.segments), [], 0);
      assert Resumed(s, ev0).status == Completed;
    } else {
      assert Resumed(s, ev0).status == Completed ==> Resumed(s, ev0) == s;
    }
  }

  lemma {:induction false} RanOn(l: Life, ops: seq<Op>, end: Life, op: Op)
    requires Ran(l, ops, end) && Allowed(end, op)
    ensures Ran(l, ops + [op], Do(end, op))
    decreases |ops|
  {
    if ops == [] {
    } else {
      RanOn(Do(l, ops[0]), ops[1..], end, op);
      assert (ops + [op])[1..] == ops[1..] + [op];
    }
  }

  lemma Then(ops: seq<Op>, end: Life, op: Op) returns (ops': seq<Op>, end': Life)
    requires Ran(NEW_DOCUMENT, ops, end) && Allowed(end, op)
    ensures ops' == ops + [op] && end' == Do(end, op) && Ran(NEW_DOCUMENT, ops', end')
  {
    ops', end' := ops + [op], Do(end, op);
    RanOn(NEW_DOCUMENT, ops, end, op);
  }

  lemma {:induction false} StoppedMarksNothing(s: State, docs: seq<Doc>, ev: Events, n: nat)
    requires forall g :: ev.chunks(g) == Stops
    ensures AfterBuckets(s, docs, ev, n) == s.segments
  {
    if n == 0 {
    } else {
      StoppedMarksNothing(s, docs, ev, n - 1);
    }
  }

  /** How a run over one piece ends when the model is missing, and when it is paused at work. */
  lemma InterruptedRuns(s: State, d: Doc)
    requires s.segments == [] && !s.paused
    ensures var left := [Segment(d.id, d.content, SegmentIndexing)];
            && RunSpec(s, Smooth([d]).(modelReady := false)) == s.(status := Error, segments := left)
            && RunSpec(s, Smooth([d]).(chunks := _ => Stops)) ==
                 s.(status := Indexing, paused := true, segments := left)
  {
    assert AddAll([], [d]) == [Segment(d.id, d.content, SegmentWaiting)] by {
      assert [d][..0] == [];
    }
    var ev := Smooth([d]).(chunks := _ => Stops);
    var loaded := LoadSegmentsSpec(s.(status := Splitting), [d], ev).0;
    StoppedMarksNothing(loaded, [d], ev, WORKERS);
    assert InBucket(ev, [d], 0) == [d] by {
      assert [d][..0] == [];
    }
  }

  /** The last step of every run below: old segments, and a whole run over a new piece. */
  lemma OldSegmentMissed(s: State, d: Doc, piece: Doc)
    requires s.status != Completed && !s.paused && s.segments == [Segment(d.id, d.content, SegmentIndexing)]
    requires piece.id != d.id
    ensures RunSpec(s, Smooth([piece])).status == Completed && !AllCompleted(RunSpec(s, Smooth([piece])).segments)
  {
    assert s.segments[0].nodeId in NodeIds(s.segments);
    SmoothRunMisses(s, [piece]);
  }

  /** Out of order it happens, in three ways. A first run fails after it has loaded a segment, a
      retry is asked for, and the document is paused and resumed before the retry. */
  lemma ResumeBeforeRetryMisses(d: Doc, piece: Doc) returns (ops: seq<Op>, end: Life)
    requires piece.id != d.id
    ensures Ran(NEW_DOCUMENT, ops, end) && end.row.status == Completed && !AllCompleted(end.row.segments)
  {
    InterruptedRuns(NEW_DOCUMENT.row.(status := Parsing), d);
    ops, end := Then([], NEW_DOCUMENT, Start(Smooth([d]).(modelReady := false)));
    ops, end := Then(ops, end, AskRetry);
    ops, end := Then(ops, end, Pause);
    ops, end := Then(ops, end, AskRecover);
    OldSegmentMissed(end.row, d, piece);
    ops, end := Then(ops, end, Recover(Smooth([piece])));
  }

  /** The document is paused at work and resumed, and the retry is asked for before the resume
      task has started: nobody resumes it after that, and yet the task finds it waiting. */
  lemma RetryBeforeResumeMisses(d: Doc, piece: Doc) returns (ops: seq<Op>, end: Life)
    requires piece.id != d.id
    ensures Ran(NEW_DOCUMENT, ops, end) && end.row.status == Completed && !AllCompleted(end.row.segments)
  {
    InterruptedRuns(NEW_DOCUMENT.row.(status := Parsing), d);
    ops, end := Then([], NEW_DOCUMENT, Start(Smooth([d]).(chunks := _ => Stops)));
    ops, end := Then(ops, end, AskRecover);
    ops, end := Then(ops, end, AskRetry);
    OldSegmentMissed(end.row, d, piece);
    ops, end := Then(ops, end, Recover(Smooth([piece])));
  }

  /** A resume task overtakes the first run, and the first run finds its segments. */
  lemma ResumeBeforeStartMisses(d: Doc, piece: Doc) returns (ops: seq<Op>, end: Life)
    requires piece.id != d.id
    ensures Ran(NEW_DOCUMENT, ops, end) && end.row.status == Completed && !AllCompleted(end.row.segments)
  {
    ops, end := Then([], NEW_DOCUMENT, Pause);
    ops, end := Then(ops, end, AskRecover);
    InterruptedRuns(end.row, d);
    ops, end := Then(ops, end, Recover(Smooth([d]).(modelReady := false)));
    OldSegmentMissed(end.row.(status := Parsing), d, piece);
    ops, end := Then(ops, end, Start(Smooth([piece])));
  }

  // --- How a run ends ---------------------------------------------------------

  /** The first thing that does not go through decides. */
  function FirstObstacle(fates: seq<Fate>): Fate {
    if fates == [] then Proceeds
    else if fates[0] != Proceeds then fates[0]
    else FirstObstacle(fates[1..])
  }

  function FailsUnless(ok: bool): Fate {
    if ok then Proceeds else Fails
  }

  /** The work on each of the ten groups of equal hashes; an empty group is no work. */
  function ChunkFates(ev: Events, docs: seq<Doc>): (r: seq<Fate>)
    ensures |r| == 10
  {
    seq(10, (g: nat) =>
      if exists i :: 0 <= i < |docs| && ev.hash(docs[i].content) % 10 == g then ev.chunks(g) else Proceeds)
  }

  function LoadFates(ev: Events, docs: seq<Doc>): seq<Fate> {
    [FailsUnless(ev.modelReady)] + ChunkFates(ev, docs) + [ev.finishing]
  }

  function RunFates(ev: Events): seq<Fate> {
    match ev.transformed
    case None => [ev.extracting, Fails]
    case Some(docs) =>
      [ev.extracting, FailsUnless(ev.addFailsAfter == None || ev.addFailsAfter.value >= |docs|), ev.segmenting,
       FailsUnless(ev.marked)] + LoadFates(ev, docs)
  }

  /** How a row that was not paused ends: completed, paused where it was, or in an error. */
  predicate EndsAs(before: State, after: State, fate: Fate) {
    match fate
    case Proceeds => after.status == Completed && !after.paused
    case Stops => after.paused && after.status in {before.status, Splitting, Indexing}
    case Fails => after.status == Error && !after.paused
  }

  lemma {:induction false} ObstacleAppend(a: seq<Fate>, b: seq<Fate>)
    ensures FirstObstacle(a + b) == if FirstObstacle(a) != Proceeds then FirstObstacle(a) else FirstObstacle(b)
  {
    if a == [] {
      assert a + b == b;
    } else {
      ObstacleAppend(a[1..], b);
      assert (a + b)[1..] == a[1..] + b;
    }
  }

  lemma {:induction false} EmptyBucket(ev: Events, docs: seq<Doc>, g: nat)
    ensures InBucket(ev, docs, g) != [] <==> exists i :: 0 <= i < |docs| && Bucket(ev, docs[i]) == g
  {
    if docs == [] {
    } else {
      var init, last := docs[..|docs| - 1], docs[|docs| - 1];
      EmptyBucket(ev, init, g);
      if i :| 0 <= i < |init| && Bucket(ev, init[i]) == g {
        assert Bucket(ev, docs[i]) == g;
      }
      if Bucket(ev, last) == g {
        assert Bucket(ev, docs[|docs| - 1]) == g;
      }
    }
  }

  lemma {:induction false} FailureIsObstacle(s: State, docs: seq<Doc>, ev: Events, g: nat)
    requires !s.paused && g <= WORKERS
    ensures FirstFailure(s, docs, ev, g) == FirstObstacle(ChunkFates(ev, docs)[g..])
    decreases WORKERS - g
  {
    var fates := ChunkFates(ev, docs);
    if g == WORKERS {
    } else {
      FailureIsObstacle(s, docs, ev, g + 1);
      EmptyBucket(ev, docs, g);
      assert fates[g..][0] == fates[g] && fates[g..][1..] == fates[g + 1..];
      assert (exists i :: 0 <= i < |docs| && Bucket(ev, docs[i]) == g) <==>
             (exists i :: 0 <= i < |docs| && ev.hash(docs[i].content) % 10 == g) by {
        assert forall i :: 0 <= i < |docs| ==> Bucket(ev, docs[i]) == ev.hash(docs[i].content) % 10;
      }
    }
  }

  lemma LoadEndsExactly(s: State, docs: seq<Doc>, ev: Events)
    requires !s.paused && s.status == Indexing
    ensures EndsAs(s, LoadSpec(s, docs, ev), FirstObstacle(LoadFates(ev, docs)))
  {
    FailureIsObstacle(s, docs, ev, 0);
    assert ChunkFates(ev, docs)[0..] == ChunkFates(ev, docs);
    var ready := [FailsUnless(ev.modelReady)];
    assert ready[1..] == [] && [ev.finishing][1..] == [];
    ObstacleAppend(ready + ChunkFates(ev, docs), [ev.finishing]);
    ObstacleAppend(ready, ChunkFates(ev, docs));
  }

  lemma FourObstacles(a: Fate, b: Fate, c: Fate, d: Fate)
    ensures FirstObstacle([a, b, c, d]) ==
            if a != Proceeds then a else if b != Proceeds then b else if c != Proceeds then c else d
  {
    assert [d][1..] == [] && FirstObstacle([d]) == d;
    assert [c, d][1..] == [d] && FirstObstacle([c, d]) == if c != Proceeds then c else d;
    assert [b, c, d][1..] == [c, d];
    assert [a, b, c, d][1..] == [b, c, d];
  }

  /** A run goes through exactly when everything does; otherwise the first obstacle decides whether
      it ends paused or in an error. A paused document is left alone. */
  lemma RunEndsExactly(s: State, ev: Events)
    requires s.status != Completed
    ensures if s.paused then RunSpec(s, ev) == s else EndsAs(s, RunSpec(s, ev), FirstObstacle(RunFates(ev)))
  {
    if s.paused {
    } else if ev.transformed == None {
      assert [ev.extracting, Fails][1..] == [Fails] && FirstObstacle([Fails]) == Fails;
    } else {
      var docs := ev.transformed.value;
      var added := FailsUnless(ev.addFailsAfter == None || ev.addFailsAfter.value >= |docs|);
      var marked := FailsUnless(ev.marked);
      ObstacleAppend([ev.extracting, added, ev.segmenting, marked], LoadFates(ev, docs));
      FourObstacles(ev.extracting, added, ev.segmenting, marked);
      var (loaded, fate) := LoadSegmentsSpec(s.(status := Splitting), docs, ev);
      if fate == Proceeds {
        LoadEndsExactly(loaded, docs, ev);
      }
    }
  }

  /** So does a resume, from whatever status it finds; it starts over what is still being split, and
      goes on with what is being indexed. */
  lemma ResumeEndsExactly(s: State, ev: Events)
    requires !s.paused
    ensures match s.status
            case Waiting => EndsAs(s, Resumed(s, ev), FirstObstacle(RunFates(ev)))
            case Parsing => EndsAs(s, Resumed(s, ev), FirstObstacle(RunFates(ev)))
            case Cleaning => EndsAs(s, Resumed(s, ev), FirstObstacle(RunFates(ev)))
            case Splitting => EndsAs(s, Resumed(s, ev), FirstObstacle(RunFates(ev)))
            case Indexing => EndsAs(s, Resumed(s, ev), FirstObstacle(LoadFates(ev, Unfinished(s.segments))))
            case Completed => Resumed(s, ev) == s
            case Error => Resumed(s, ev) == s
  {
    if Fresh(s.status) {
      RunEndsExactly(s, ev);
    } else if s.status == Splitting {
      RunEndsExactly(s.(segments := []), ev);
    } else if s.status == Indexing {
      LoadEndsExactly(s, Unfinished(s.segments), ev);
    }
  }

  /** The retry task never leaves a document in between: it completes it exactly if the cleaning and
      the whole run go through, and a document that is paused ends in an error. */
  lemma RetryEndsExactly(l: Life, cleaning: Fate, ev: Events)
    requires l.retries > 0
    ensures Do(l, Retry(cleaning, ev)).row.status ==
            if cleaning == Proceeds && !l.row.paused && FirstObstacle(RunFates(ev)) == Proceeds then Completed
            else Error
  {
    RunEndsExactly(l.row.(status := Parsing, segments := []), ev);
  }

  // --- What a run leaves ------------------------------------------------------

  lemma {:induction false} UnfinishedConcat(a: seq<Segment>, b: seq<Segment>)
    ensures Unfinished(a + b) == Unfinished(a) + Unfinished(b)
  {
    if b == [] {
      assert a + b == a;
    } else {
      var n := |b| - 1;
      UnfinishedConcat(a, b[..n]);
      assert (a + b)[..|a + b| - 1] == a + b[..n];
    }
  }

  lemma UnfinishedOne(x: Segment)
    ensures Unfinished([x]) == if x.status == SegmentCompleted then [] else [Doc(x.nodeId, x.content)]
  {
    assert [x][..0] == [];
  }

  /** What a resume gives to the load: every segment that is not completed, and no other, in its
      place among the rest and with its own node id and text. */
  lemma UnfinishedExactly(before: seq<Segment>, x: Segment, after: seq<Segment>)
    ensures Unfinished(before + [x] + after) ==
            Unfinished(before)
              + (if x.status == SegmentCompleted then [] else [Doc(x.nodeId, x.content)])
              + Unfinished(after)
  {
    UnfinishedConcat(before + [x], after);
    UnfinishedConcat(before, [x]);
    UnfinishedOne(x);
  }

  /** The tokens of the segments that are not completed. */
  function UnfinishedTokens(segments: seq<Segment>, count: string -> nat): nat {
    if segments == [] then 0
    else
      var before, last := UnfinishedTokens(segments[..|segments| - 1], count), segments[|segments| - 1];
      if last.status == SegmentCompleted then before else before + count(last.content)
  }

  lemma {:induction false} TokensOfUnfinished(segments: seq<Segment>, ev: Events)
    ensures TokenSum(ev, Unfinished(segments)) == UnfinishedTokens(segments, ev.count)
  {
    if segments == [] {
    } else {
      var init, last := segments[..|segments| - 1], segments[|segments| - 1];
      TokensOfUnfinished(init, ev);
      TokenSumAppend(ev, Unfinished(init), Doc(last.nodeId, last.content));
    }
  }

  function Finished(segment: Segment): Segment {
    segment.(status := SegmentCompleted)
  }

  lemma LoadFinishes(s: State, docs: seq<Doc>, ev: Events)
    requires s.status != Completed && LoadSpec(s, docs, ev).status == Completed
    requires forall i :: 0 <= i < |s.segments| ==> Reachable(s.segments[i], Ids(docs))
    ensures LoadSpec(s, docs, ev).segments ==
            seq(|s.segments|, i requires 0 <= i < |s.segments| => Finished(s.segments[i]))
  {
    var after := LoadSpec(s, docs, ev).segments;
    NothingAfter(s, docs, ev, WORKERS);
    forall i | 0 <= i < |s.segments| ensures after[i] == Finished(s.segments[i]) {
      assert Reachable(s.segments[i], Ids(docs));
      SegmentAfter(s, docs, ev, WORKERS, i);
      InSomeBucket(ev, docs, s.segments[i].nodeId);
    }
  }

  /** A resume of an indexing document without waiting segments, once completed, has finished every
      segment with its text as it was, and recorded the tokens of those that were left. */
  lemma ResumeFinishes(s: State, ev: Events)
    requires s.status == Indexing && NoneWaiting(s.segments) && Resumed(s, ev).status == Completed
    ensures Resumed(s, ev).segments == seq(|s.segments|, i requires 0 <= i < |s.segments| => Finished(s.segments[i]))
    ensures Resumed(s, ev).tokens == UnfinishedTokens(s.segments, ev.count)
  {
    UnfinishedIds(s.segments);
    LoadFinishes(s, Unfinished(s.segments), ev);
    TokensOfUnfinished(s.segments, ev);
  }

  predicate DistinctIds(docs: seq<Doc>) {
    forall i, j :: 0 <= i < j < |docs| ==> docs[i].id != docs[j].id
  }

  /** One segment for each document, in order. */
  function Pieces(docs: seq<Doc>, status: SegmentStatus): (r: seq<Segment>)
    ensures |r| == |docs|
  {
    seq(|docs|, i requires 0 <= i < |docs| => Segment(docs[i].id, docs[i].content, status))
  }

  lemma {:induction false} AddOneAppends(segments: seq<Segment>, d: Doc)
    requires forall i :: 0 <= i < |segments| ==> segments[i].nodeId != d.id
    ensures AddOne(segments, d) == segments + [Segment(d.id, d.content, SegmentWaiting)]
  {
    if segments == [] {
    } else {
      AddOneAppends(segments[1..], d);
    }
  }

  lemma {:induction false} AddAllMakesPieces(docs: seq<Doc>)
    requires DistinctIds(docs)
    ensures AddAll([], docs) == Pieces(docs, SegmentWaiting)
  {
    if docs == [] {
    } else {
      var init, last := docs[..|docs| - 1], docs[|docs| - 1];
      AddAllMakesPieces(init);
      AddOneAppends(Pieces(init, SegmentWaiting), last);
    }
  }

  /** A known node id is given the new text and keeps its place and status; nothing else changes. */
  lemma {:induction false} AddOneReplaces(segments: seq<Segment>, d: Doc, i: nat)
    requires i < |segments| && segments[i].nodeId == d.id
    requires forall j :: 0 <= j < i ==> segments[j].nodeId != d.id
    ensures AddOne(segments, d) == segments[i := Segment(d.id, d.content, segments[i].status)]
  {
    if i == 0 {
    } else {
      AddOneReplaces(segments[1..], d, i - 1);
      assert segments == [segments[0]] + segments[1..];
    }
  }

  lemma {:induction false} TokensOfDocs(ev: Events, docs: seq<Doc>)
    ensures TokenSum(ev, docs) == UnfinishedTokens(Pieces(docs, SegmentWaiting), ev.count)
  {
    if docs == [] {
    } else {
      var init := docs[..|docs| - 1];
      TokensOfDocs(ev, init);
      assert Pieces(docs, SegmentWaiting)[..|docs| - 1] == Pieces(init, SegmentWaiting);
    }
  }

  /** A run over a document without segments, once completed, has made one completed segment of each
      of its pieces, in order, with the text of the piece, and recorded the tokens of them all. */
  lemma RunLeavesPieces(s: State, ev: Events)
    requires s.segments == [] && s.status != Completed && RunSpec(s, ev).status == Completed
    requires ev.transformed.Some? ==> DistinctIds(ev.transformed.value)
    ensures ev.transformed.Some?
    ensures RunSpec(s, ev).segments == Pieces(ev.transformed.value, SegmentCompleted)
    ensures RunSpec(s, ev).tokens == UnfinishedTokens(Pieces(ev.transformed.value, SegmentWaiting), ev.count)
  {
    var docs := ev.transformed.value;
    var loaded := LoadSegmentsSpec(s.(status := Splitting), docs, ev).0;
    AddAllMakesPieces(docs);
    assert loaded.segments == Pieces(docs, SegmentIndexing);
    forall i | 0 <= i < |docs| ensures Reachable(loaded.segments[i], Ids(docs)) {
      assert docs[i].id in Ids(docs);
    }
    LoadFinishes(loaded, docs, ev);
    LoadCompletesAll(loaded, docs, ev);
    TokensOfDocs(ev, docs);
  }

  /** A run that fails while it adds the segments leaves those added so far, waiting. */
  lemma FailedAddLeaves(s: State, ev: Events, n: nat)
    requires s.segments == [] && !s.paused && ev.extracting == Proceeds
    requires ev.transformed.Some? && DistinctIds(ev.transformed.value)
    requires ev.addFailsAfter == Some(n) && n < |ev.transformed.value|
    ensures RunSpec(s, ev) == s.(status := Error, segments := Pieces(ev.transformed.value[..n], SegmentWaiting))
  {
    AddAllMakesPieces(ev.transformed.value[..n]);
  }

  /** And a resume of a document that was being split is such a run, whatever segments it had. */
  lemma ResumeStartsOver(s: State, ev: Events)
    requires s.status == Splitting && Resumed(s, ev).status == Completed
    requires ev.transformed.Some? ==> DistinctIds(ev.transformed.value)
    ensures ev.transformed.Some?
    ensures Resumed(s, ev).segments == Pieces(ev.transformed.value, SegmentCompleted)
    ensures Resumed(s, ev).tokens == UnfinishedTokens(Pieces(ev.transformed.value, SegmentWaiting), ev.count)
  {
    RunLeavesPieces(s.(segments := []), ev);
  }
}
