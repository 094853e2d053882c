/** The `Downloader` object: the names it derives from the manifest URL, the
    playlist, the per-segment download `_download_ts`, one pass of
    `_download_playlist` over the thread pool, and the passes repeated until
    one of them has no failure.

    The network is replaced by a `Response` per segment and pass, and the
    thread pool by a sequential schedule: the tasks of a pass run in submission
    order (their file writes touch distinct names, so any interleaving leaves
    the same directory), and `as_completed` yields the futures in an arbitrary
    order given as a permutation of the submitted indices. */
module Downloading {
  import opened Text
  import opened Urls
  import opened Naming
  import opened Merging

  /** What `get_response` gave for one segment: a reply with its status code
      and body, or an exception (connection error, timeout, or
      `raise_for_status` on a 4xx/5xx status). */
  datatype Response = Reply(status: int, body: Bytes) | Raised

  /** The task `_download_ts` returns normally, rather than raising, exactly
      when the request returned and its status is 200. */
  predicate Succeeded(r: Response) { r.Reply? && r.status == 200 }

  /** The environment of one pass: the response every segment gets (by
      segment index) and the order in which `as_completed` yields the
      submitted futures (as segment indices). */
  datatype Pass = Pass(responses: seq<Response>, completion: seq<nat>)

  /** What a run of passes amounts to: how many passes were run, how many
      segment downloads succeeded over all of them, and whether a pass
      without failure was reached. */
  datatype Run = Run(passes: nat, successes: nat, completed: bool)

  predicate InRange(batch: seq<nat>, n: nat)
  {
    forall k :: 0 <= k < |batch| ==> batch[k] < n
  }

  /** `enumerate(self.playlist)`: the indices `0 .. n-1`. */
  function Range(n: nat): (r: seq<nat>)
    ensures |r| == n && InRange(r, n)
  {
    seq(n, k requires 0 <= k < n => k)
  }

  /** A pass is well formed for a batch when it has a response for every
      segment of the playlist and `as_completed` yields every submitted
      future exactly once. */
  ghost predicate PassCovers(p: Pass, batch: seq<nat>, n: nat)
  {
    && |p.responses| == n
    && InRange(batch, n)
    && InRange(p.completion, n)
    && multiset(p.completion) == multiset(batch)
  }

  /** How many of the segments in `batch` succeed. */
  function CountOk(rs: seq<Response>, batch: seq<nat>): (c: nat)
    requires InRange(batch, |rs|)
    ensures c <= |batch|
  {
    if batch == [] then 0
    else CountOk(rs, batch[..|batch| - 1]) + (if Succeeded(rs[batch[|batch| - 1]]) then 1 else 0)
  }

  lemma {:induction false} CountOkSnoc(rs: seq<Response>, batch: seq<nat>, i: nat)
    requires InRange(batch, |rs|) && i < |rs|
    ensures InRange(batch + [i], |rs|)
    ensures CountOk(rs, batch + [i]) == CountOk(rs, batch) + (if Succeeded(rs[i]) then 1 else 0)
  {
    assert (batch + [i])[..|batch|] == batch;
  }

  /** Every segment of the batch succeeds exactly when all of them are
      counted. */
  lemma {:induction false} CountOkAll(rs: seq<Response>, batch: seq<nat>)
    requires InRange(batch, |rs|)
    ensures CountOk(rs, batch) == |batch| <==> forall k :: 0 <= k < |batch| ==> Succeeded(rs[batch[k]])
  {
    if batch != [] {
      var init := batch[..|batch| - 1];
      CountOkAll(rs, init);
      assert forall k :: 0 <= k < |init| ==> init[k] == batch[k];
    }
  }

  /** `fail_list` as indices: the segments of `order` that fail, in `order`'s
      order. Every index of `order` is either counted as a success or listed
      here, never both. */
  function Failed(rs: seq<Response>, order: seq<nat>): (f: seq<nat>)
    requires InRange(order, |rs|)
    ensures |f| + CountOk(rs, order) == |order|
    ensures InRange(f, |rs|)
    ensures forall k :: 0 <= k < |f| ==> f[k] in order && !Succeeded(rs[f[k]])
  {
    if order == [] then []
    else
      var init, last := order[..|order| - 1], order[|order| - 1];
      assert order == init + [last];
      Failed(rs, init) + (if Succeeded(rs[last]) then [] else [last])
  }

  /** `f` is `s` with some elements left out, the rest kept in order. */
  predicate Subsequence(f: seq<nat>, s: seq<nat>)
    decreases |s|
  {
    f == [] ||
    (s != [] &&
     ((f[|f| - 1] == s[|s| - 1] && Subsequence(f[..|f| - 1], s[..|s| - 1])) ||
      Subsequence(f, s[..|s| - 1])))
  }

  /** `fail_list` lists the failures in the order `as_completed` yields
      them. */
  lemma {:induction false} FailedInCompletionOrder(rs: seq<Response>, order: seq<nat>)
    requires InRange(order, |rs|)
    ensures Subsequence(Failed(rs, order), order)
  {
    if order != [] {
      var init, last := order[..|order| - 1], order[|order| - 1];
      assert order == init + [last];
      FailedInCompletionOrder(rs, init);
      var f := Failed(rs, init);
      if Succeeded(rs[last]) {
        assert Failed(rs, order) == f;
      } else {
        assert Failed(rs, order) == f + [last];
        assert (f + [last])[..|f|] == f;
      }
    }
  }

  /** A segment of `order` that fails is in `Failed`. */
  lemma {:induction false} FailedContains(rs: seq<Response>, order: seq<nat>, i: nat)
    requires InRange(order, |rs|)
    requires i in order && !Succeeded(rs[i])
    ensures i in Failed(rs, order)
  {
    var init, last := order[..|order| - 1], order[|order| - 1];
    assert order == init + [last];
    if i != last {
      FailedContains(rs, init, i);
    }
  }

  lemma {:induction false} CountOkConcat(rs: seq<Response>, a: seq<nat>, b: seq<nat>)
    requires InRange(a, |rs|) && InRange(b, |rs|)
    ensures InRange(a + b, |rs|) && CountOk(rs, a + b) == CountOk(rs, a) + CountOk(rs, b)
    decreases |b|
  {
    if b == [] {
      assert a + b == a;
    } else {
      assert (a + b)[..|a + b| - 1] == a + b[..|b| - 1];
      CountOkConcat(rs, a, b[..|b| - 1]);
    }
  }

  /** Taking one segment out of a batch takes out its success, if any. */
  lemma CountOkRemove(rs: seq<Response>, xs: seq<nat>, j: nat)
    requires InRange(xs, |rs|) && j < |xs|
    ensures InRange(xs[..j] + xs[j + 1..], |rs|)
    ensures CountOk(rs, xs) == CountOk(rs, xs[..j] + xs[j + 1..]) + (if Succeeded(rs[xs[j]]) then 1 else 0)
  {
    var before, after := xs[..j], xs[j + 1..];
    assert xs == before + [xs[j]] + after;
    CountOkConcat(rs, before + [xs[j]], after);
    CountOkSnoc(rs, before, xs[j]);
    CountOkConcat(rs, before, after);
  }

  /** Removing the same element from two permutations of each other leaves
      permutations of each other. */
  lemma RemoveFromPermutation(xs: seq<nat>, ys: seq<nat>, j: nat)
    requires multiset(xs) == multiset(ys) && |ys| > 0
    requires j < |xs| && xs[j] == ys[|ys| - 1]
    ensures multiset(xs[..j] + xs[j + 1..]) == multiset(ys[..|ys| - 1])
  {
    var y := xs[j];
    assert xs == xs[..j] + [y] + xs[j + 1..];
    assert ys == ys[..|ys| - 1] + [y];
    assert multiset(xs) == multiset(xs[..j] + xs[j + 1..]) + multiset{y};
    assert multiset(ys) == multiset(ys[..|ys| - 1]) + multiset{y};
    calc {
      multiset(xs[..j] + xs[j + 1..]);
      multiset(xs) - multiset{y};
      multiset(ys) - multiset{y};
      multiset(ys[..|ys| - 1]);
    }
  }

  /** The number of successes does not depend on the order in which the
      completions are looked at. */
  lemma {:induction false} CountOkPermutation(rs: seq<Response>, xs: seq<nat>, ys: seq<nat>)
    requires InRange(xs, |rs|) && InRange(ys, |rs|)
    requires multiset(xs) == multiset(ys)
    ensures CountOk(rs, xs) == CountOk(rs, ys)
    decreases |ys|
  {
    if ys == [] {
      assert |xs| == |multiset(xs)| == 0;
    } else {
      var init, y := ys[..|ys| - 1], ys[|ys| - 1];
      assert y in multiset(ys);
      var j :| 0 <= j < |xs| && xs[j] == y;
      CountOkRemove(rs, xs, j);
      RemoveFromPermutation(xs, ys, j);
      CountOkPermutation(rs, xs[..j] + xs[j + 1..], init);
    }
  }

  /** The temporary directory after the tasks of `batch` ran: each task that
      succeeds writes its segment's body under its segment's name. */
  function StoreAfter(store: map<string, Bytes>, total: nat, rs: seq<Response>, batch: seq<nat>): map<string, Bytes>
    requires InRange(batch, |rs|)
  {
    if batch == [] then store
    else
      var s := StoreAfter(store, total, rs, batch[..|batch| - 1]);
      var i := batch[|batch| - 1];
      if Succeeded(rs[i]) then s[SegmentName(i, total) := rs[i].body] else s
  }

  /** After a pass, the file of a segment of the batch that succeeded holds
      that segment's body; the file of any other segment is as before. */
  lemma {:induction false} StoreAfterSegment(store: map<string, Bytes>, total: nat, rs: seq<Response>, batch: seq<nat>, i: nat)
    requires InRange(batch, |rs|) && i < |rs|
    ensures var r, key := StoreAfter(store, total, rs, batch), SegmentName(i, total);
      if i in batch && Succeeded(rs[i]) then key in r && r[key] == rs[i].body
      else (key in r <==> key in store) && (key in store ==> r[key] == store[key])
  {
    if batch != [] {
      var init, j := batch[..|batch| - 1], batch[|batch| - 1];
      assert batch == init + [j];
      StoreAfterSegment(store, total, rs, init, i);
      if j != i && SegmentName(j, total) == SegmentName(i, total) {
        SegmentNameInjective(j, i, total);
      }
    }
  }

  /** A pass touches no file but the files of its segments. */
  lemma {:induction false} StoreAfterOther(store: map<string, Bytes>, total: nat, rs: seq<Response>, batch: seq<nat>, key: string)
    requires InRange(batch, |rs|) && InRange(batch, total)
    requires !IsSegmentName(key, total)
    ensures var r := StoreAfter(store, total, rs, batch);
      (key in r <==> key in store) && (key in store ==> r[key] == store[key])
  {
    if batch != [] {
      var init, j := batch[..|batch| - 1], batch[|batch| - 1];
      assert batch == init + [j];
      StoreAfterOther(store, total, rs, init, key);
      SegmentNameShape(j, total);
    }
  }

  /** No file but a segment's file differs between the two directories. */
  ghost predicate OthersUnchanged(before: map<string, Bytes>, after: map<string, Bytes>, total: nat)
  {
    forall key :: !IsSegmentName(key, total) ==>
      (key in after <==> key in before) && (key in before ==> after[key] == before[key])
  }

  /** No segment's file present before is missing after. */
  ghost predicate SegmentsKept(before: map<string, Bytes>, after: map<string, Bytes>, total: nat)
  {
    forall i :: 0 <= i < total && SegmentName(i, total) in before ==> SegmentName(i, total) in after
  }

  /** Every segment's file holds the body of its (successful) response. */
  ghost predicate HoldsBodies(store: map<string, Bytes>, total: nat, rs: seq<Response>)
  {
    forall i :: 0 <= i < total ==>
      i < |rs| && Succeeded(rs[i]) && SegmentName(i, total) in store && store[SegmentName(i, total)] == rs[i].body
  }

  /** What a pass does to the directory, file by file. */
  lemma PassEffect(store: map<string, Bytes>, total: nat, rs: seq<Response>, batch: seq<nat>)
    requires |rs| == total && InRange(batch, total)
    ensures var r := StoreAfter(store, total, rs, batch);
      && OthersUnchanged(store, r, total)
      && SegmentsKept(store, r, total)
      && forall i :: i in batch && Succeeded(rs[i]) ==> SegmentName(i, total) in r
  {
    var r := StoreAfter(store, total, rs, batch);
    forall key | !IsSegmentName(key, total)
      ensures (key in r <==> key in store) && (key in store ==> r[key] == store[key])
    {
      StoreAfterOther(store, total, rs, batch, key);
    }
    forall i | 0 <= i < total
      ensures SegmentName(i, total) in store ==> SegmentName(i, total) in r
      ensures i in batch && Succeeded(rs[i]) ==> SegmentName(i, total) in r
    {
      StoreAfterSegment(store, total, rs, batch, i);
    }
  }

  /** After a pass over the whole playlist without failure, every segment's
      file holds that pass's body. */
  lemma CleanPassHolds(store: map<string, Bytes>, total: nat, rs: seq<Response>)
    requires |rs| == total && CountOk(rs, Range(total)) == total
    ensures HoldsBodies(StoreAfter(store, total, rs, Range(total)), total, rs)
  {
    CountOkAll(rs, Range(total));
    forall i | 0 <= i < total
      ensures Succeeded(rs[i])
      ensures var r := StoreAfter(store, total, rs, Range(total));
        SegmentName(i, total) in r && r[SegmentName(i, total)] == rs[i].body
    {
      assert Range(total)[i] == i;
      StoreAfterSegment(store, total, rs, Range(total), i);
    }
  }

  /** `fail_list` holds the URL of each failed segment, in the same order. */
  predicate UrlsOf(failList: seq<string>, failed: seq<nat>, playlist: seq<string>)
  {
    |failList| == |failed| &&
    forall k :: 0 <= k < |failed| ==> failed[k] < |playlist| && failList[k] == playlist[failed[k]]
  }

  /** A pass in which every segment of the playlist succeeds. */
  ghost predicate Clean(p: Pass, n: nat)
    requires |p.responses| == n
  {
    CountOk(p.responses, Range(n)) == n
  }

  /** Every pass of the code as written runs over the whole playlist. */
  ghost predicate AsWrittenSchedule(schedule: seq<Pass>, n: nat)
  {
    forall p :: 0 <= p < |schedule| ==> PassCovers(schedule[p], Range(n), n)
  }

  /** `_download_playlist` as written: a pass over the whole playlist, and
      another pass over the whole playlist (not over `fail_list`) while the
      last pass had a failure. The schedule gives the passes' environments; a
      schedule that runs out before a clean pass stops the run, where the
      source would go on retrying. */
  function AsWrittenRun(schedule: seq<Pass>, n: nat): (r: Run)
    requires AsWrittenSchedule(schedule, n)
    ensures r.passes <= |schedule| && (r.completed ==> r.passes >= 1)
  {
    if schedule == [] then Run(0, 0, false)
    else
      var ok := CountOk(schedule[0].responses, Range(n));
      if ok == n then Run(1, ok, true)
      else
        var rest := AsWrittenRun(schedule[1..], n);
        Run(rest.passes + 1, ok + rest.successes, rest.completed)
  }

  /** The successes of every pass of a schedule, added up. */
  function SumOk(schedule: seq<Pass>, n: nat): nat
    requires AsWrittenSchedule(schedule, n)
  {
    if schedule == [] then 0 else CountOk(schedule[0].responses, Range(n)) + SumOk(schedule[1..], n)
  }

  /** Passes repeat exactly while a pass has a failure: every pass but the
      last has one; a completed run stops at its first clean pass, and a run
      that does not complete used up the whole schedule. */
  lemma {:induction false} AsWrittenStopsAtFirstClean(schedule: seq<Pass>, n: nat)
    requires AsWrittenSchedule(schedule, n)
    ensures var r := AsWrittenRun(schedule, n);
      && (forall p :: 0 <= p < r.passes - 1 ==> !Clean(schedule[p], n))
      && (r.completed ==> Clean(schedule[r.passes - 1], n))
      && (!r.completed ==> r.passes == |schedule|)
  {
    if schedule != [] && !Clean(schedule[0], n) {
      var tail := schedule[1..];
      AsWrittenStopsAtFirstClean(tail, n);
      forall p | 1 <= p < |schedule| ensures schedule[p] == tail[p - 1] { }
    }
  }

  /** The run completes exactly when some pass of the schedule is clean. */
  lemma {:induction false} AsWrittenCompletesIffSomeClean(schedule: seq<Pass>, n: nat)
    requires AsWrittenSchedule(schedule, n)
    ensures AsWrittenRun(schedule, n).completed <==> exists p :: 0 <= p < |schedule| && Clean(schedule[p], n)
  {
    var r := AsWrittenRun(schedule, n);
    if r.completed {
      AsWrittenStopsAtFirstClean(schedule, n);
      assert Clean(schedule[r.passes - 1], n);
    } else if schedule != [] {
      var tail := schedule[1..];
      AsWrittenCompletesIffSomeClean(tail, n);
      forall p | 0 <= p < |schedule| ensures !Clean(schedule[p], n) {
        if p > 0 {
          assert schedule[p] == tail[p - 1];
        }
      }
    }
  }

  /** `self.finished` counts every success of every pass run, so a completed
      run counts the whole playlist once for its clean pass plus every
      success of the passes before it: it exceeds `total` exactly when an
      earlier pass had a success. */
  lemma {:induction false} AsWrittenCountsEveryPass(schedule: seq<Pass>, n: nat)
    requires AsWrittenSchedule(schedule, n)
    ensures var r := AsWrittenRun(schedule, n);
      && r.successes == SumOk(schedule[..r.passes], n)
      && (r.completed ==> r.successes == n + SumOk(schedule[..r.passes - 1], n))
  {
    var r := AsWrittenRun(schedule, n);
    if schedule != [] {
      var tail := schedule[1..];
      AsWrittenCountsEveryPass(tail, n);
      assert schedule[..1][1..] == [];
      if r.passes > 1 {
        assert schedule[..r.passes][1..] == tail[..r.passes - 1];
        assert schedule[..r.passes - 1][1..] == tail[..r.passes - 2];
      }
    }
  }

  /** The corrected retry, the one the code announces at line 56 and builds
      `fail_list` for: each later pass covers
      exactly the segments that failed in the pass before, in the order their
      failures were seen. */
  ghost predicate WellScheduled(schedule: seq<Pass>, batch: seq<nat>, n: nat)
    decreases |schedule|
  {
    schedule == [] ||
    (PassCovers(schedule[0], batch, n) &&
     WellScheduled(schedule[1..], Failed(schedule[0].responses, schedule[0].completion), n))
  }

  function RetryRun(schedule: seq<Pass>, batch: seq<nat>, n: nat): (r: Run)
    requires WellScheduled(schedule, batch, n)
    ensures r.passes <= |schedule| && (r.completed ==> r.passes >= 1)
    decreases |schedule|
  {
    if schedule == [] then Run(0, 0, false)
    else
      var p := schedule[0];
      var ok := CountOk(p.responses, batch);
      var failed := Failed(p.responses, p.completion);
      if |failed| == 0 then Run(1, ok, true)
      else
        var rest := RetryRun(schedule[1..], failed, n);
        Run(rest.passes + 1, ok + rest.successes, rest.completed)
  }

  /** Every segment of `batch` has its file. */
  ghost predicate HasFiles(store: map<string, Bytes>, total: nat, batch: seq<nat>)
  {
    forall i :: i in batch ==> SegmentName(i, total) in store
  }

  /** A segment of the batch that fails in a pass is listed for the next one. */
  lemma FailureIsRetried(p: Pass, batch: seq<nat>, n: nat, i: nat)
    requires PassCovers(p, batch, n)
    requires i in batch && !Succeeded(p.responses[i])
    ensures i in Failed(p.responses, p.completion)
  {
    assert i in multiset(p.completion);
    FailedContains(p.responses, p.completion, i);
  }

  /** The segments of a batch are covered once those that succeeded in a pass
      and those listed as failed all have their files. */
  lemma RetryCoversBatch(store: map<string, Bytes>, total: nat, p: Pass, batch: seq<nat>)
    requires PassCovers(p, batch, total)
    requires forall i :: i in batch && Succeeded(p.responses[i]) ==> SegmentName(i, total) in store
    requires HasFiles(store, total, Failed(p.responses, p.completion))
    ensures HasFiles(store, total, batch)
  {
    forall i | i in batch ensures SegmentName(i, total) in store {
      if !Succeeded(p.responses[i]) {
        FailureIsRetried(p, batch, total, i);
      }
    }
  }

  /** With the corrected retry every segment of the batch is counted at most
      once, and exactly once when the run completes: the progress count never
      exceeds the playlist length and reaches it at the end. */
  lemma {:induction false} RetryCountsEachSegmentOnce(schedule: seq<Pass>, batch: seq<nat>, n: nat)
    requires WellScheduled(schedule, batch, n)
    ensures var r := RetryRun(schedule, batch, n);
      r.successes <= |batch| && (r.completed ==> r.successes == |batch|)
    decreases |schedule|
  {
    if schedule != [] {
      var p := schedule[0];
      assert |p.completion| == |multiset(p.completion)| == |multiset(batch)| == |batch|;
      CountOkPermutation(p.responses, p.completion, batch);
      RetryCountsEachSegmentOnce(schedule[1..], Failed(p.responses, p.completion), n);
    }
  }

  /** A reply with status 200 and a one-byte body. */
  function Ok(b: bv8): Response { Reply(200, [b]) }

  /** Five segments; segment 2 fails the first time and every later request
      succeeds. */
  function FirstPass(): Pass
  {
    Pass([Ok(0), Ok(1), Raised, Ok(3), Ok(4)], [0, 1, 2, 3, 4])
  }

  function SecondPass(): Pass
  {
    Pass([Ok(0), Ok(1), Ok(2), Ok(3), Ok(4)], [0, 1, 2, 3, 4])
  }

  /** Counting the successes of the five segments one completion at a time. */
  lemma CountFive(rs: seq<Response>)
    requires |rs| == 5
    ensures CountOk(rs, [0, 1, 2, 3, 4]) ==
      (if Succeeded(rs[0]) then 1 else 0) + (if Succeeded(rs[1]) then 1 else 0) +
      (if Succeeded(rs[2]) then 1 else 0) + (if Succeeded(rs[3]) then 1 else 0) +
      (if Succeeded(rs[4]) then 1 else 0)
  {
    CountOkSnoc(rs, [], 0);
    assert [] + [0] == [0];
    CountOkSnoc(rs, [0], 1);
    assert [0] + [1] == [0, 1];
    CountOkSnoc(rs, [0, 1], 2);
    assert [0, 1] + [2] == [0, 1, 2];
    CountOkSnoc(rs, [0, 1, 2], 3);
    assert [0, 1, 2] + [3] == [0, 1, 2, 3];
    CountOkSnoc(rs, [0, 1, 2, 3], 4);
    assert [0, 1, 2, 3] + [4] == [0, 1, 2, 3, 4];
  }

  /** Four segments succeed in the first pass, all five in the second. */
  lemma ScenarioCounts()
    ensures CountOk(FirstPass().responses, Range(5)) == 4
    ensures CountOk(SecondPass().responses, Range(5)) == 5
  {
    assert Range(5) == [0, 1, 2, 3, 4];
    CountFive(FirstPass().responses);
    CountFive(SecondPass().responses);
  }

  /** The code as written retries the whole playlist after segment 2 failed
      once: two passes, and `finished` ends at 4 + 5 = 9 for a playlist of 5. */
  lemma AsWrittenScenario()
    ensures AsWrittenSchedule([FirstPass(), SecondPass()], 5)
    ensures AsWrittenRun([FirstPass(), SecondPass()], 5) == Run(2, 9, true)
  {
    assert Range(5) == [0, 1, 2, 3, 4];
    ScenarioCounts();
    assert [FirstPass(), SecondPass()][1..] == [SecondPass()];
  }

  /** In the first pass only segment 2 fails. */
  lemma FirstPassFailures()
    ensures Failed(FirstPass().responses, FirstPass().completion) == [2]
  {
    var r0 := FirstPass().responses;
    assert [0, 1, 2, 3, 4][..4] == [0, 1, 2, 3];
    assert [0, 1, 2, 3][..3] == [0, 1, 2];
    assert [0, 1, 2][..2] == [0, 1];
    assert [0, 1][..1] == [0];
    assert [0][..0] == [];
  }

  /** In the retried pass segment 2 succeeds, which ends the corrected
      retry after that one pass. */
  lemma SecondPassRetry()
    ensures Failed(SecondPass().responses, [2]) == []
    ensures CountOk(SecondPass().responses, [2]) == 1
    ensures WellScheduled([Pass(SecondPass().responses, [2])], [2], 5)
    ensures RetryRun([Pass(SecondPass().responses, [2])], [2], 5) == Run(1, 1, true)
  {
    assert [2][..0] == [];
    CountOkSnoc(SecondPass().responses, [], 2);
    assert [] + [2] == [2];
    assert [Pass(SecondPass().responses, [2])][1..] == [];
  }

  /** The corrected retry on the same responses: the second pass covers only
      segment 2, and the count ends at exactly 5. */
  lemma RetryScenario()
    ensures WellScheduled([FirstPass(), Pass(SecondPass().responses, [2])], Range(5), 5)
    ensures RetryRun([FirstPass(), Pass(SecondPass().responses, [2])], Range(5), 5) == Run(2, 5, true)
  {
    var second := Pass(SecondPass().responses, [2]);
    var schedule := [FirstPass(), second];
    assert Range(5) == [0, 1, 2, 3, 4];
    FirstPassFailures();
    CountFive(FirstPass().responses);
    SecondPassRetry();
    assert schedule[1..] == [second];
    assert PassCovers(FirstPass(), Range(5), 5);
    assert WellScheduled(schedule, Range(5), 5);
    assert CountOk(FirstPass().responses, Range(5)) == 4;
  }

  class Downloader {
    const m3u8Url: string
    const useProxy: bool
    /** `base_url`: the manifest URL up to its last `/`, plus `/`. */
    const baseUrl: string
    /** `ep_name`: the name of the merged video file. */
    const epName: string
    /** `self.finished`: downloads that succeeded, over every pass. */
    var finished: nat
    var playlist: seq<string>
    var total: nat
    /** The temporary directory `PATH_TEMP`: file name to contents. */
    var temp: map<string, Bytes>

    ghost predicate Valid()
      reads this
    {
      total == |playlist|
    }

    /** `Downloader.__init__`. */
    constructor (m3u8Url: string, useProxy: bool)
      ensures Valid()
      ensures this.m3u8Url == m3u8Url && this.useProxy == useProxy
      ensures baseUrl == BaseUrl(m3u8Url) && epName == EpName(m3u8Url)
      ensures finished == 0 && playlist == [] && temp == map[]
    {
      this.m3u8Url := m3u8Url;
      this.useProxy := useProxy;
      baseUrl := BaseUrl(m3u8Url);
      epName := EpName(m3u8Url);
      finished := 0;
      playlist, total := [], 0;
      temp := map[];
    }

    /** The part of `download` between fetching the manifest and the first
        pass: the playlist from the manifest's segment URIs, its length, and
        the temporary directory, which keeps whatever an earlier run left in
        it (`mkdir(exist_ok=True)`). */
    method LoadPlaylist(uris: seq<string>, existing: map<string, Bytes>)
      modifies this`playlist, this`total, this`temp
      ensures Valid()
      ensures playlist == Playlist(baseUrl, uris) && total == |uris|
      ensures temp == existing
    {
      playlist := Playlist(baseUrl, uris);
      total := |playlist|;
      temp := existing;
    }

    /** `_download_ts`: a status other than 200, like an exception from
        `get_response`, makes the task fail and writes nothing; otherwise the
        body is written to the segment's file, replacing any earlier one. */
    method DownloadTs(index: nat, url: string, response: Response) returns (ok: bool)
      requires Valid()
      modifies this`temp
      ensures ok == Succeeded(response)
      ensures temp == if ok then old(temp)[SegmentName(index, total) := response.body] else old(temp)
    {
      match response
      case Raised =>
        ok := false;
      case Reply(status, body) =>
        if status != 200 {
          ok := false;
        } else {
          var digit := |Decimal(total)|;
          var tsId := ZeroPad(index, digit) + ".ts";
          temp := temp[tsId := body];
          ok := true;
        }
    }

    /** The `executor.submit` loop of a pass: one `_download_ts` task per
        segment of the batch. */
    method SubmitAll(batch: seq<nat>, rs: seq<Response>)
      requires Valid() && |rs| == total && InRange(batch, total)
      modifies this`temp
      ensures temp == StoreAfter(old(temp), total, rs, batch)
    {
      var k := 0;
      while k < |batch|
        invariant 0 <= k <= |batch|
        invariant temp == StoreAfter(old(temp), total, rs, batch[..k])
      {
        var i := batch[k];
        var ok := DownloadTs(i, playlist[i], rs[i]);
        assert batch[..k + 1][..k] == batch[..k];
        k := k + 1;
      }
      assert batch[..k] == batch;
    }

    /** One pass of `_download_playlist` over `batch`: every task runs, then
        the completions are tallied in `as_completed` order, a success adding
        one to `finished` and a failure appending the segment's URL to
        `fail_list`. `failed` gives the same failures as segment indices. */
    method DownloadPass(batch: seq<nat>, pass: Pass) returns (failList: seq<string>, failed: seq<nat>)
      requires Valid() && PassCovers(pass, batch, total)
      modifies this`temp, this`finished
      ensures temp == StoreAfter(old(temp), total, pass.responses, batch)
      ensures finished == old(finished) + CountOk(pass.responses, batch)
      ensures failed == Failed(pass.responses, pass.completion)
      ensures UrlsOf(failList, failed, playlist)
      ensures |failed| + CountOk(pass.responses, batch) == |batch|
    {
      SubmitAll(batch, pass.responses);
      failList, failed := TallyCompletions(pass.responses, pass.completion);
      CountOkPermutation(pass.responses, pass.completion, batch);
      assert |pass.completion| == |multiset(pass.completion)| == |multiset(batch)| == |batch|;
    }

    /** The `as_completed` loop of a pass: a completed task adds one to
        `finished`, a failed one appends its URL to `fail_list`. */
    method TallyCompletions(rs: seq<Response>, order: seq<nat>) returns (failList: seq<string>, failed: seq<nat>)
      requires Valid() && |rs| == total && InRange(order, total)
      modifies this`finished
      ensures finished == old(finished) + CountOk(rs, order)
      ensures failed == Failed(rs, order)
      ensures UrlsOf(failList, failed, playlist)
    {
      failList, failed := [], [];
      var c := 0;
      while c < |order|
        invariant 0 <= c <= |order|
        invariant finished == old(finished) + CountOk(rs, order[..c])
        invariant failed == Failed(rs, order[..c])
        invariant UrlsOf(failList, failed, playlist)
      {
        var i := order[c];
        assert order[..c + 1][..c] == order[..c];
        if Succeeded(rs[i]) {
          finished := finished + 1;
        } else {
          failList := failList + [playlist[i]];
          failed := failed + [i];
        }
        c := c + 1;
      }
      assert order[..c] == order;
    }

    /** `_download_playlist` as written: a pass over the whole playlist, then
        the whole method again while `fail_list` is not empty. `finished` is
        never reset. When a clean pass is reached, every segment's file holds
        the body of that pass; no other file is touched, and none is removed. */
    method DownloadPlaylist(schedule: seq<Pass>) returns (completed: bool, passes: nat)
      requires Valid()
      requires AsWrittenSchedule(schedule, total)
      modifies this`temp, this`finished
      ensures passes == AsWrittenRun(schedule, total).passes
      ensures completed == AsWrittenRun(schedule, total).completed
      ensures finished == old(finished) + AsWrittenRun(schedule, total).successes
      ensures completed ==> HoldsBodies(temp, total, schedule[passes - 1].responses)
      ensures OthersUnchanged(old(temp), temp, total) && SegmentsKept(old(temp), temp, total)
      decreases |schedule|
    {
      if |schedule| == 0 {
        return false, 0;
      }
      ghost var before := temp;
      var failList, failed := DownloadPass(Range(total), schedule[0]);
      PassEffect(before, total, schedule[0].responses, Range(total));
      if |failList| > 0 {
        completed, passes := DownloadPlaylist(schedule[1..]);
        passes := passes + 1;
      } else {
        CleanPassHolds(before, total, schedule[0].responses);
        completed, passes := true, 1;
      }
    }

    /** The corrected retry: each further pass submits only the segments
        that failed in the pass before. When it completes, every segment of
        the batch has its file, and `finished` grew by exactly the batch's
        length. */
    method RetryFailed(schedule: seq<Pass>, batch: seq<nat>) returns (completed: bool, passes: nat)
      requires Valid() && WellScheduled(schedule, batch, total)
      modifies this`temp, this`finished
      ensures passes == RetryRun(schedule, batch, total).passes
      ensures completed == RetryRun(schedule, batch, total).completed
      ensures finished == old(finished) + RetryRun(schedule, batch, total).successes
      ensures completed ==> finished == old(finished) + |batch|
      ensures completed ==> HasFiles(temp, total, batch)
      ensures OthersUnchanged(old(temp), temp, total) && SegmentsKept(old(temp), temp, total)
      decreases |schedule|
    {
      RetryCountsEachSegmentOnce(schedule, batch, total);
      if |schedule| == 0 {
        return false, 0;
      }
      ghost var before := temp;
      var pass := schedule[0];
      var failList, failed := DownloadPass(batch, pass);
      PassEffect(before, total, pass.responses, batch);
      if |failList| > 0 {
        completed, passes := RetryFailed(schedule[1..], failed);
        passes := passes + 1;
        if completed {
          RetryCoversBatch(temp, total, pass, batch);
        }
      } else {
        RetryCoversBatch(temp, total, pass, batch);
        completed, passes := true, 1;
      }
    }
  }
}
