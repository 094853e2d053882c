/** `_merge`: the output video is the concatenation of the `.ts` files of the
    temporary directory, in the order the directory listing yields them. */
module Merging {
  import opened Text
  import opened Naming

  type Bytes = seq<bv8>

  /** One entry of the temporary directory: its file name and its bytes. */
  type Entry = (string, Bytes)

  /** `PurePath.suffix` of a file name: from the last `.` on, provided that
      `.` is neither the first nor the last character; otherwise empty. */
  function Suffix(name: string): (s: string)
    ensures s == "" || (2 <= |s| < |name| && s == name[|name| - |s|..] && s[0] == '.' && '.' !in s[1..])
  {
    var i := LastIndexOf(name, '.');
    if 0 < i < |name| - 1 then name[i..] else ""
  }

  /** Some `.` follows the first character of the name, and the name does
      not end with `.`. */
  predicate HasInnerDot(name: string)
  {
    |name| > 0 && '.' in name[1..] && name[|name| - 1] != '.'
  }

  /** The other half of the suffix rule: a name has a non-empty suffix exactly
      when it has an inner dot. */
  lemma SuffixNonEmpty(name: string)
    ensures Suffix(name) != "" <==> HasInnerDot(name)
  {
    var i := LastIndexOf(name, '.');
    if |name| > 0 && '.' in name[1..] {
      var k :| 0 <= k < |name| - 1 && name[1..][k] == '.';
      assert name[k + 1] == '.';
    }
    if 0 < i < |name| - 1 {
      assert name[1..][i - 1] == '.';
    }
  }

  predicate IsTs(name: string) { Suffix(name) == ".ts" }

  /** Every segment file name has the suffix `.ts`, so the merge picks it up. */
  lemma SegmentNameIsTs(index: nat, total: nat)
    ensures IsTs(SegmentName(index, total))
  {
    SegmentNameShape(index, total);
    var name := SegmentName(index, total);
    var i := LastIndexOf(name, '.');
    assert name[|name| - 3] == '.' && name[|name| - 2] == 't' && name[|name| - 1] == 's';
    assert i == |name| - 3;
  }

  /** The entries of a listing that the merge keeps, in listing order. */
  function TsEntries(listing: seq<Entry>): (t: seq<Entry>)
    ensures |t| <= |listing|
  {
    if listing == [] then []
    else
      var e := listing[|listing| - 1];
      TsEntries(listing[..|listing| - 1]) + (if IsTs(e.0) then [e] else [])
  }

  /** The kept entries are exactly the listing's `.ts` entries. */
  lemma {:induction false} TsEntriesMembers(listing: seq<Entry>)
    ensures forall k :: 0 <= k < |TsEntries(listing)| ==> TsEntries(listing)[k] in listing && IsTs(TsEntries(listing)[k].0)
    ensures forall e :: e in listing && IsTs(e.0) ==> e in TsEntries(listing)
  {
    if listing != [] {
      var init, e := listing[..|listing| - 1], listing[|listing| - 1];
      assert listing == init + [e];
      TsEntriesMembers(init);
    }
  }

  /** The bytes of the entries, one after the other. */
  function Flatten(entries: seq<Entry>): Bytes
  {
    if entries == [] then [] else Flatten(entries[..|entries| - 1]) + entries[|entries| - 1].1
  }

  /** What `_merge` writes to the video file for a given directory listing. */
  function MergeOutput(listing: seq<Entry>): Bytes
  {
    Flatten(TsEntries(listing))
  }

  lemma {:induction false} FlattenConcat(a: seq<Entry>, b: seq<Entry>)
    ensures Flatten(a + b) == Flatten(a) + Flatten(b)
    decreases |b|
  {
    if b == [] {
      assert a + b == a;
    } else {
      assert (a + b)[..|a + b| - 1] == a + b[..|b| - 1];
      assert (a + b)[|a + b| - 1] == b[|b| - 1];
      FlattenConcat(a, b[..|b| - 1]);
    }
  }

  lemma {:induction false} TsEntriesConcat(a: seq<Entry>, b: seq<Entry>)
    ensures TsEntries(a + b) == TsEntries(a) + TsEntries(b)
    decreases |b|
  {
    if b == [] {
      assert a + b == a;
    } else {
      assert (a + b)[..|a + b| - 1] == a + b[..|b| - 1];
      assert (a + b)[|a + b| - 1] == b[|b| - 1];
      TsEntriesConcat(a, b[..|b| - 1]);
    }
  }

  /** Merging a listing in two parts gives the two merges one after the
      other: the output respects listing order. */
  lemma MergeOutputConcat(a: seq<Entry>, b: seq<Entry>)
    ensures MergeOutput(a + b) == MergeOutput(a) + MergeOutput(b)
  {
    TsEntriesConcat(a, b);
    FlattenConcat(TsEntries(a), TsEntries(b));
  }

  lemma MergeOutputSnoc(l: seq<Entry>, e: Entry)
    ensures MergeOutput(l + [e]) == MergeOutput(l) + (if IsTs(e.0) then e.1 else [])
  {
    assert (l + [e])[..|l|] == l;
    var t := TsEntries(l);
    if IsTs(e.0) {
      assert (t + [e])[..|t|] == t;
    } else {
      assert t + [] == t;
    }
  }

  /** An entry whose suffix is not `.ts` contributes nothing, wherever it is;
      a `.ts` entry contributes exactly its bytes. */
  lemma MergeOutputEntry(a: seq<Entry>, e: Entry, b: seq<Entry>)
    ensures MergeOutput(a + [e] + b) == MergeOutput(a) + (if IsTs(e.0) then e.1 else []) + MergeOutput(b)
  {
    MergeOutputConcat(a + [e], b);
    MergeOutputConcat(a, [e]);
    assert [e][..0] == [];
  }

  /** `_merge` over a directory listing: append the bytes of each `.ts` entry,
      in the order the listing yields them. */
  method Merge(listing: seq<Entry>) returns (video: Bytes)
    ensures video == MergeOutput(listing)
  {
    video := [];
    var k := 0;
    while k < |listing|
      invariant 0 <= k <= |listing|
      invariant video == MergeOutput(listing[..k])
    {
      var entry := listing[k];
      assert listing[..k + 1] == listing[..k] + [entry];
      MergeOutputSnoc(listing[..k], entry);
      if IsTs(entry.0) {
        video := video + entry.1;
      }
      k := k + 1;
    }
    assert listing[..k] == listing;
  }

  /** `listing` is one enumeration of the directory `store`: every file exactly
      once, with its contents. The order is whatever the file system gives. */
  ghost predicate Enumerates(listing: seq<Entry>, store: map<string, Bytes>)
  {
    && (forall a, b :: 0 <= a < b < |listing| ==> listing[a].0 != listing[b].0)
    && (forall k :: 0 <= k < |listing| ==> listing[k].0 in store && store[listing[k].0] == listing[k].1)
    && (forall name :: name in store ==> exists k :: 0 <= k < |listing| && listing[k].0 == name)
  }

  /** The files of segments `0 .. m-1` of a playlist of `total` are all in
      the directory. */
  predicate AllPresent(store: map<string, Bytes>, total: nat, m: nat)
  {
    forall i :: 0 <= i < m ==> SegmentName(i, total) in store
  }

  lemma AllPresentStep(store: map<string, Bytes>, total: nat, m: nat)
    requires AllPresent(store, total, m) && SegmentName(m, total) in store
    ensures AllPresent(store, total, m + 1)
  {
  }

  /** The bytes of segments `0 .. m-1` of a playlist of `total`, in playlist
      order, looked up by their file names. */
  function ConcatSegments(store: map<string, Bytes>, total: nat, m: nat): Bytes
    requires m <= total
    requires AllPresent(store, total, m)
  {
    if m == 0 then [] else ConcatSegments(store, total, m - 1) + store[SegmentName(m - 1, total)]
  }

  /** The corrected merge: look every segment up by its index, in ascending
      order, instead of trusting the order of the directory listing. It reports
      failure when a segment file is missing. */
  method MergeInOrder(store: map<string, Bytes>, total: nat) returns (ok: bool, video: Bytes)
    ensures ok <==> AllPresent(store, total, total)
    ensures ok ==> video == ConcatSegments(store, total, total)
  {
    video := [];
    var i := 0;
    while i < total
      invariant 0 <= i <= total
      invariant AllPresent(store, total, i)
      invariant video == ConcatSegments(store, total, i)
    {
      var name := SegmentName(i, total);
      if name !in store {
        return false, [];
      }
      AllPresentStep(store, total, i);
      video := video + store[name];
      i := i + 1;
    }
    ok := true;
  }

  /** A listing sorted by name, as Python's `sorted` would give it. */
  predicate SortedByName(entries: seq<Entry>)
  {
    forall a, b :: 0 <= a < b < |entries| ==> LexLess(entries[a].0, entries[b].0)
  }

  /** A strictly increasing sequence of indices below `n` that hits every index
      below `n` is `0, 1, ..., n-1`: here, for its first `k` positions. */
  lemma {:induction false} IncreasingOntoPrefix(idx: seq<int>, n: nat, k: nat)
    requires forall a, b :: 0 <= a < b < |idx| ==> idx[a] < idx[b]
    requires forall j :: 0 <= j < |idx| ==> 0 <= idx[j] < n
    requires forall i :: 0 <= i < n ==> i in idx
    requires k <= |idx|
    ensures forall j :: 0 <= j < k ==> idx[j] == j
  {
    if k > 0 {
      IncreasingOntoPrefix(idx, n, k - 1);
      var m := k - 1;
      assert idx[m] >= m by {
        if m > 0 { assert idx[m - 1] < idx[m]; }
      }
      assert m < n;
      assert m in idx;
      var p :| 0 <= p < |idx| && idx[p] == m;
    }
  }

  lemma IncreasingOntoIsIdentity(idx: seq<int>, n: nat)
    requires forall a, b :: 0 <= a < b < |idx| ==> idx[a] < idx[b]
    requires forall j :: 0 <= j < |idx| ==> 0 <= idx[j] < n
    requires forall i :: 0 <= i < n ==> i in idx
    ensures |idx| == n && forall j :: 0 <= j < n ==> idx[j] == j
  {
    IncreasingOntoPrefix(idx, n, |idx|);
    if |idx| > 0 {
      assert idx[|idx| - 1] == |idx| - 1;
    }
    if n > 0 {
      assert n - 1 in idx;
      var p :| 0 <= p < |idx| && idx[p] == n - 1;
    }
  }

  lemma {:induction false} FlattenSegments(t: seq<Entry>, store: map<string, Bytes>, total: nat, m: nat)
    requires m <= |t| == total
    requires forall k :: 0 <= k < total ==> SegmentName(k, total) in store && t[k] == (SegmentName(k, total), store[SegmentName(k, total)])
    ensures Flatten(t[..m]) == ConcatSegments(store, total, m)
  {
    if m > 0 {
      assert t[..m][..m - 1] == t[..m - 1];
      FlattenSegments(t, store, total, m - 1);
    }
  }

  /** Every entry the merge keeps, in a directory holding no stray `.ts`
      file, is the file of one segment, with that segment's stored bytes. */
  lemma TsEntryIsSegment(listing: seq<Entry>, store: map<string, Bytes>, total: nat, k: nat)
    requires Enumerates(listing, store)
    requires forall name :: name in store && IsTs(name) ==> IsSegmentName(name, total)
    requires k < |TsEntries(listing)|
    ensures var e := TsEntries(listing)[k];
      0 <= SegmentIndex(e.0) < total && e.0 == SegmentName(SegmentIndex(e.0), total) &&
      e.0 in store && e.1 == store[e.0]
  {
    TsEntriesMembers(listing);
    var e := TsEntries(listing)[k];
    var j :| 0 <= j < |listing| && listing[j] == e;
    assert IsSegmentName(e.0, total);
  }

  /** Every segment file of the directory is among the entries the merge keeps. */
  lemma SegmentIsTsEntry(listing: seq<Entry>, store: map<string, Bytes>, total: nat, i: nat)
    requires Enumerates(listing, store)
    requires SegmentName(i, total) in store
    ensures exists q :: 0 <= q < |TsEntries(listing)| && TsEntries(listing)[q].0 == SegmentName(i, total)
  {
    var name := SegmentName(i, total);
    var p :| 0 <= p < |listing| && listing[p].0 == name;
    SegmentNameIsTs(i, total);
    TsEntriesMembers(listing);
    assert listing[p] in TsEntries(listing);
  }

  /** The indices the kept entries encode, in listing order. */
  function EncodedIndices(t: seq<Entry>): (idx: seq<int>)
    ensures |idx| == |t| && forall k :: 0 <= k < |t| ==> idx[k] == SegmentIndex(t[k].0)
  {
    seq(|t|, k requires 0 <= k < |t| => SegmentIndex(t[k].0))
  }

  /** Name order of the kept entries is index order. */
  lemma EncodedIndicesIncrease(t: seq<Entry>, total: nat)
    requires SortedByName(t)
    requires forall k :: 0 <= k < |t| ==> 0 <= SegmentIndex(t[k].0) < total && t[k].0 == SegmentName(SegmentIndex(t[k].0), total)
    ensures forall a, b :: 0 <= a < b < |t| ==> EncodedIndices(t)[a] < EncodedIndices(t)[b]
  {
    var idx := EncodedIndices(t);
    forall a, b | 0 <= a < b < |idx| ensures idx[a] < idx[b] {
      SegmentNameOrderReflected(idx[a], idx[b], total);
    }
  }

  /** Every segment's index is encoded by some kept entry. */
  lemma EncodedIndicesOnto(listing: seq<Entry>, store: map<string, Bytes>, total: nat)
    requires Enumerates(listing, store)
    requires AllPresent(store, total, total)
    ensures forall i :: 0 <= i < total ==> i in EncodedIndices(TsEntries(listing))
  {
    var t := TsEntries(listing);
    var idx := EncodedIndices(t);
    forall i | 0 <= i < total ensures i in idx {
      SegmentIsTsEntry(listing, store, total, i);
      var q :| 0 <= q < |t| && t[q].0 == SegmentName(i, total);
      SegmentNameShape(i, total);
      assert idx[q] == i;
    }
  }

  /** In a name-sorted listing of a directory that holds exactly the segment
      files (plus any non-`.ts` files), the kept entries are the segments
      `0 .. total-1`, in index order, with their stored bytes. */
  lemma SortedTsEntriesAreSegments(listing: seq<Entry>, store: map<string, Bytes>, total: nat)
    requires Enumerates(listing, store)
    requires AllPresent(store, total, total)
    requires forall name :: name in store && IsTs(name) ==> IsSegmentName(name, total)
    requires SortedByName(TsEntries(listing))
    ensures |TsEntries(listing)| == total
    ensures forall k :: 0 <= k < total ==>
      SegmentName(k, total) in store && TsEntries(listing)[k] == (SegmentName(k, total), store[SegmentName(k, total)])
  {
    var t := TsEntries(listing);
    var idx := EncodedIndices(t);
    forall k | 0 <= k < |t|
      ensures 0 <= idx[k] < total && t[k] == (SegmentName(idx[k], total), store[SegmentName(idx[k], total)])
    {
      TsEntryIsSegment(listing, store, total, k);
    }
    EncodedIndicesIncrease(t, total);
    EncodedIndicesOnto(listing, store, total);
    IncreasingOntoIsIdentity(idx, total);
  }

  /** Had the directory listing come in name order, the merge would produce
      the segments in playlist order: the zero padding of the names makes name
      order and index order agree. This needs the directory to hold every
      segment's file and no other `.ts` file. */
  lemma SortedListingMergesInPlaylistOrder(listing: seq<Entry>, store: map<string, Bytes>, total: nat)
    requires Enumerates(listing, store)
    requires AllPresent(store, total, total)
    requires forall name :: name in store && IsTs(name) ==> IsSegmentName(name, total)
    requires SortedByName(TsEntries(listing))
    ensures MergeOutput(listing) == ConcatSegments(store, total, total)
  {
    var t := TsEntries(listing);
    SortedTsEntriesAreSegments(listing, store, total);
    FlattenSegments(t, store, total, total);
    assert t[..total] == t;
  }

  lemma MergeOfTwo(e: Entry, f: Entry)
    requires IsTs(e.0) && IsTs(f.0)
    ensures MergeOutput([e, f]) == e.1 + f.1
  {
    MergeOutputSnoc([], e);
    MergeOutputSnoc([e], f);
    assert [e] + [f] == [e, f];
  }

  lemma EnumerationOfTwo(n0: string, n1: string, b0: Bytes, b1: Bytes)
    requires n0 != n1
    ensures Enumerates([(n1, b1), (n0, b0)], map[n0 := b0, n1 := b1])
  {
    var listing := [(n1, b1), (n0, b0)];
    forall name | name in map[n0 := b0, n1 := b1]
      ensures exists k :: 0 <= k < |listing| && listing[k].0 == name
    {
      if name == n0 { assert listing[1].0 == name; } else { assert listing[0].0 == name; }
    }
  }

  /** The merge as written follows the listing, not the playlist: for a
      playlist of two segments with different bytes, the enumeration of the
      directory that yields segment 1 first makes the merge put segment 1
      before segment 0. */
  lemma MergeFollowsListingOrder(total: nat, b0: Bytes, b1: Bytes)
    requires total == 2 && b0 + b1 != b1 + b0
    ensures var store := map[SegmentName(0, total) := b0, SegmentName(1, total) := b1];
            var listing := [(SegmentName(1, total), b1), (SegmentName(0, total), b0)];
            Enumerates(listing, store) && MergeOutput(listing) == b1 + b0 &&
            ConcatSegments(store, total, total) == b0 + b1 && MergeOutput(listing) != ConcatSegments(store, total, total)
  {
    var n0, n1 := SegmentName(0, total), SegmentName(1, total);
    TwoSegmentNames(total);
    EnumerationOfTwo(n0, n1, b0, b1);
    MergeOfTwo((n1, b1), (n0, b0));
    TwoSegmentsInOrder(total, b0, b1);
  }

  /** The two segment names of a playlist of two differ, and both are `.ts`. */
  lemma TwoSegmentNames(total: nat)
    requires total == 2
    ensures SegmentName(0, total) != SegmentName(1, total)
    ensures IsTs(SegmentName(0, total)) && IsTs(SegmentName(1, total))
  {
    SegmentNameShape(0, total);
    SegmentNameShape(1, total);
    SegmentNameIsTs(0, total);
    SegmentNameIsTs(1, total);
  }

  /** Playlist order of a two-segment directory. */
  lemma TwoSegmentsInOrder(total: nat, b0: Bytes, b1: Bytes)
    requires total == 2 && SegmentName(0, total) != SegmentName(1, total)
    ensures var store := map[SegmentName(0, total) := b0, SegmentName(1, total) := b1];
            AllPresent(store, total, total) && ConcatSegments(store, total, total) == b0 + b1
  {
    var store := map[SegmentName(0, total) := b0, SegmentName(1, total) := b1];
    assert ConcatSegments(store, total, 1) == [] + b0;
  }
}
