/** The reader of one vertex's edges at a given epoch. */
module EdgeReader {
  import opened TombstoneLog
  import opened EdgeStore

  /** The log shows `entries` from position `start` on. */
  ghost predicate HoldsWords(log: seq<Word>, start: nat, entries: seq<Word>) {
    && start + |entries| <= |log|
    && forall j :: 0 <= j < |entries| ==> entries[j] == log[start + j]
  }

  /** Every block of the chain shows its stretch of the log. */
  ghost predicate ChainShows(bs: seq<EdgeBlock>, p: Ptr, log: seq<Word>)
    requires GoodBlocks(bs) && InArena(bs, p)
    decreases if p.At? then p.i + 1 else 0
  {
    p.At? ==>
      && HoldsWords(log, bs[p.i].prevNum, bs[p.i].entries)
      && GoodBlock(bs, p.i)
      && ChainShows(bs, bs[p.i].prev, log)
  }

  lemma {:induction false} ChainShowsItsLog(bs: seq<EdgeBlock>, p: Ptr, newer: seq<Word>)
    requires GoodBlocks(bs) && InArena(bs, p)
    ensures ChainShows(bs, p, ChainLog(bs, p) + newer)
    decreases if p.At? then p.i + 1 else 0
  {
    if p.At? {
      assert GoodBlock(bs, p.i);
      var older, entries := ChainLog(bs, bs[p.i].prev), bs[p.i].entries;
      ChainShowsItsLog(bs, bs[p.i].prev, entries + newer);
      assert older + (entries + newer) == ChainLog(bs, p) + newer == older + entries + newer;
    }
  }

  /** What a reader of block `i` knows about the block, and about the one before it. */
  lemma PreviousBlock<P>(bs: seq<EdgeBlock>, i: nat, log: seq<Word>, props: map<nat, P>, propLog: seq<P>)
    requires ChainReadable(bs, At(i), log, props, propLog)
    ensures HoldsWords(log, bs[i].prevNum, bs[i].entries)
    ensures var q := bs[i].prev;
            && ChainReadable(bs, q, log, props, propLog)
            && (q.Null? ==> bs[i].prevNum == 0)
            && (q.At? ==> q.i < i && bs[i].prevNum == bs[q.i].prevNum + |bs[q.i].entries|)
  {
    assert GoodBlock(bs, i);
  }

  /** The inner loop of the search: one block, from the cursor to its oldest entry. */
  method ScanEntries(entries: seq<Word>, start: nat, prevNum: nat, heap: multiset<nat>, ghost log: seq<Word>)
    returns (left: nat, deleteOffsets: multiset<nat>, found: bool)
    requires start <= |entries| && HoldsWords(log, prevNum, entries)
    ensures left <= start
    ensures Walk(log, prevNum + left, deleteOffsets) == Walk(log, prevNum + start, heap)
    ensures !found ==> left == 0
    ensures found ==> left > 0 && !IsTomb(log[prevNum + left - 1]) &&
                      !AtTop(deleteOffsets, prevNum + left - 1)
  {
    hide Walk;
    left, deleteOffsets, found := start, heap, false;
    while left != 0
      invariant left <= start
      invariant Walk(log, prevNum + left, deleteOffsets) == Walk(log, prevNum + start, heap)
    {
      var vid := entries[left - 1];
      if IsTomb(vid) {
        WalkTomb(log, prevNum + left, deleteOffsets);
        deleteOffsets := deleteOffsets + multiset{Target(vid)};
      } else if deleteOffsets == multiset{} {
        return left, deleteOffsets, true;
      } else {
        var top := TopOf(deleteOffsets);
        if top != left - 1 + prevNum {
          return left, deleteOffsets, true;
        }
        WalkSkip(log, prevNum + left, deleteOffsets);
        deleteOffsets := deleteOffsets - multiset{top};
      }
      left := left - 1;
    }
  }

  /** `find_next_valid_cursor`: from the cursor in block `h`, block by block, to the next entry that no
      tombstone seen so far cancels. */
  method FindValid<P>(blocks: seq<EdgeBlock>, h: nat, start: nat, heap: multiset<nat>, offset: nat,
                      ghost log: seq<Word>, ghost props: map<nat, P>, ghost propLog: seq<P>)
    returns (i: nat, left: nat, deleteOffsets: multiset<nat>, propOffset: nat)
    requires ChainReadable(blocks, At(h), log, props, propLog) && start <= |blocks[h].entries|
    ensures ChainReadable(blocks, At(i), log, props, propLog) && left <= |blocks[i].entries|
    ensures Walk(log, blocks[i].prevNum + left, deleteOffsets) == Walk(log, blocks[h].prevNum + start, heap)
    ensures blocks[i].prevNum + left <= blocks[h].prevNum + start
    ensures left == 0 ==> blocks[i].prevNum == 0
    ensures left > 0 ==> !IsTomb(log[blocks[i].prevNum + left - 1]) &&
                         !AtTop(deleteOffsets, blocks[i].prevNum + left - 1)
    ensures propOffset == if i == h then offset else blocks[i].slot
  {
    hide Walk, ChainShows, ChainHoldsProps, ChainLog, GoodBlocks, AtTop, IsTomb;
    i, left, deleteOffsets, propOffset := h, start, heap, offset;
    var found := false;
    while true
      invariant ChainReadable(blocks, At(i), log, props, propLog) && left <= |blocks[i].entries| && i <= h
      invariant blocks[i].prevNum + left <= blocks[h].prevNum + start
      invariant Walk(log, blocks[i].prevNum + left, deleteOffsets) == Walk(log, blocks[h].prevNum + start, heap)
      invariant propOffset == if i == h then offset else blocks[i].slot
      decreases i
    {
      PreviousBlock(blocks, i, log, props, propLog);
      left, deleteOffsets, found := ScanEntries(blocks[i].entries, left, blocks[i].prevNum, deleteOffsets, log);
      if found {
        return;
      }
      if blocks[i].prev.Null? {
        return;
      }
      i := blocks[i].prev.i;
      left := |blocks[i].entries|;
      propOffset := blocks[i].slot;
    }
  }

  /** `init`: cuts the chain at the read epoch.  The newest epoch row stands at index 0 of the table. */
  method CutAtEpoch<P>(blocks: seq<EdgeBlock>, h: nat, rows: seq<EpochRow>, numEntries: nat, readEpoch: int,
                       ghost epochs: seq<int>, ghost log: seq<Word>, ghost props: map<nat, P>, ghost propLog: seq<P>)
    returns (header: Ptr, left: nat)
    requires ChainReadable(blocks, At(h), log, props, propLog) && numEntries == |blocks[h].entries|
    requires |epochs| == |log| == blocks[h].prevNum + |blocks[h].entries|
    requires NonDecreasing(epochs) && RowsDescribe(rows, epochs)
    requires rows != [] && rows[|rows| - 1].offset < |epochs|
    ensures ChainReadable(blocks, header, log, props, propLog)
    ensures CursorAt(blocks, header, left, Visible(epochs, readEpoch))
  {
    hide ChainShows, ChainHoldsProps, ChainLog, GoodBlocks;
    var numEpochs := |rows|;
    var readEnd: int := -1;
    var idx := 0;
    while idx < numEpochs
      invariant 0 <= idx <= numEpochs && readEnd == -1
      invariant forall k :: numEpochs - idx <= k < numEpochs ==> readEpoch < rows[k].epoch
    {
      var cursor := numEpochs - 1 - idx;
      if readEpoch >= rows[cursor].epoch {
        RowVisible(rows, epochs, readEpoch, cursor);
        if idx == 0 {
          return At(h), numEntries;
        } else {
          readEnd := rows[cursor + 1].offset;
          break;
        }
      }
      idx := idx + 1;
    }
    if readEnd == -1 {
      NothingVisible(rows, epochs, readEpoch);
      NullReadable(blocks, log, props, propLog);
      header, left := Null, 0;
    } else {
      var i := h;
      while blocks[i].prevNum >= readEnd
        invariant ChainReadable(blocks, At(i), log, props, propLog)
        invariant 0 < readEnd <= blocks[i].prevNum + |blocks[i].entries|
        decreases i
      {
        PreviousBlock(blocks, i, log, props, propLog);
        i := blocks[i].prev.i;
      }
      header, left := At(i), readEnd - blocks[i].prevNum;
    }
  }

  /** The chain from `p` shows its part of the log and of the properties. */
  ghost predicate ChainReadable<P>(bs: seq<EdgeBlock>, p: Ptr, log: seq<Word>, props: map<nat, P>, propLog: seq<P>) {
    && GoodBlocks(bs) && InArena(bs, p)
    && |ChainLog(bs, p)| <= |log| == |propLog|
    && ChainShows(bs, p, log)
    && ChainHoldsProps(bs, p, props, propLog)
  }

  /** `ahead` words of the log are still ahead of a cursor `left` words before the end of block `p`. */
  ghost predicate CursorAt(bs: seq<EdgeBlock>, p: Ptr, left: nat, ahead: nat) {
    match p
    case Null => left == 0 && ahead == 0
    case At(i) => i < |bs| && left <= |bs[i].entries| && ahead == bs[i].prevNum + left
  }

  /** The cursor stands on an entry to be yielded, or at the very end. */
  ghost predicate CursorSettled(bs: seq<EdgeBlock>, p: Ptr, left: nat, heap: multiset<nat>, offset: nat, ahead: nat,
                                log: seq<Word>)
  {
    && CursorAt(bs, p, left, ahead)
    && ahead <= |log|
    && (left == 0 ==> ahead == 0)
    && (left > 0 ==> p.At? && offset == bs[p.i].slot)
    && (left > 0 ==> !IsTomb(log[ahead - 1]) && !AtTop(heap, ahead - 1))
  }

  /** The body of the constructor: cut at the epoch, then look for the first entry. */
  method OpenCursor<P>(blocks: seq<EdgeBlock>, h: nat, rows: seq<EpochRow>, readEpoch: int,
                       ghost epochs: seq<int>, ghost log: seq<Word>, ghost props: map<nat, P>, ghost propLog: seq<P>)
    returns (p: Ptr, left: nat, heap: multiset<nat>, offset: nat, ghost ahead: nat)
    requires ChainReadable(blocks, At(h), log, props, propLog)
    requires |epochs| == |log| == blocks[h].prevNum + |blocks[h].entries|
    requires NonDecreasing(epochs) && RowsDescribe(rows, epochs)
    requires rows != [] && rows[|rows| - 1].offset < |epochs|
    ensures ChainReadable(blocks, p, log, props, propLog)
    ensures CursorSettled(blocks, p, left, heap, offset, ahead, log)
    ensures Walk(log, ahead, heap) == Walk(log, Visible(epochs, readEpoch), multiset{})
  {
    CursorInRange(blocks, h, log, props, propLog);
    hide ChainReadable, Walk, AtTop, IsTomb, NonDecreasing, RowsDescribe, Visible;
    p, left := CutAtEpoch(blocks, h, rows, |blocks[h].entries|, readEpoch, epochs, log, props, propLog);
    heap, offset, ahead := multiset{}, 0, 0;
    if p.At? {
      var i, l, d, _ := FindValid(blocks, p.i, left, heap, 0, log, props, propLog);
      CursorInRange(blocks, i, log, props, propLog);
      p, left, heap, offset := At(i), l, d, blocks[i].slot;
      ahead := blocks[i].prevNum + l;
    }
  }

  class EdgeIterator<P> {
    const blocks: seq<EdgeBlock>        // the shared memory the iterator walks
    const props: map<nat, P>
    const readEpoch: int
    var header: Ptr                     // edge_block_header_
    var left: nat                       // entries_ - entries_cursor_
    var deleteOffsets: multiset<nat>
    var propOffset: nat                 // edge_prop_offset_
    ghost const log: seq<Word>          // the log the chain stands for
    ghost const propLog: seq<P>
    ghost var ahead: nat                // words of the log still ahead, the current one included

    /** The cursor is consistent, and it stands on an entry to be yielded or at the very end. */
    ghost predicate Valid()
      reads this
    {
      && ChainReadable(blocks, header, log, props, propLog)
      && CursorSettled(blocks, header, left, deleteOffsets, propOffset, ahead, log)
    }

    /** The log positions still to be yielded. */
    ghost function Remaining(): seq<nat>
      requires Valid()
      reads this
    {
      Walk(log, ahead, deleteOffsets)
    }

    /** Opens an iterator on the memory of `region`; the newest block's size is read here. */
    constructor (region: EdgeRegion<P>, readEpoch: int)
      requires region.Valid() && region.HeadInUse()
      ensures Valid()
      ensures log == region.Log() && propLog == region.propLog
      ensures Remaining() == Walk(region.Log(), Visible(region.epochs, readEpoch), multiset{})
    {
      blocks, props, this.readEpoch := region.blocks, region.props, readEpoch;
      log, propLog := region.Log(), region.propLog;
      header, left, deleteOffsets, propOffset, ahead := Null, 0, multiset{}, 0, 0;
      RegionReadable(region);
      NullReadable(region.blocks, region.Log(), region.props, region.propLog);
      if region.head.At? && region.rows != [] && region.blocks[region.head.i].entries != [] {
        var p, l, d, o, n := OpenCursor(region.blocks, region.head.i, region.rows, readEpoch,
                                        region.epochs, region.Log(), region.props, region.propLog);
        header, left, deleteOffsets, propOffset, ahead := p, l, d, o, n;
      }
    }

    method HasNext() returns (valid: bool)
      requires Valid()
      ensures valid <==> Remaining() != []
    {
      valid := left != 0;
    }

    method Next()
      requires Valid() && Remaining() != []
      modifies this
      ensures Valid()
      ensures Remaining() == old(Remaining())[1..]
    {
      hide ChainReadable;
      assert left > 0;
      WalkYield(log, ahead, deleteOffsets);
      hide Walk, AtTop, IsTomb;
      var i, l, d, o := FindValid(blocks, header.i, left - 1, deleteOffsets, propOffset, log, props, propLog);
      CursorInRange(blocks, i, log, props, propLog);
      header, left, deleteOffsets, propOffset := At(i), l, d, o;
      ahead := blocks[i].prevNum + l;
    }

    method Neighbor() returns (v: Word)
      requires Valid() && Remaining() != []
      ensures v == log[Remaining()[0]]
    {
      WalkYield(log, ahead, deleteOffsets);
      PreviousBlock(blocks, header.i, log, props, propLog);
      v := blocks[header.i].entries[left - 1];
    }

    /** `get_data`: slot `propOffset + left - 1`, the slot the writer filled for this very edge. */
    method GetData() returns (data: P)
      requires Valid() && Remaining() != []
      ensures data == propLog[Remaining()[0]]
    {
      WalkYield(log, ahead, deleteOffsets);
      var n := blocks[header.i].prevNum + (left - 1);
      assert SlotHolds(props, blocks[header.i].slot + (n - blocks[header.i].prevNum), propLog[n]);
      data := props[propOffset + left - 1];
    }
  }

  lemma RegionReadable<P>(region: EdgeRegion<P>)
    requires region.Valid()
    ensures ChainReadable(region.blocks, region.head, region.Log(), region.props, region.propLog)
    ensures region.head.Null? || region.rows == [] ==> region.epochs == []
  {
    ChainShowsItsLog(region.blocks, region.head, []);
    assert region.Log() + [] == region.Log();
  }

  lemma NullReadable<P>(bs: seq<EdgeBlock>, log: seq<Word>, props: map<nat, P>, propLog: seq<P>)
    requires GoodBlocks(bs) && |log| == |propLog|
    ensures ChainReadable(bs, Null, log, props, propLog)
  {
  }

  lemma CursorInRange<P>(bs: seq<EdgeBlock>, i: nat, log: seq<Word>, props: map<nat, P>, propLog: seq<P>)
    requires ChainReadable(bs, At(i), log, props, propLog)
    ensures i < |bs| && bs[i].prevNum + |bs[i].entries| <= |log|
  {
  }

  lemma RowVisible(rows: seq<EpochRow>, es: seq<int>, r: int, k: nat)
    requires RowsDescribe(rows, es) && NonDecreasing(es) && k < |rows|
    requires rows[k].epoch <= r
    requires forall l :: k < l < |rows| ==> r < rows[l].epoch
    ensures Visible(es, r) == RowEnd(rows, k, |es|)
  {
    var n := RowEnd(rows, k, |es|);
    forall i | 0 <= i < |es|
      ensures es[i] <= r <==> i < n
    {
      RowsSorted(rows, es, k, i);
      if k + 1 < |rows| {
        RowsSorted(rows, es, k + 1, i);
      }
    }
    VisibleUnique(es, r, n);
  }

  lemma NothingVisible(rows: seq<EpochRow>, es: seq<int>, r: int)
    requires RowsDescribe(rows, es) && NonDecreasing(es) && rows != []
    requires r < rows[0].epoch
    ensures Visible(es, r) == 0
  {
    forall i | 0 <= i < |es|
      ensures r < es[i]
    {
      RowsSorted(rows, es, 0, i);
    }
    VisibleUnique(es, r, 0);
  }

  lemma VisibleUnique(es: seq<int>, r: int, n: nat)
    requires NonDecreasing(es) && n <= |es|
    requires forall i :: 0 <= i < |es| ==> (es[i] <= r <==> i < n)
    ensures Visible(es, r) == n
  {
    var v := Visible(es, r);
    assert v < |es| ==> (es[v] <= r <==> v < n);
    assert n < |es| ==> (es[n] <= r <==> n < v);
  }

  // ---------------------------------------------------------------- a whole read

  /** The log prefix a reader of epoch `r` works on. */
  function Snapshot(log: seq<Word>, es: seq<int>, r: int): seq<Word>
    requires |log| == |es|
  {
    log[..Visible(es, r)]
  }

  /** Neighbours and properties in the order a reader of epoch `r` meets them. */
  ghost function ReadsOf<P>(log: seq<Word>, es: seq<int>, propLog: seq<P>, r: int): (edges: seq<(Word, P)>)
    requires |log| == |es| == |propLog|
  {
    var positions := Walk(Snapshot(log, es, r), Visible(es, r), multiset{});
    WalkInRange(Snapshot(log, es, r), Visible(es, r), multiset{});
    seq(|positions|, k requires 0 <= k < |positions| => (log[positions[k]], propLog[positions[k]]))
  }

  /** The same read off the whole log. */
  lemma ReadsOfLog<P>(log: seq<Word>, es: seq<int>, propLog: seq<P>, r: int)
    returns (all: seq<nat>, edges: seq<(Word, P)>)
    requires |log| == |es| == |propLog|
    ensures all == Walk(log, Visible(es, r), multiset{}) && edges == ReadsOf(log, es, propLog, r)
    ensures |edges| == |all| && forall k :: 0 <= k < |all| ==>
            all[k] < |log| && edges[k] == (log[all[k]], propLog[all[k]])
  {
    var n := Visible(es, r);
    WalkOfPrefix(log, log[..n], n, multiset{});
    WalkInRange(log, n, multiset{});
    all, edges := Walk(log, n, multiset{}), ReadsOf(log, es, propLog, r);
    hide Walk;
  }

  /** The usual loop `while (it.valid()) { ... it.next(); }`. */
  method ReadAt<P>(region: EdgeRegion<P>, readEpoch: int) returns (edges: seq<(Word, P)>)
    requires region.Valid() && region.HeadInUse()
    ensures edges == ReadsOf(region.Log(), region.epochs, region.propLog, readEpoch)
  {
    ghost var log, propLog := region.Log(), region.propLog;
    ghost var all, expected := ReadsOfLog(log, region.epochs, propLog, readEpoch);
    hide *;
    var it := new EdgeIterator(region, readEpoch);
    edges := [];
    var valid := it.HasNext();
    while valid
      invariant it.Valid() && it.log == log && it.propLog == propLog
      invariant valid <==> it.Remaining() != []
      invariant |edges| <= |all| && it.Remaining() == all[|edges|..]
      invariant edges == expected[..|edges|]
      decreases |all| - |edges|
    {
      assert it.Remaining()[0] == all[|edges|];
      var v := it.Neighbor();
      var data := it.GetData();
      it.Next();
      edges := edges + [(v, data)];
      valid := it.HasNext();
    }
  }

  /** Reading at an epoch yields the live entries of the log prefix visible at that epoch, newest
      first, if and only if that prefix is clean. */
  lemma ReadIsReplayIffClean(log: seq<Word>, es: seq<int>, r: int)
    requires WellFormed(log) && |log| == |es|
    ensures var snapshot := Snapshot(log, es, r);
            Walk(snapshot, |snapshot|, multiset{}) == Live(snapshot) <==> Clean(snapshot)
  {
    PrefixKeeps(log, Visible(es, r));
    WalkCorrectIffClean(Snapshot(log, es, r));
  }

  /** Whatever is written later at epochs above `r`, entries and tombstones alike, leaves the snapshot
      of `r`, and with it every read at `r`, as it was. */
  lemma {:induction false} SnapshotStable(log: seq<Word>, es: seq<int>, moreLog: seq<Word>, moreEs: seq<int>, r: int)
    requires |log| == |es| && |moreLog| == |moreEs|
    requires forall i :: 0 <= i < |moreEs| ==> r < moreEs[i]
    ensures Snapshot(log + moreLog, es + moreEs, r) == Snapshot(log, es, r)
  {
    if moreEs == [] {
      assert log + moreLog == log && es + moreEs == es;
    } else {
      var m := |moreEs| - 1;
      SnapshotStable(log, es, moreLog[..m], moreEs[..m], r);
      assert (es + moreEs)[..|es + moreEs| - 1] == es + moreEs[..m];
      assert (log + moreLog)[..|log| + m] == log + moreLog[..m];
      assert Visible(es + moreEs, r) == Visible(es + moreEs[..m], r);
    }
  }

  /** So do the neighbours and properties it yields. */
  lemma LaterWritesUnseen<P>(log: seq<Word>, es: seq<int>, propLog: seq<P>,
                             moreLog: seq<Word>, moreEs: seq<int>, moreProps: seq<P>, r: int)
    requires |log| == |es| == |propLog| && |moreLog| == |moreEs| == |moreProps|
    requires forall i :: 0 <= i < |moreEs| ==> r < moreEs[i]
    ensures ReadsOf(log + moreLog, es + moreEs, propLog + moreProps, r) == ReadsOf(log, es, propLog, r)
  {
    SnapshotStable(log, es, moreLog, moreEs, r);
    assert Visible(es + moreEs, r) == |Snapshot(log + moreLog, es + moreEs, r)| == Visible(es, r);
    WalkInRange(Snapshot(log, es, r), Visible(es, r), multiset{});
    hide Walk, Snapshot, Visible, IsTomb;
  }
}
