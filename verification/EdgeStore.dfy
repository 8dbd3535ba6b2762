/** The edges of one vertex, one edge label and one direction, as the writer keeps them.

    Edges live in a chain of blocks that grows backwards: a full block is first copied into a block
    of twice its size, and from `COPY_THRESHOLD_ORDER` on it stays where it is and a larger block is
    chained in front of it; when the segment has no room left the whole chain is merged into one
    block of a new segment.  An epoch table beside the blocks says how many edges were there when
    each epoch first wrote.  Blocks are addressed by their position in an arena, edge properties by
    their slot in the segment. */
module EdgeStore {
  import opened Powers
  import opened TombstoneLog

  datatype Ptr = Null | At(i: nat)

  datatype EdgeBlock = EdgeBlock(order: nat, entries: seq<Word>, prev: Ptr, prevNum: nat, slot: nat)
  {
    predicate HasSpace() {
      |entries| + 1 <= Pow2(order)
    }
  }

  datatype EpochRow = EpochRow(epoch: int, offset: nat)

  const DEFAULT_INIT_ORDER := 1
  const COPY_THRESHOLD_ORDER := 3
  /** `sizeof(VegitoEdgeBlockHeader) / sizeof(VegitoEdgeEntry)`. */
  const HEADER_SLOTS := 3

  // ---------------------------------------------------------------- block chains

  predicate InArena(bs: seq<EdgeBlock>, p: Ptr) {
    p.At? ==> p.i < |bs|
  }

  /** Block `i` is within its capacity and its back link, count and slots fit the block before it. */
  predicate GoodBlock(bs: seq<EdgeBlock>, i: nat)
    requires i < |bs|
  {
    var b := bs[i];
    && |b.entries| <= Pow2(b.order)
    && match b.prev
       case Null => b.prevNum == 0
       case At(j) =>
         && j < i
         && COPY_THRESHOLD_ORDER <= b.order
         && 0 < |bs[j].entries|
         && b.prevNum == bs[j].prevNum + |bs[j].entries|
         && bs[j].slot + Pow2(bs[j].order) <= b.slot
  }

  predicate GoodBlocks(bs: seq<EdgeBlock>) {
    forall i :: 0 <= i < |bs| ==> GoodBlock(bs, i)
  }

  /** The words of a chain, oldest first. */
  function ChainLog(bs: seq<EdgeBlock>, p: Ptr): (log: seq<Word>)
    requires GoodBlocks(bs) && InArena(bs, p)
    ensures p.Null? ==> log == []
    ensures p.At? ==> |log| == bs[p.i].prevNum + |bs[p.i].entries|
    decreases if p.At? then p.i + 1 else 0
  {
    match p
    case Null => []
    case At(i) =>
      assert GoodBlock(bs, i);
      ChainLog(bs, bs[i].prev) + bs[i].entries
  }

  /** The block that follows `chain[j]` on the way back; `last` follows the final one. */
  function NextOf(chain: seq<nat>, j: nat, last: Ptr): Ptr {
    if j + 1 < |chain| then At(chain[j + 1]) else last
  }

  predicate ChainLinked(bs: seq<EdgeBlock>, chain: seq<nat>, last: Ptr) {
    forall j :: 0 <= j < |chain| ==> chain[j] < |bs| && bs[chain[j]].prev == NextOf(chain, j, last)
  }

  lemma ChainLinkedExtend(bs: seq<EdgeBlock>, chain: seq<nat>, i: nat)
    requires ChainLinked(bs, chain, At(i)) && i < |bs|
    ensures ChainLinked(bs, chain + [i], bs[i].prev)
  {
    var chain' := chain + [i];
    forall j | 0 <= j < |chain'|
      ensures chain'[j] < |bs| && bs[chain'[j]].prev == NextOf(chain', j, bs[i].prev)
    {
      if j < |chain| {
        assert chain'[j] == chain[j] && bs[chain[j]].prev == NextOf(chain, j, At(i));
      }
    }
  }

  predicate SlotHolds<P(==)>(props: map<nat, P>, slot: int, value: P) {
    slot in props && props[slot] == value
  }

  /** Every edge of the chain finds in its slot the property that was stored with it. */
  ghost predicate ChainHoldsProps<P>(bs: seq<EdgeBlock>, p: Ptr, props: map<nat, P>, propLog: seq<P>)
    requires GoodBlocks(bs) && InArena(bs, p) && |ChainLog(bs, p)| <= |propLog|
    decreases if p.At? then p.i + 1 else 0
  {
    match p
    case Null => true
    case At(i) =>
      assert GoodBlock(bs, i);
      && (forall n :: bs[i].prevNum <= n < bs[i].prevNum + |bs[i].entries| ==>
            SlotHolds(props, bs[i].slot + (n - bs[i].prevNum), propLog[n]))
      && ChainHoldsProps(bs, bs[i].prev, props, propLog)
  }

  lemma {:induction false} ChainFrame(bs: seq<EdgeBlock>, bs': seq<EdgeBlock>, p: Ptr)
    requires GoodBlocks(bs) && GoodBlocks(bs') && InArena(bs, p) && InArena(bs', p)
    requires p.At? ==> forall i :: 0 <= i <= p.i ==> bs'[i] == bs[i]
    ensures ChainLog(bs', p) == ChainLog(bs, p)
    decreases if p.At? then p.i + 1 else 0
  {
    if p.At? {
      assert GoodBlock(bs, p.i);
      ChainFrame(bs, bs', bs[p.i].prev);
    }
  }

  /** Changing blocks after the chain, or slots above its blocks, does not disturb its properties. */
  lemma {:induction false} ChainPropsFrame<P>(bs: seq<EdgeBlock>, bs': seq<EdgeBlock>, p: Ptr,
                                              props: map<nat, P>, props': map<nat, P>,
                                              propLog: seq<P>, propLog': seq<P>, bound: nat)
    requires GoodBlocks(bs) && GoodBlocks(bs') && InArena(bs, p) && InArena(bs', p)
    requires p.At? ==> forall i :: 0 <= i <= p.i ==> bs'[i] == bs[i]
    requires p.At? ==> bs[p.i].slot + Pow2(bs[p.i].order) <= bound
    requires forall s: nat :: s < bound && s in props ==> s in props' && props'[s] == props[s]
    requires |ChainLog(bs, p)| <= |propLog| && propLog <= propLog'
    requires ChainHoldsProps(bs, p, props, propLog)
    ensures |ChainLog(bs', p)| <= |propLog'| && ChainHoldsProps(bs', p, props', propLog')
    decreases if p.At? then p.i + 1 else 0
  {
    ChainFrame(bs, bs', p);
    if p.At? {
      assert GoodBlock(bs, p.i);
      var q := bs[p.i].prev;
      ChainPropsFrame(bs, bs', q, props, props', propLog, propLog', bound);
      forall n | bs[p.i].prevNum <= n < bs[p.i].prevNum + |bs[p.i].entries|
        ensures SlotHolds(props', bs[p.i].slot + (n - bs[p.i].prevNum), propLog'[n])
      {
        assert SlotHolds(props, bs[p.i].slot + (n - bs[p.i].prevNum), propLog[n]);
      }
    }
  }

  // ---------------------------------------------------------------- the epoch table

  predicate NonDecreasing(es: seq<int>) {
    forall i, j :: 0 <= i <= j < |es| ==> es[i] <= es[j]
  }

  /** How many edges a reader of epoch `r` sees: the edges written at epoch `r` or before. */
  function Visible(es: seq<int>, r: int): (n: nat)
    ensures n <= |es|
    ensures NonDecreasing(es) ==> forall i :: 0 <= i < |es| ==> (es[i] <= r <==> i < n)
  {
    if es == [] then 0
    else if es[|es| - 1] <= r then |es|
    else Visible(es[..|es| - 1], r)
  }

  function RowEnd(rows: seq<EpochRow>, k: nat, n: nat): nat {
    if k + 1 < |rows| then rows[k + 1].offset else n
  }

  /** The rows partition the `n` edges by write epoch, oldest epoch first; the last row may still be
      waiting for its first edge. */
  ghost predicate RowsDescribe(rows: seq<EpochRow>, es: seq<int>) {
    && (forall k, l :: 0 <= k < l < |rows| ==> rows[k].epoch < rows[l].epoch && rows[k].offset < rows[l].offset)
    && (|rows| > 0 ==> rows[0].offset == 0 && rows[|rows| - 1].offset <= |es|)
    && (|rows| == 0 ==> |es| == 0)
    && (forall k, i :: 0 <= k < |rows| && rows[k].offset <= i < RowEnd(rows, k, |es|) ==> es[i] == rows[k].epoch)
  }

  /** `sizeof(EpochBlockHeader) + (n + 1) * sizeof(VegitoEpochEntry) <= block size`. */
  predicate TableFits(order: nat, n: nat) {
    32 + (n + 1) * 16 <= Pow2(order)
  }

  lemma TableGrowth(order: nat, n: nat)
    requires 32 + n * 16 <= Pow2(order)
    ensures TableFits(order + 1, n)
  {
  }

  lemma RowsSorted(rows: seq<EpochRow>, es: seq<int>, k: nat, i: nat)
    requires RowsDescribe(rows, es) && k < |rows| && i < |es| && NonDecreasing(es)
    ensures i < rows[k].offset ==> k > 0 && es[i] <= rows[k - 1].epoch
    ensures rows[k].offset <= i ==> rows[k].epoch <= es[i]
  {
    if i < rows[k].offset {
      var last := rows[k].offset - 1;
      assert rows[k - 1].offset <= last < RowEnd(rows, k - 1, |es|);
      assert es[last] == rows[k - 1].epoch;
    } else if rows[k].offset < |es| {
      var first := rows[k].offset;
      assert first < RowEnd(rows, k, |es|);
      assert es[first] == rows[k].epoch;
    }
  }

  lemma RowsOpen(rows: seq<EpochRow>, es: seq<int>, epoch: int)
    requires RowsDescribe(rows, es)
    requires rows != [] ==> rows[|rows| - 1].offset < |es| && rows[|rows| - 1].epoch < epoch
    ensures RowsDescribe(rows + [EpochRow(epoch, |es|)], es)
  {
    var rows' := rows + [EpochRow(epoch, |es|)];
    forall k, i | 0 <= k < |rows'| && rows'[k].offset <= i < RowEnd(rows', k, |es|)
      ensures es[i] == rows'[k].epoch
    {
      assert i < RowEnd(rows, k, |es|);
    }
  }

  lemma RowsFirst(epoch: int, es: seq<int>)
    requires es == []
    ensures RowsDescribe([EpochRow(epoch, 0)], es)
  {
  }

  lemma RowsGrow(rows: seq<EpochRow>, es: seq<int>)
    requires rows != [] && RowsDescribe(rows, es)
    ensures RowsDescribe(rows, es + [rows[|rows| - 1].epoch])
  {
    var es' := es + [rows[|rows| - 1].epoch];
    forall k, i | 0 <= k < |rows| && rows[k].offset <= i < RowEnd(rows, k, |es'|)
      ensures es'[i] == rows[k].epoch
    {
      if i < |es| {
        assert i < RowEnd(rows, k, |es|);
      } else {
        assert k == |rows| - 1;
      }
    }
  }

  lemma RowsKeepOrder(rows: seq<EpochRow>, es: seq<int>)
    requires rows != [] && RowsDescribe(rows, es) && NonDecreasing(es)
    ensures NonDecreasing(es + [rows[|rows| - 1].epoch])
  {
    var last := |rows| - 1;
    forall i | 0 <= i < |es|
      ensures es[i] <= rows[last].epoch
    {
      if rows[last].offset <= i {
        assert i < RowEnd(rows, last, |es|);
      } else {
        RowsSorted(rows, es, last, i);
      }
    }
  }

  // ---------------------------------------------------------------- the writer

  class EdgeRegion<P> {
    var blocks: seq<EdgeBlock>      // every block ever allocated for this vertex
    var head: Ptr                   // region pointer: the newest block
    var rows: seq<EpochRow>         // epoch table, oldest row first
    var latestEpoch: int
    var tableOrder: nat
    var props: map<nat, P>          // property slots of the current segment
    var usedSlots: nat              // edge slots handed out by the current segment
    ghost var epochs: seq<int>      // epoch under which each edge of the log was written
    ghost var propLog: seq<P>       // property each edge of the log was written with

    ghost predicate ValidBlocks()
      reads this
    {
      && GoodBlocks(blocks) && InArena(blocks, head)
      && |ChainLog(blocks, head)| == |epochs| == |propLog|
      && ChainHoldsProps(blocks, head, props, propLog)
      && (head.At? ==> head.i == |blocks| - 1)
      && (head.At? ==> blocks[head.i].slot + Pow2(blocks[head.i].order) <= usedSlots)
    }

    ghost predicate ValidTable()
      reads this
    {
      && NonDecreasing(epochs)
      && RowsDescribe(rows, epochs)
      && (rows != [] ==> rows[|rows| - 1].offset < |epochs|)
      && (rows != [] ==> latestEpoch == rows[|rows| - 1].epoch)
      && (rows != [] ==> 32 + |rows| * 16 <= Pow2(tableOrder))
    }

    ghost predicate Valid()
      reads this
    {
      ValidBlocks() && ValidTable()
    }

    /** Between two writes the newest block is never empty. */
    predicate HeadInUse()
      requires InArena(blocks, head)
      reads this
    {
      head.At? ==> blocks[head.i].entries != []
    }

    /** The edges and tombstones written so far, oldest first. */
    ghost function Log(): seq<Word>
      requires GoodBlocks(blocks) && InArena(blocks, head)
      reads this
    {
      ChainLog(blocks, head)
    }

    constructor ()
      ensures Valid() && HeadInUse() && Log() == [] && epochs == [] && propLog == []
    {
      blocks, head, rows := [], Null, [];
      latestEpoch, tableOrder := 0, 0;
      props, usedSlots := map[], 0;
      epochs, propLog := [], [];
    }

    /** `VegitoSegmentHeader::alloc`: other vertices of the segment took `others` slots meanwhile. */
    method AllocSlots(order: nat, others: nat) returns (slot: nat)
      modifies this`usedSlots
      ensures slot == old(usedSlots) + others && usedSlots == slot + HEADER_SLOTS + Pow2(order)
    {
      slot := usedSlots + others;
      usedSlots := slot + HEADER_SLOTS + Pow2(order);
    }

    /** Installs `b` as the newest block. */
    method InstallHead(b: EdgeBlock, newProps: map<nat, P>)
      requires GoodBlocks(blocks) && InArena(blocks, head)
      requires GoodBlock(blocks + [b], |blocks|)
      modifies this`blocks, this`head, this`props
      ensures blocks == old(blocks) + [b] && head == At(|old(blocks)|) && props == newProps
      ensures GoodBlocks(blocks) && Log() == ChainLog(old(blocks), b.prev) + b.entries
    {
      assert forall i :: 0 <= i < |blocks| ==> GoodBlock(blocks, i);
      assert forall i :: 0 <= i < |blocks| ==> GoodBlock(blocks + [b], i) by {
        forall i | 0 <= i < |blocks|
          ensures GoodBlock(blocks + [b], i)
        {
          assert GoodBlock(blocks, i);
        }
      }
      ChainFrame(blocks, blocks + [b], b.prev);
      blocks, head, props := blocks + [b], At(|blocks|), newProps;
    }

    /** A full block, or none: allocate one of the next order in the same segment. */
    method GrowInSegment(others: nat)
      requires Valid() && (head.At? ==> !blocks[head.i].HasSpace())
      modifies this`blocks, this`head, this`props, this`usedSlots
      ensures Valid() && Log() == old(Log())
      ensures head.At? && blocks[head.i].HasSpace()
    {
      var order := if head.At? then blocks[head.i].order + 1 else DEFAULT_INIT_ORDER;
      var slot := AllocSlots(order, others);
      if order >= COPY_THRESHOLD_ORDER {
        ChainInFront(order, slot);
      } else {
        CopyInto(order, slot);
      }
    }

    method ChainInFront(order: nat, slot: nat)
      requires GoodBlocks(blocks) && InArena(blocks, head) && |Log()| == |epochs| == |propLog|
      requires ChainHoldsProps(blocks, head, props, propLog)
      requires head.At? ==> !blocks[head.i].HasSpace() && blocks[head.i].slot + Pow2(blocks[head.i].order) <= slot
      requires slot + Pow2(order) <= usedSlots && COPY_THRESHOLD_ORDER <= order
      modifies this`blocks, this`head, this`props
      ensures ValidBlocks() && Log() == old(Log())
      ensures head.At? && blocks[head.i].HasSpace()
    {
      var prevNum := if head.At? then blocks[head.i].prevNum + |blocks[head.i].entries| else 0;
      ghost var bs, p := blocks, head;
      InstallHead(EdgeBlock(order, [], head, prevNum, slot), props);
      if p.At? {
        assert GoodBlock(bs, p.i);
      }
      ChainPropsFrame(bs, blocks, p, props, props, propLog, propLog, slot);
    }

    method CopyInto(order: nat, slot: nat)
      requires GoodBlocks(blocks) && InArena(blocks, head) && |Log()| == |epochs| == |propLog|
      requires ChainHoldsProps(blocks, head, props, propLog)
      requires order == if head.At? then blocks[head.i].order + 1 else DEFAULT_INIT_ORDER
      requires order < COPY_THRESHOLD_ORDER
      requires head.At? ==> blocks[head.i].slot + Pow2(blocks[head.i].order) <= slot
      requires slot + Pow2(order) <= usedSlots
      modifies this`blocks, this`head, this`props
      ensures ValidBlocks() && Log() == old(Log())
      ensures head.At? && blocks[head.i].HasSpace()
    {
      var copied: seq<Word>, newProps: map<nat, P> := [], props;
      if head.At? {
        var b := blocks[head.i];
        assert GoodBlock(blocks, head.i);
        for i := 0 to |b.entries|
          invariant copied == b.entries[..i]
          invariant forall s: nat :: s < slot && s in props ==> s in newProps && newProps[s] == props[s]
          invariant forall n :: 0 <= n < i ==> SlotHolds(newProps, slot + n, propLog[n])
        {
          assert SlotHolds(props, b.slot + (i - b.prevNum), propLog[i]);
          copied := copied + [b.entries[i]];
          newProps := newProps[slot + i := newProps[b.slot + i]];
        }
      }
      InstallHead(EdgeBlock(order, copied, Null, 0, slot), newProps);
    }

    /** The segment is full: merge the chain into one block, at `slot` of a new segment.
        `merge_segment` for this vertex. */
    method Merge(slot: nat, others: nat)
      requires Valid()
      modifies this`blocks, this`head, this`props, this`usedSlots
      ensures Valid() && Log() == old(Log())
      ensures head.At? && blocks[head.i].HasSpace()
    {
      var chain, total := ChainBlocks();
      var order := SizeToOrder(total + 1);
      var merged, newProps := MergeBlocks(chain, slot);
      InstallMerged(EdgeBlock(order, merged, Null, 0, slot), newProps);
      usedSlots := slot + HEADER_SLOTS + Pow2(order) + others;
    }

    method InstallMerged(b: EdgeBlock, newProps: map<nat, P>)
      requires ValidBlocks()
      requires b.prev.Null? && b.prevNum == 0 && b.entries == Log() && |b.entries| <= Pow2(b.order)
      requires HoldsLog(newProps, b.slot, |b.entries|)
      modifies this`blocks, this`head, this`props
      ensures GoodBlocks(blocks) && head == At(|old(blocks)|) && blocks == old(blocks) + [b]
      ensures Log() == old(Log())
      ensures ChainHoldsProps(blocks, head, props, propLog)
    {
      InstallHead(b, newProps);
      forall n | 0 <= n < |b.entries|
        ensures SlotHolds(newProps, b.slot + (n - b.prevNum), propLog[n])
      {
        assert SlotHolds(newProps, b.slot + n, propLog[n]);
      }
    }

    /** Copies the blocks oldest first, edge by edge. */
    method MergeBlocks(chain: seq<nat>, slot: nat) returns (merged: seq<Word>, newProps: map<nat, P>)
      requires ValidBlocks() && ChainLinked(blocks, chain, Null)
      requires head == NextOf([0] + chain, 0, Null)
      requires forall k :: 0 <= k < |chain| ==> HoldsProps(chain[k])
      ensures merged == Log()
      ensures |merged| <= |propLog| && HoldsLog(newProps, slot, |merged|)
    {
      hide ChainHoldsProps, ChainLog, GoodBlock, HoldsLog, ChainLinked, HoldsProps;
      merged, newProps := NothingMerged(slot);
      var j := |chain|;
      MergeEnds(chain);
      while j > 0
        invariant 0 <= j <= |chain| && (j < |chain| ==> chain[j] < |blocks|)
        invariant merged == ChainLog(blocks, if j < |chain| then At(chain[j]) else Null)
        invariant |merged| <= |propLog| && HoldsLog(newProps, slot, |merged|)
      {
        j := j - 1;
        MergeNext(chain, j);
        merged, newProps := MergeBlock(chain[j], slot, merged, newProps);
      }
    }

    method NothingMerged(slot: nat) returns (merged: seq<Word>, newProps: map<nat, P>)
      ensures merged == [] && HoldsLog(newProps, slot, 0)
    {
      merged, newProps := [], map[];
    }

    lemma MergeEnds(chain: seq<nat>)
      requires ValidBlocks() && ChainLinked(blocks, chain, Null) && head == NextOf([0] + chain, 0, Null)
      ensures ChainLog(blocks, Null) == []
      ensures Log() == ChainLog(blocks, if chain != [] then At(chain[0]) else Null)
    {
    }

    /** What copying the block at place `j` of the chain relies on. */
    lemma MergeNext(chain: seq<nat>, j: nat)
      requires ValidBlocks() && ChainLinked(blocks, chain, Null) && j < |chain|
      ensures chain[j] < |blocks| && GoodBlock(blocks, chain[j])
      ensures blocks[chain[j]].prev == if j + 1 < |chain| then At(chain[j + 1]) else Null
    {
      assert blocks[chain[j]].prev == NextOf(chain, j, Null);
    }

    /** The first `n` properties of the log stand in the slots from `slot` on. */
    ghost predicate HoldsLog(ps: map<nat, P>, slot: nat, n: nat)
      requires n <= |propLog|
      reads this`propLog
    {
      forall k :: 0 <= k < n ==> SlotHolds(ps, slot + k, propLog[k])
    }

    method MergeBlock(i: nat, slot: nat, older: seq<Word>, olderProps: map<nat, P>)
      returns (merged: seq<Word>, newProps: map<nat, P>)
      requires GoodBlocks(blocks) && i < |blocks| && HoldsProps(i)
      requires GoodBlock(blocks, i) && older == ChainLog(blocks, blocks[i].prev)
      requires |older| <= |propLog| && HoldsLog(olderProps, slot, |older|)
      ensures merged == ChainLog(blocks, At(i))
      ensures |merged| <= |propLog| && HoldsLog(newProps, slot, |merged|)
    {
      var b := blocks[i];
      assert GoodBlock(blocks, i);
      merged, newProps := older, olderProps;
      for k := 0 to |b.entries|
        invariant merged == older + b.entries[..k]
        invariant |merged| <= |propLog| && HoldsLog(newProps, slot, |merged|)
      {
        assert SlotHolds(props, b.slot + (|merged| - b.prevNum), propLog[|merged|]);
        newProps := newProps[slot + |merged| := props[b.slot + k]];
        merged := merged + [b.entries[k]];
      }
    }

    ghost predicate HoldsProps(i: nat)
      requires GoodBlocks(blocks) && i < |blocks|
      reads this
    {
      && |ChainLog(blocks, At(i))| <= |propLog|
      && ChainHoldsProps(blocks, At(i), props, propLog)
    }

    /** The blocks of the chain, newest first, and how many words they hold. */
    method ChainBlocks() returns (chain: seq<nat>, total: nat)
      requires ValidBlocks()
      ensures total == |Log()|
      ensures head == NextOf([0] + chain, 0, Null)
      ensures ChainLinked(blocks, chain, Null)
      ensures forall j :: 0 <= j < |chain| ==> HoldsProps(chain[j])
    {
      chain, total := [], 0;
      var p := head;
      while p.At?
        invariant InArena(blocks, p)
        invariant total + |ChainLog(blocks, p)| == |Log()|
        invariant ChainHoldsProps(blocks, p, props, propLog)
        invariant head == NextOf([0] + chain, 0, p)
        invariant ChainLinked(blocks, chain, p)
        invariant forall j :: 0 <= j < |chain| ==> HoldsProps(chain[j])
        decreases if p.At? then p.i + 1 else 0
      {
        assert GoodBlock(blocks, p.i);
        ChainLinkedExtend(blocks, chain, p.i);
        chain := chain + [p.i];
        total := total + |blocks[p.i].entries|;
        p := blocks[p.i].prev;
      }
    }

    /** The epoch-table part of `put_edge`: a first write opens the table at offset 0, a later epoch
        adds a row at the current number of edges, in a table of twice the size when this one is
        full. */
    method NoteEpoch(writeEpoch: int)
      requires ValidTable() && head.At? && head.i < |blocks|
      requires blocks[head.i].prevNum + |blocks[head.i].entries| == |epochs|
      modifies this`rows, this`latestEpoch, this`tableOrder
      ensures rows != [] && RowsDescribe(rows, epochs)
      ensures latestEpoch == rows[|rows| - 1].epoch && 32 + |rows| * 16 <= Pow2(tableOrder)
      ensures latestEpoch == old(NextEpoch(writeEpoch))
    {
      assert rows == [] ==> epochs == [];
      hide RowsDescribe;
      var table, latest, order := rows, latestEpoch, tableOrder;
      var edges := blocks[head.i].prevNum + |blocks[head.i].entries|;
      if table == [] {
        order := SizeToOrder(32 + 16);
        table, latest := [EpochRow(writeEpoch, 0)], writeEpoch;
        RowsFirst(writeEpoch, epochs);
      }
      if writeEpoch > latest {
        if !TableFits(order, |table|) {
          TableGrowth(order, |table|);
          order := order + 1;
        }
        latest := writeEpoch;
        if TableFits(order, |table|) {
          RowsOpen(table, epochs, writeEpoch);
          table := table + [EpochRow(writeEpoch, edges)];
        }
      }
      rows, latestEpoch, tableOrder := table, latest, order;
    }

    /** The epoch a write at `writeEpoch` is filed under. */
    ghost function NextEpoch(writeEpoch: int): int
      reads this
    {
      if rows == [] || writeEpoch > latestEpoch then writeEpoch else latestEpoch
    }

    /** The newest epoch in the table is the one the last edge was written under. */
    lemma LatestIsLast()
      requires ValidTable()
      ensures rows == [] <==> epochs == []
      ensures rows != [] ==> latestEpoch == epochs[|epochs| - 1]
    {
      if rows != [] {
        var last := |rows| - 1;
        assert rows[last].offset <= |epochs| - 1 < RowEnd(rows, last, |epochs|);
      }
    }

    /** `put_edge`.  `room` is the allocator's answer; `others` and `newSlot` say what other vertices
        of the segment took.  One word and its property are appended to the log, under the larger of
        the write epoch and the newest epoch already in the table. */
    method PutEdge(dst: Word, prop: P, writeEpoch: int, room: bool, others: nat, newSlot: nat)
      requires Valid()
      modifies this
      ensures Valid() && HeadInUse()
      ensures Log() == old(Log()) + [dst]
      ensures propLog == old(propLog) + [prop]
      ensures epochs == old(epochs) + [old(NextEpoch(writeEpoch))]
      ensures NextEpoch(writeEpoch) == old(NextEpoch(writeEpoch))
      ensures var n := |old(epochs)|;
              epochs[n] == if n == 0 || writeEpoch > old(epochs)[n - 1] then writeEpoch else old(epochs)[n - 1]
    {
      LatestIsLast();
      hide ChainHoldsProps, RowsDescribe, NonDecreasing;
      if head.Null? || !blocks[head.i].HasSpace() {
        if room {
          GrowInSegment(others);
        } else {
          Merge(newSlot, others);
        }
      }
      NoteEpoch(writeEpoch);
      AppendEdge(dst, prop);
    }

    /** `VegitoEdgeBlockHeader::append` and `append_property`. */
    method AppendEdge(dst: Word, prop: P)
      requires ValidBlocks() && head.At? && blocks[head.i].HasSpace()
      requires NonDecreasing(epochs) && rows != [] && RowsDescribe(rows, epochs)
      requires latestEpoch == rows[|rows| - 1].epoch && 32 + |rows| * 16 <= Pow2(tableOrder)
      modifies this`blocks, this`props, this`epochs, this`propLog
      ensures Valid() && HeadInUse()
      ensures Log() == old(Log()) + [dst]
      ensures propLog == old(propLog) + [prop] && epochs == old(epochs) + [latestEpoch]
    {
      assert rows[|rows| - 1].offset <= |epochs|;
      hide ChainHoldsProps, RowsDescribe, NonDecreasing;
      AppendWord(dst, prop);
      RowsGrow(rows, epochs);
      RowsKeepOrder(rows, epochs);
      epochs := epochs + [latestEpoch];
      propLog := propLog + [prop];
    }

    method AppendWord(dst: Word, prop: P)
      requires ValidBlocks() && head.At? && blocks[head.i].HasSpace()
      modifies this`blocks, this`props
      ensures GoodBlocks(blocks) && head.At? && head.i == |blocks| - 1 && HeadInUse()
      ensures Log() == old(Log()) + [dst]
      ensures ChainHoldsProps(blocks, head, props, propLog + [prop])
      ensures blocks[head.i].slot + Pow2(blocks[head.i].order) <= usedSlots
    {
      ghost var bs, ps := blocks, props;
      var h := head.i;
      var b := blocks[h];
      props := props[b.slot + |b.entries| := prop];
      blocks := blocks[h := b.(entries := b.entries + [dst])];
      forall i | 0 <= i < |blocks|
        ensures GoodBlock(blocks, i)
      {
        assert GoodBlock(bs, i) && GoodBlock(bs, h);
      }
      ChainFrame(bs, blocks, b.prev);
      ChainPropsFrame(bs, blocks, b.prev, ps, props, propLog, propLog + [prop], b.slot);
    }
  }
}
