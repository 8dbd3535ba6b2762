/** Deleting edges: the writer searches the blocks for the entry to cancel and appends a tombstone. */
module EdgeDeletes {
  import opened TombstoneLog
  import opened EdgeStore
  import opened EdgeReader
  import opened IdParser
  import opened Sequences

  datatype Option<T> = None | Some(value: T)

  /** An ordinary entry whose other end has this offset. */
  predicate Matches(p: Parser, offset: nat, w: Word)
    requires p.Valid()
  {
    p.GetOffset(w) == offset && !IsTomb(w)
  }

  /** `pos` is the newest match, live or not; this is all the search looks at. */
  ghost predicate IsNewestMatch(p: Parser, offset: nat, log: seq<Word>, pos: Option<nat>)
    requires p.Valid()
  {
    match pos
    case None => forall k :: 0 <= k < |log| ==> !Matches(p, offset, log[k])
    case Some(n) =>
      && n < |log| && Matches(p, offset, log[n])
      && forall k :: n < k < |log| ==> !Matches(p, offset, log[k])
  }

  function SumFrom(counts: seq<nat>, i: nat): nat
    decreases |counts| - i
  {
    if i >= |counts| then 0 else counts[i] + SumFrom(counts, i + 1)
  }

  lemma {:induction false} SumSplit(counts: seq<nat>, i: nat, j: nat)
    requires i <= j <= |counts|
    ensures SumFrom(counts, i) == SumFrom(counts[..j], i) + SumFrom(counts, j)
    decreases j - i
  {
    if i < j {
      SumSplit(counts, i + 1, j);
    }
  }

  /** For each block of the chain, how many words the older blocks hold. */
  method PrefixSums(counts: seq<nat>) returns (sums: seq<nat>)
    ensures |sums| == |counts|
    ensures forall i :: 0 <= i < |sums| ==> sums[i] == SumFrom(counts, i + 1)
  {
    sums := [];
    for i := 0 to |counts|
      invariant |sums| == i
      invariant forall k :: 0 <= k < i ==> sums[k] == SumFrom(counts, k + 1)
    {
      var sum := 0;
      for j := i + 1 to |counts|
        invariant sum == SumFrom(counts[..j], i + 1)
      {
        SumSplit(counts[..j + 1], i + 1, j);
        assert counts[..j + 1][..j] == counts[..j];
        assert SumFrom(counts[..j + 1], j) == counts[j] + SumFrom(counts[..j + 1], j + 1);
        sum := sum + counts[j];
      }
      assert counts[..|counts|] == counts;
      sums := sums + [sum];
    }
  }

  /** The chain and its block sizes, newest first. */
  method ChainCounts(blocks: seq<EdgeBlock>, h: nat) returns (chain: seq<nat>, counts: seq<nat>)
    requires GoodBlocks(blocks) && h < |blocks|
    ensures ChainLinked(blocks, chain, Null) && chain != [] && chain[0] == h
    ensures |counts| == |chain|
    ensures forall k :: 0 <= k < |chain| ==> chain[k] < |blocks| && counts[k] == |blocks[chain[k]].entries|
  {
    assert GoodBlock(blocks, h);
    chain, counts := [h], [|blocks[h].entries|];
    var cur := blocks[h].prev;
    while cur.At?
      invariant ChainLinked(blocks, chain, cur) && chain != [] && chain[0] == h
      invariant cur.At? ==> cur.i < chain[|chain| - 1]
      invariant |counts| == |chain|
      invariant forall k :: 0 <= k < |chain| ==> chain[k] < |blocks| && counts[k] == |blocks[chain[k]].entries|
      decreases if cur.At? then cur.i + 1 else 0
    {
      assert GoodBlock(blocks, cur.i);
      ChainLinkedExtend(blocks, chain, cur.i);
      chain, counts := chain + [cur.i], counts + [|blocks[cur.i].entries|];
      cur := blocks[cur.i].prev;
    }
  }

  lemma {:induction false} PrefixSumIsPrevNum(bs: seq<EdgeBlock>, chain: seq<nat>, counts: seq<nat>, i: nat)
    requires GoodBlocks(bs) && ChainLinked(bs, chain, Null) && i < |chain| == |counts|
    requires forall k :: 0 <= k < |chain| ==> chain[k] < |bs| && counts[k] == |bs[chain[k]].entries|
    ensures chain[i] < |bs| && SumFrom(counts, i + 1) == bs[chain[i]].prevNum
    decreases |chain| - i
  {
    assert chain[i] < |bs|;
    assert GoodBlock(bs, chain[i]);
    assert bs[chain[i]].prev == NextOf(chain, i, Null);
    if i + 1 < |chain| {
      PrefixSumIsPrevNum(bs, chain, counts, i + 1);
    }
  }

  /** The inner search loop: the newest match of one block. */
  method FindInBlock(p: Parser, offset: nat, entries: seq<Word>) returns (k: Option<nat>)
    requires p.Valid()
    ensures IsNewestMatch(p, offset, entries, k)
    ensures k.Some? ==> k.value < |entries| && p.GetOffset(entries[k.value]) == offset && !IsTomb(entries[k.value])
    ensures forall j :: (if k.Some? then k.value + 1 else 0) <= j < |entries| && !IsTomb(entries[j]) ==>
              p.GetOffset(entries[j]) != offset
  {
    var left: nat := |entries|;
    while left != 0
      invariant left <= |entries|
      invariant forall k :: left <= k < |entries| ==> !Matches(p, offset, entries[k])
    {
      if Matches(p, offset, entries[left - 1]) {
        return Some(left - 1);
      }
      left := left - 1;
    }
    return None;
  }

  lemma MatchInBlock(p: Parser, offset: nat, log: seq<Word>, start: nat, entries: seq<Word>, k: Option<nat>)
    requires p.Valid() && HoldsWords(log, start, entries) && IsNewestMatch(p, offset, entries, k)
    requires forall n :: start + |entries| <= n < |log| ==> !Matches(p, offset, log[n])
    ensures k.Some? ==> IsNewestMatch(p, offset, log, Some(start + k.value))
    ensures k.None? ==> forall n :: start <= n < |log| ==> !Matches(p, offset, log[n])
  {
    forall n | start <= n < |log| && (k.Some? ==> start + k.value < n)
      ensures !Matches(p, offset, log[n])
    {
      if n < start + |entries| {
        assert entries[n - start] == log[n];
      }
    }
  }

  /** What the newest match is: the newest ordinary entry whose word carries this offset. */
  lemma MatchMeans(p: Parser, offset: nat, log: seq<Word>, loc: Option<nat>)
    requires p.Valid() && IsNewestMatch(p, offset, log, loc)
    ensures loc.Some? ==> loc.value < |log| && p.GetOffset(log[loc.value]) == offset && !IsTomb(log[loc.value])
    ensures forall n :: (if loc.Some? then loc.value + 1 else 0) <= n < |log| && !IsTomb(log[n]) ==>
              p.GetOffset(log[n]) != offset
  {
  }

  /** The search of `process_del_edge`: block by block, newest entry first. */
  method FindNewest<P>(blocks: seq<EdgeBlock>, h: nat, p: Parser, offset: nat,
                       ghost log: seq<Word>, ghost props: map<nat, P>, ghost propLog: seq<P>)
    returns (loc: Option<nat>)
    requires p.Valid() && ChainReadable(blocks, At(h), log, props, propLog)
    requires blocks[h].prevNum + |blocks[h].entries| == |log|
    ensures IsNewestMatch(p, offset, log, loc)
    ensures loc.Some? ==> loc.value < |log| && p.GetOffset(log[loc.value]) == offset && !IsTomb(log[loc.value])
    ensures forall n :: (if loc.Some? then loc.value + 1 else 0) <= n < |log| && !IsTomb(log[n]) ==>
              p.GetOffset(log[n]) != offset
  {
    hide ChainShows, ChainHoldsProps, ChainLog, GoodBlock, HoldsWords, Matches;
    var chain, counts := ChainCounts(blocks, h);
    var sums := PrefixSums(counts);
    var i, segment := h, 0;
    while true
      invariant ChainReadable(blocks, At(i), log, props, propLog)
      invariant segment < |chain| && i == chain[segment]
      invariant forall n :: blocks[i].prevNum + |blocks[i].entries| <= n < |log| ==> !Matches(p, offset, log[n])
      decreases i
    {
      PreviousBlock(blocks, i, log, props, propLog);
      PrefixSumIsPrevNum(blocks, chain, counts, segment);
      var k := FindInBlock(p, offset, blocks[i].entries);
      MatchInBlock(p, offset, log, blocks[i].prevNum, blocks[i].entries, k);
      if k.Some? {
        MatchMeans(p, offset, log, Some(k.value + sums[segment]));
        return Some(k.value + sums[segment]);
      }
      if blocks[i].prev.Null? {
        MatchMeans(p, offset, log, None);
        return None;
      }
      assert blocks[i].prev == NextOf(chain, segment, Null);
      i := blocks[i].prev.i;
      segment := segment + 1;
    }
  }

  /** One side of `process_del_edge`: cancel the newest entry that leads to `offset`.  A miss is logged by
      the source and changes nothing. */
  method DeleteEdge<P>(region: EdgeRegion<P>, p: Parser, offset: nat, blank: P, writeEpoch: int,
                       room: bool, others: nat, newSlot: nat)
    returns (loc: Option<nat>)
    requires region.Valid() && region.HeadInUse() && p.Valid() && region.head.At? && |region.Log()| < DELETE_FLAG
    modifies region
    ensures region.Valid() && region.HeadInUse()
    ensures IsNewestMatch(p, offset, old(region.Log()), loc)
    ensures loc.Some? ==>
              && loc.value < |old(region.Log())| && p.GetOffset(old(region.Log())[loc.value]) == offset
              && !IsTomb(old(region.Log())[loc.value])
    ensures forall n :: (if loc.Some? then loc.value + 1 else 0) <= n < |old(region.Log())| ==>
              !IsTomb(old(region.Log())[n]) ==> p.GetOffset(old(region.Log())[n]) != offset
    ensures loc.None? ==>
              && region.Log() == old(region.Log()) && region.epochs == old(region.epochs)
              && region.propLog == old(region.propLog)
    ensures loc.Some? ==>
              && region.Log() == old(region.Log()) + [MakeTomb(loc.value)]
              && region.propLog == old(region.propLog) + [blank]
              && region.epochs == old(region.epochs) + [old(region.NextEpoch(writeEpoch))]
  {
    RegionReadable(region);
    loc := FindNewest(region.blocks, region.head.i, p, offset, region.Log(), region.props, region.propLog);
    if loc.Some? {
      region.PutEdge(MakeTomb(loc.value), blank, writeEpoch, room, others, newSlot);
    }
  }

  /** What a delete does to the live edges: the newest match disappears if it was still live; if an
      earlier delete had already cancelled it, nothing disappears although older matches may be live,
      and the log loses the property that no position is named twice. */
  lemma DeleteOutcome(p: Parser, offset: nat, log: seq<Word>, loc: nat)
    requires p.Valid() && WellFormed(log) && NamedAtMostOnce(log) && |log| < DELETE_FLAG
    requires IsNewestMatch(p, offset, log, Some(loc))
    ensures WellFormed(log + [MakeTomb(loc)])
    ensures Live(log + [MakeTomb(loc)]) == Without(Live(log), loc)
    ensures IsLive(log, loc) <==> |Live(log + [MakeTomb(loc)])| < |Live(log)|
    ensures IsLive(log, loc) <==> NamedAtMostOnce(log + [MakeTomb(loc)])
  {
    AppendTomb(log, loc);
    AppendKeepsNamedOnce(log, MakeTomb(loc));
    LiveBelowElements(log, |log|, loc);
    WithoutShrinks(Live(log), loc);
  }

  lemma {:induction false} WithoutShrinks(s: seq<nat>, x: nat)
    ensures |Without(s, x)| <= |s|
    ensures |Without(s, x)| < |s| <==> x in s
  {
    if s != [] {
      WithoutShrinks(s[1..], x);
    }
  }

  /** Two parallel edges deleted twice: the second delete names the same entry again, one edge stays. */
  lemma ParallelEdgeSurvives(p: Parser, w: Word)
    requires p.Valid() && !IsTomb(w)
    ensures var log := [w, w];
            var offset := p.GetOffset(w);
            && IsNewestMatch(p, offset, log, Some(1))
            && IsNewestMatch(p, offset, log + [MakeTomb(1)], Some(1))
            && 0 in Live(log + [MakeTomb(1)] + [MakeTomb(1)])
  {
    var log := [w, w, MakeTomb(1), MakeTomb(1)];
    assert [w, w] + [MakeTomb(1)] + [MakeTomb(1)] == log;
    LiveBelowElements(log, 4, 0);
  }

  // ---------------------------------------------------------------- deleting every edge of a vertex

  /** The tombstones for a list of positions, in that order. */
  function Tombs(ps: seq<nat>): seq<Word>
    requires forall k :: 0 <= k < |ps| ==> ps[k] < DELETE_FLAG
  {
    if ps == [] then [] else [MakeTomb(ps[0])] + Tombs(ps[1..])
  }

  /** The collecting loop of `process_del_vertex`: the same heap-driven walk over the whole log. */
  method CollectLive<P>(region: EdgeRegion<P>) returns (locs: seq<nat>)
    requires region.Valid()
    ensures locs == Walk(region.Log(), |region.Log()|, multiset{})
  {
    RegionReadable(region);
    locs := [];
    if region.head.Null? {
      return;
    }
    var blocks, i := region.blocks, region.head.i;
    locs := CollectFrom(blocks, i, region.Log(), region.props, region.propLog);
  }

  method CollectFrom<P>(blocks: seq<EdgeBlock>, h: nat,
                        ghost log: seq<Word>, ghost props: map<nat, P>, ghost propLog: seq<P>)
    returns (locs: seq<nat>)
    requires ChainReadable(blocks, At(h), log, props, propLog)
    requires blocks[h].prevNum + |blocks[h].entries| == |log|
    ensures locs == Walk(log, |log|, multiset{})
  {
    hide Walk, ChainReadable, AtTop, IsTomb, ChainLog, GoodBlocks;
    CursorInRange(blocks, h, log, props, propLog);
    ghost var all := Walk(log, |log|, multiset{});
    var i: nat, left: nat, heap: multiset<nat> := h, |blocks[h].entries|, multiset{};
    locs := [];
    while true
      invariant ChainReadable(blocks, At(i), log, props, propLog)
      invariant i < |blocks| && left <= |blocks[i].entries| && blocks[i].prevNum + left <= |log|
      invariant all == locs + Walk(log, blocks[i].prevNum + left, heap)
      decreases blocks[i].prevNum + left
    {
      var j, l, d, _ := FindValid(blocks, i, left, heap, 0, log, props, propLog);
      CursorInRange(blocks, j, log, props, propLog);
      if l == 0 {
        WalkEnd(log, d);
        return;
      }
      var n := blocks[j].prevNum + l;
      WalkYield(log, n, d);
      Regroup(locs, [n - 1], Walk(log, n - 1, d));
      locs := locs + [n - 1];
      i, left, heap := j, l - 1, d;
    }
  }

  /** Deletes every edge of the region, newest first. */
  method DeleteAll<P>(region: EdgeRegion<P>, blank: P, writeEpoch: int, room: bool, others: nat, newSlot: nat)
    returns (locs: seq<nat>)
    requires region.Valid() && region.HeadInUse() && |region.Log()| < DELETE_FLAG
    modifies region
    ensures region.Valid() && region.HeadInUse()
    ensures locs == Walk(old(region.Log()), |old(region.Log())|, multiset{})
    ensures forall k :: 0 <= k < |locs| ==> locs[k] < DELETE_FLAG
    ensures region.Log() == old(region.Log()) + Tombs(locs)
    ensures region.propLog == old(region.propLog) + seq(|locs|, _ => blank)
    ensures region.epochs == old(region.epochs) + seq(|locs|, _ => old(region.NextEpoch(writeEpoch)))
  {
    locs := CollectLive(region);
    WalkInRange(region.Log(), |region.Log()|, multiset{});
    hide *;
    CancelAll(region, locs, blank, writeEpoch, room, others, newSlot);
  }

  /** The second loop: a tombstone for every position collected. */
  method CancelAll<P>(region: EdgeRegion<P>, locs: seq<nat>, blank: P, writeEpoch: int, room: bool, others: nat,
                      newSlot: nat)
    requires region.Valid() && region.HeadInUse() && forall k :: 0 <= k < |locs| ==> locs[k] < DELETE_FLAG
    modifies region
    ensures region.Valid() && region.HeadInUse()
    ensures region.Log() == old(region.Log()) + Tombs(locs)
    ensures region.propLog == old(region.propLog) + seq(|locs|, _ => blank)
    ensures region.epochs == old(region.epochs) + seq(|locs|, _ => old(region.NextEpoch(writeEpoch)))
  {
    hide Tombs, TombstoneLog.MakeTomb, WellFormed;
    ghost var epoch := region.NextEpoch(writeEpoch);
    var done := 0;
    NoTombs();
    assert locs[..0] == [] && old(region.Log()) + [] == region.Log();
    while done < |locs|
      invariant 0 <= done <= |locs| && region.Valid() && region.HeadInUse()
      invariant region.Log() == old(region.Log()) + Tombs(locs[..done])
      invariant region.propLog == old(region.propLog) + seq(done, _ => blank)
      invariant region.NextEpoch(writeEpoch) == epoch
      invariant region.epochs == old(region.epochs) + seq(done, _ => epoch)
    {
      TombsExtend(locs, done);
      Repeat(blank, done);
      Repeat(epoch, done);
      region.PutEdge(MakeTomb(locs[done]), blank, writeEpoch, room, others, newSlot);
      done := done + 1;
    }
    assert locs[..done] == locs;
  }

  lemma NoTombs()
    ensures Tombs([]) == []
  {
  }

  lemma Repeat<T>(x: T, n: nat)
    ensures seq(n + 1, _ => x) == seq(n, _ => x) + [x] && seq(0, _ => x) == []
  {
  }

  lemma {:induction false} TombsExtend(ps: seq<nat>, n: nat)
    requires n < |ps| && forall k :: 0 <= k < |ps| ==> ps[k] < DELETE_FLAG
    ensures Tombs(ps[..n + 1]) == Tombs(ps[..n]) + [MakeTomb(ps[n])]
  {
    if n == 0 {
      assert ps[..1] == [ps[0]];
    } else {
      TombsExtend(ps[1..], n - 1);
      assert ps[1..][..n] == ps[..n + 1][1..] && ps[1..][..n - 1] == ps[..n][1..];
    }
  }

  /** Cancelling the newest live entry leaves the others. */
  lemma DeleteNewest(log: seq<Word>, loc: nat)
    requires WellFormed(log) && NamedAtMostOnce(log) && |log| < DELETE_FLAG
    requires Live(log) != [] && loc == Live(log)[0]
    ensures loc < |log|
    ensures WellFormed(log + [MakeTomb(loc)]) && NamedAtMostOnce(log + [MakeTomb(loc)])
    ensures Live(log + [MakeTomb(loc)]) == Live(log)[1..]
  {
    LiveBelowElements(log, |log|, loc);
    AppendTomb(log, loc);
    AppendKeepsNamedOnce(log, MakeTomb(loc));
    LiveDescends(log, |log|);
    WithoutAbsent(Live(log)[1..], loc);
  }

  /** After that nothing is live, and no position is named twice. */
  lemma {:induction false} DeleteAllEmpties(log: seq<Word>, ps: seq<nat>)
    requires WellFormed(log) && NamedAtMostOnce(log) && |log| + |ps| < DELETE_FLAG
    requires ps == Live(log)
    requires forall k :: 0 <= k < |ps| ==> ps[k] < DELETE_FLAG
    ensures WellFormed(log + Tombs(ps)) && NamedAtMostOnce(log + Tombs(ps)) && Live(log + Tombs(ps)) == []
    decreases |ps|
  {
    hide WellFormed, NamedAtMostOnce, Live, IsTomb, Target;
    if ps == [] {
      assert log + Tombs(ps) == log;
    } else {
      DeleteNewest(log, ps[0]);
      var log' := log + [MakeTomb(ps[0])];
      DeleteAllEmpties(log', ps[1..]);
      assert log + Tombs(ps) == log' + Tombs(ps[1..]);
    }
  }

  lemma {:induction false} LiveDescends(log: seq<Word>, n: nat)
    requires n <= |log|
    ensures forall k :: 0 <= k < |LiveBelow(log, n)| ==> LiveBelow(log, n)[k] < n
    ensures LiveBelow(log, n) != [] ==> LiveBelow(log, n)[0] !in LiveBelow(log, n)[1..]
  {
    if n > 0 {
      LiveDescends(log, n - 1);
    }
  }

  lemma {:induction false} WithoutAbsent(s: seq<nat>, x: nat)
    requires x !in s
    ensures Without(s, x) == s
  {
    if s != [] {
      WithoutAbsent(s[1..], x);
    }
  }
}
