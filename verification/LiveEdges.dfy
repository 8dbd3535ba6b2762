/** What a history of adds and deletes leaves: the ends of the edges still there, counted. */
module LiveEdges {
  import opened TombstoneLog
  import opened EdgeStore
  import opened EdgeReader
  import opened EdgeDeletes
  import opened EdgeHistory
  import opened IdParser
  import opened Sequences

  /** The offsets the live entries below `n` lead to, each as often as there are such entries. */
  ghost function LiveOffsets(p: Parser, log: seq<Word>, n: nat): multiset<nat>
    requires p.Valid() && n <= |log|
  {
    if n == 0 then multiset{}
    else LiveOffsets(p, log, n - 1) + if IsLive(log, n - 1) then multiset{p.GetOffset(log[n - 1])} else multiset{}
  }

  /** The ends of the edges of a vertex, if every operation does what it is meant to do. */
  function EdgeStep(p: Parser, ends: multiset<nat>, op: Op): multiset<nat>
    requires p.Valid()
  {
    match op
    case Add(dst) => ends + multiset{p.GetOffset(dst)}
    case Delete(offset) => ends - multiset{offset}
    case DeleteEvery => multiset{}
  }

  function EdgesLeft(p: Parser, ops: seq<Op>): multiset<nat>
    requires p.Valid()
  {
    if ops == [] then multiset{} else EdgeStep(p, EdgesLeft(p, ops[..|ops| - 1]), ops[|ops| - 1])
  }

  /** The newest entry written for this offset is live, unless no entry for it is. */
  ghost predicate NewestIsLive(p: Parser, log: seq<Word>, offset: nat)
    requires p.Valid()
  {
    (exists q: nat :: IsLive(log, q) && p.GetOffset(log[q]) == offset) ==>
      exists n: nat :: IsLive(log, n) && p.GetOffset(log[n]) == offset
                       && forall k :: n < k < |log| && !IsTomb(log[k]) ==> p.GetOffset(log[k]) != offset
  }

  // ---------------------------------------------------------------- one operation

  lemma {:induction false} LiveOffsetsHas(p: Parser, log: seq<Word>, n: nat, offset: nat)
    requires p.Valid() && n <= |log|
    ensures offset in LiveOffsets(p, log, n) <==>
            exists q: nat :: q < n && IsLive(log, q) && p.GetOffset(log[q]) == offset
  {
    hide IsLive, Parser.GetOffset;
    if n > 0 {
      LiveOffsetsHas(p, log, n - 1, offset);
    }
  }

  lemma {:induction false} SameLiveOffsets(p: Parser, log: seq<Word>, log': seq<Word>, n: nat)
    requires p.Valid() && n <= |log| && n <= |log'| && log[..n] == log'[..n]
    requires forall q: nat :: q < n ==> (IsLive(log', q) <==> IsLive(log, q))
    ensures LiveOffsets(p, log', n) == LiveOffsets(p, log, n)
  {
    hide IsLive, Parser.GetOffset;
    if n > 0 {
      assert log[..n - 1] == log[..n][..n - 1] && log'[..n - 1] == log'[..n][..n - 1];
      assert log[n - 1] == log[..n][n - 1] == log'[..n][n - 1] == log'[n - 1];
      SameLiveOffsets(p, log, log', n - 1);
    }
  }

  /** An ordinary entry adds its offset once. */
  lemma AddCounts(p: Parser, log: seq<Word>, dst: Word)
    requires p.Valid() && WellFormed(log) && !IsTomb(dst)
    ensures LiveOffsets(p, log + [dst], |log| + 1) == LiveOffsets(p, log, |log|) + multiset{p.GetOffset(dst)}
  {
    AppendEntry(log, dst);
    var log' := log + [dst];
    assert !Named(log', |log|);
    assert log'[..|log|] == log == log[..|log|];
    assert forall q: nat :: q < |log| ==> log'[q] == log[q] && (IsLive(log', q) <==> IsLive(log, q));
    hide Named, IsTomb, WellFormed, Parser.GetOffset;
    SameLiveOffsets(p, log, log', |log|);
  }

  /** A tombstone cancels the position it names and no other. */
  lemma CancelsOne(log: seq<Word>, loc: nat, q: nat)
    requires loc < DELETE_FLAG && q < |log|
    ensures IsLive(log + [MakeTomb(loc)], q) <==> IsLive(log, q) && q != loc
  {
    var log' := log + [MakeTomb(loc)];
    assert IsTomb(log'[|log|]) && Target(log'[|log|]) == loc;
    if Named(log, q) {
      var k :| 0 <= k < |log| && IsTomb(log[k]) && Target(log[k]) == q;
      assert IsTomb(log'[k]) && Target(log'[k]) == q;
    }
  }

  /** It takes the offset of that entry once, if the entry was live. */
  lemma {:induction false} CancelCounts(p: Parser, log: seq<Word>, loc: nat, n: nat)
    requires p.Valid() && loc < |log| < DELETE_FLAG && n <= |log|
    ensures LiveOffsets(p, log, n) == LiveOffsets(p, log + [MakeTomb(loc)], n) +
              if loc < n && IsLive(log, loc) then multiset{p.GetOffset(log[loc])} else multiset{}
  {
    hide IsLive, MakeTomb, Parser.GetOffset;
    if n > 0 {
      CancelsOne(log, loc, n - 1);
      CancelCounts(p, log, loc, n - 1);
    }
  }

  /** A delete takes exactly one occurrence of its offset off the live ones, and leaves every other offset's
      count alone, if and only if the newest entry for it is live or none is. */
  lemma DeleteCountsIff(p: Parser, log: seq<Word>, offset: nat)
    requires p.Valid() && |log| < DELETE_FLAG
    ensures var loc := NewestMatch(p, offset, log);
            var log' := if loc.Some? then log + [MakeTomb(loc.value)] else log;
            LiveOffsets(p, log', |log'|) == LiveOffsets(p, log, |log|) - multiset{offset} <==>
            NewestIsLive(p, log, offset)
  {
    hide IsTomb, Parser.GetOffset, Named, MakeTomb, LiveOffsets, NewestMatch;
    var loc := NewestMatch(p, offset, log);
    NewestMatchIs(p, offset, log);
    MatchMeans(p, offset, log, loc);
    hide IsNewestMatch;
    LiveOffsetsHas(p, log, |log|, offset);
    NewestDecides(p, log, offset, loc);
    if loc.Some? {
      CancelCounts(p, log, loc.value, |log|);
      TombIsNotLive(p, log, loc.value);
    }
  }

  lemma NewestDecides(p: Parser, log: seq<Word>, offset: nat, loc: Option<nat>)
    requires p.Valid()
    requires loc.Some? ==> loc.value < |log| && p.GetOffset(log[loc.value]) == offset && !IsTomb(log[loc.value])
    requires forall n :: (if loc.Some? then loc.value + 1 else 0) <= n < |log| && !IsTomb(log[n]) ==>
               p.GetOffset(log[n]) != offset
    ensures NewestIsLive(p, log, offset) <==>
              (loc.Some? && IsLive(log, loc.value)) ||
              !exists q: nat :: IsLive(log, q) && p.GetOffset(log[q]) == offset
  {
    hide IsTomb, Parser.GetOffset, Named;
  }

  lemma TombIsNotLive(p: Parser, log: seq<Word>, loc: nat)
    requires p.Valid() && loc < DELETE_FLAG
    ensures LiveOffsets(p, log + [MakeTomb(loc)], |log| + 1) == LiveOffsets(p, log + [MakeTomb(loc)], |log|)
  {
  }

  // ---------------------------------------------------------------- deleting every edge

  /** Whatever the tombstones name, the walk passes over no live entry. */
  lemma {:induction false} WalkHasLive(log: seq<Word>, n: nat, heap: multiset<nat>, q: nat)
    requires n <= |log| && HeapCounts(log, n, heap) && q < n && IsLive(log, q)
    ensures q in Walk(log, n, heap)
    decreases n
  {
    NamingPositive(log, n, n - 1);
    hide HeapCounts;
    HeapStep(log, n, heap);
    if IsTomb(log[n - 1]) {
      WalkHasLive(log, n - 1, heap + multiset{Target(log[n - 1])}, q);
    } else if AtTop(heap, n - 1) {
      if q == n - 1 {
        NotOnHeap(log, n, heap);
      } else {
        WalkHasLive(log, n - 1, heap - multiset{n - 1}, q);
      }
    } else if q < n - 1 {
      WalkHasLive(log, n - 1, heap, q);
    }
  }

  lemma NotOnHeap(log: seq<Word>, n: nat, heap: multiset<nat>)
    requires 0 < n <= |log| && HeapCounts(log, n, heap) && IsLive(log, n - 1)
    ensures n - 1 !in heap
  {
    NamingPositive(log, n, n - 1);
    assert heap[n - 1] == Naming(log, n, n - 1);
  }

  /** After tombstones for these positions, only other positions are live. */
  lemma {:induction false} TombsCancel(log: seq<Word>, ps: seq<nat>, q: nat)
    requires forall k :: 0 <= k < |ps| ==> ps[k] < DELETE_FLAG
    ensures IsLive(log + Tombs(ps), q) ==> IsLive(log, q) && q !in ps
    decreases |ps|
  {
    hide IsLive, MakeTomb, IsTomb;
    if ps == [] {
      assert log + Tombs(ps) == log;
    } else {
      var log' := log + [MakeTomb(ps[0])];
      TombsCancel(log', ps[1..], q);
      Regroup(log, [MakeTomb(ps[0])], Tombs(ps[1..]));
      if IsLive(log', q) {
        LiveIsEntry(log, MakeTomb(ps[0]), q);
        CancelsOne(log, ps[0], q);
      }
    }
  }

  lemma LiveIsEntry(log: seq<Word>, w: Word, q: nat)
    requires IsTomb(w) && IsLive(log + [w], q)
    ensures q < |log|
  {
  }

  /** A vertex delete leaves no live edge, on any log: also on one that readers read wrong. */
  lemma DeleteEveryCounts(p: Parser, log: seq<Word>)
    requires p.Valid()
    requires forall k :: 0 <= k < |Walk(log, |log|, multiset{})| ==> Walk(log, |log|, multiset{})[k] < DELETE_FLAG
    ensures var log' := log + Tombs(Walk(log, |log|, multiset{}));
            LiveOffsets(p, log', |log'|) == multiset{}
  {
    var locs := Walk(log, |log|, multiset{});
    var log' := log + Tombs(locs);
    forall q: nat
      ensures !IsLive(log', q)
    {
      TombsCancel(log, locs, q);
      if IsLive(log, q) {
        WalkHasLive(log, |log|, multiset{}, q);
      }
    }
    hide IsLive;
    NothingLive(p, log', |log'|);
  }

  lemma {:induction false} NothingLive(p: Parser, log: seq<Word>, n: nat)
    requires p.Valid() && n <= |log| && forall q: nat :: !IsLive(log, q)
    ensures LiveOffsets(p, log, n) == multiset{}
  {
    hide IsLive;
    if n > 0 {
      NothingLive(p, log, n - 1);
    }
  }

  // ---------------------------------------------------------------- whole histories

  /** The delete finds the newest entry for its offset live, or no live one. */
  ghost predicate TakesOne(p: Parser, log: seq<Word>, op: Op)
    requires p.Valid()
  {
    op.Delete? ==> NewestIsLive(p, log, op.offset)
  }

  lemma StepCountsIff(p: Parser, log: seq<Word>, op: Op)
    requires p.Valid() && WellFormed(log) && Ordinary(op) && LogStep(p, log, op).Some?
    ensures var log' := LogStep(p, log, op).value;
            LiveOffsets(p, log', |log'|) == EdgeStep(p, LiveOffsets(p, log, |log|), op) <==> TakesOne(p, log, op)
  {
    hide WellFormed, Walk, IsTomb, NewestIsLive, LiveOffsets, NewestMatch;
    match op
    case Add(dst) =>
      AddCounts(p, log, dst);
    case Delete(offset) =>
      DeleteCountsIff(p, log, offset);
    case DeleteEvery =>
      WalkInRange(log, |log|, multiset{});
      DeleteEveryCounts(p, log);
  }

  /** After the first `k` operations the live edges are the ones that should be left. */
  ghost predicate CountsAt(p: Parser, ops: seq<Op>, k: nat)
    requires p.Valid() && k <= |ops|
  {
    LogAfter(p, ops[..k]).Some? &&
    var log := LogAfter(p, ops[..k]).value;
    LiveOffsets(p, log, |log|) == EdgesLeft(p, ops[..k])
  }

  ghost predicate TakesOneAt(p: Parser, ops: seq<Op>, k: nat)
    requires p.Valid() && k < |ops|
  {
    LogAfter(p, ops[..k]).Some? && TakesOne(p, LogAfter(p, ops[..k]).value, ops[k])
  }

  /** Over any history of ordinary adds and of deletes, the live edges are at every moment exactly those
      that the adds and deletes should have left, counted by the offsets they lead to, if and only if every
      delete found the newest entry for its offset live, or no live one. */
  lemma {:induction false} HistoryCountsIff(p: Parser, ops: seq<Op>)
    requires p.Valid() && (forall k :: 0 <= k < |ops| ==> Ordinary(ops[k])) && LogAfter(p, ops).Some?
    ensures (forall k :: 0 <= k <= |ops| ==> CountsAt(p, ops, k)) <==>
            (forall k :: 0 <= k < |ops| ==> TakesOneAt(p, ops, k))
    decreases |ops|
  {
    hide LogStep, LiveOffsets, TakesOne, EdgeStep, WellFormed;
    if ops == [] {
      assert ops[..0] == [];
      NoneYet(p);
    } else {
      var n := |ops| - 1;
      var front := ops[..n];
      assert forall k :: 0 <= k < n ==> front[k] == ops[k] && Ordinary(ops[k]);
      LogBefore(p, ops, n);
      HistoryCountsIff(p, front);
      HistoryNamesOnceIff(p, front);
      StepCountsIff(p, LogAfter(p, front).value, ops[n]);
      assert ops[..|ops|] == ops;
      assert CountsAt(p, ops, n) ==> (CountsAt(p, ops, n + 1) <==> TakesOneAt(p, ops, n));
      Fronts(p, ops, n);
      hide CountsAt, TakesOneAt;
    }
  }

  lemma NoneYet(p: Parser)
    requires p.Valid()
    ensures LiveOffsets(p, [], 0) == multiset{}
  {
  }

  lemma Fronts(p: Parser, ops: seq<Op>, n: nat)
    requires p.Valid() && n <= |ops|
    ensures forall k :: 0 <= k <= n ==> (CountsAt(p, ops[..n], k) <==> CountsAt(p, ops, k))
    ensures forall k :: 0 <= k < n ==> (TakesOneAt(p, ops[..n], k) <==> TakesOneAt(p, ops, k))
  {
    hide LogAfter, LiveOffsets, EdgesLeft, TakesOne;
    assert forall k :: 0 <= k <= n ==> ops[..n][..k] == ops[..k];
    assert forall k :: 0 <= k < n ==> ops[..n][k] == ops[k];
  }

  /** In particular when every delete names a live entry or nothing: the histories that are read right. */
  lemma HistoryCounts(p: Parser, ops: seq<Op>)
    requires p.Valid() && (forall k :: 0 <= k < |ops| ==> Ordinary(ops[k])) && LogAfter(p, ops).Some?
    requires DeletesNameLive(p, ops)
    ensures var log := LogAfter(p, ops).value;
            LiveOffsets(p, log, |log|) == EdgesLeft(p, ops)
  {
    forall k | 0 <= k < |ops|
      ensures TakesOneAt(p, ops, k)
    {
      NamedIsNewest(p, LogAfter(p, ops[..k]).value, ops[k]);
    }
    HistoryCountsIff(p, ops);
    hide TakesOneAt;
    assert CountsAt(p, ops, |ops|) && ops[..|ops|] == ops;
  }

  lemma NamedIsNewest(p: Parser, log: seq<Word>, op: Op)
    requires p.Valid() && NamesLive(p, log, op)
    ensures TakesOne(p, log, op)
  {
    if op.Delete? {
      NewestMatchIs(p, op.offset, log);
      MatchMeans(p, op.offset, log, NewestMatch(p, op.offset, log));
    }
  }

  // ---------------------------------------------------------------- what a reader gets

  function OffsetsRead<P>(p: Parser, edges: seq<(Word, P)>): multiset<nat>
    requires p.Valid()
  {
    if edges == [] then multiset{} else OffsetsRead(p, edges[1..]) + multiset{p.GetOffset(edges[0].0)}
  }

  /** Reading the live positions gives every live edge once. */
  lemma {:induction false} LiveRead<P>(p: Parser, log: seq<Word>, props: seq<P>, n: nat, edges: seq<(Word, P)>)
    requires p.Valid() && n <= |log| == |props|
    requires |edges| == |LiveBelow(log, n)|
    requires forall k :: 0 <= k < |edges| ==> LiveBelow(log, n)[k] < |log| && edges[k].0 == log[LiveBelow(log, n)[k]]
    ensures OffsetsRead(p, edges) == LiveOffsets(p, log, n)
  {
    hide IsLive, Parser.GetOffset;
    if n > 0 {
      if IsLive(log, n - 1) {
        assert LiveBelow(log, n)[1..] == LiveBelow(log, n - 1);
        LiveRead(p, log, props, n - 1, edges[1..]);
      } else {
        LiveRead(p, log, props, n - 1, edges);
      }
    }
  }

  /** A reader whose epoch reaches the last write gets exactly the edges that the adds and deletes should
      have left, however the history was spread over epochs. */
  lemma HistoryReadCounts<P>(p: Parser, ops: seq<Op>, es: seq<int>, props: seq<P>, r: int)
    requires p.Valid() && (forall k :: 0 <= k < |ops| ==> Ordinary(ops[k])) && LogAfter(p, ops).Some?
    requires DeletesNameLive(p, ops) && |es| == |props| == |LogAfter(p, ops).value|
    requires es == [] || es[|es| - 1] <= r
    ensures OffsetsRead(p, ReadsOf(LogAfter(p, ops).value, es, props, r)) == EdgesLeft(p, ops)
  {
    var log := LogAfter(p, ops).value;
    HistoryCounts(p, ops);
    HistoryReadsRight(p, ops, es, r);
    var all, edges := ReadsOfLog(log, es, props, r);
    hide LogAfter, DeletesNameLive, OffsetsRead, LiveOffsets, EdgesLeft, Walk, LiveBelow;
    assert Visible(es, r) == |log| && Snapshot(log, es, r) == log;
    LiveRead(p, log, props, |log|, ReadsOf(log, es, props, r));
  }
}
