/** Whole histories of one vertex's edges: which of them leave a log that every reader reads right, and
    what a reader sees of later writes. */
module EdgeHistory {
  import opened TombstoneLog
  import opened EdgeStore
  import opened EdgeReader
  import opened EdgeDeletes
  import opened IdParser
  import opened Sequences

  /** What can happen to the edges of one vertex: an edge is added, the newest edge to an offset is deleted,
      all edges are deleted. */
  datatype Op = Add(dst: Word) | Delete(offset: nat) | DeleteEvery

  function NewestMatch(p: Parser, offset: nat, log: seq<Word>): (loc: Option<nat>)
    requires p.Valid()
    ensures loc.Some? ==> loc.value < |log|
  {
    if log == [] then None
    else if Matches(p, offset, log[|log| - 1]) then Some(|log| - 1)
    else NewestMatch(p, offset, log[..|log| - 1])
  }

  lemma {:induction false} NewestMatchIs(p: Parser, offset: nat, log: seq<Word>)
    requires p.Valid()
    ensures IsNewestMatch(p, offset, log, NewestMatch(p, offset, log))
  {
    hide Matches;
    if log != [] {
      var front := log[..|log| - 1];
      NewestMatchIs(p, offset, front);
      assert forall k :: 0 <= k < |front| ==> front[k] == log[k];
    }
  }

  lemma NewestMatchUnique(p: Parser, offset: nat, log: seq<Word>, a: Option<nat>, b: Option<nat>)
    requires p.Valid() && IsNewestMatch(p, offset, log, a) && IsNewestMatch(p, offset, log, b)
    ensures a == b
  {
  }

  /** The log after one operation; none when it has outgrown the 63 bits of a position. */
  ghost function LogStep(p: Parser, log: seq<Word>, op: Op): Option<seq<Word>>
    requires p.Valid()
  {
    if |log| >= DELETE_FLAG then None
    else match op
      case Add(dst) => Some(log + [dst])
      case Delete(offset) =>
        var loc := NewestMatch(p, offset, log);
        Some(if loc.Some? then log + [MakeTomb(loc.value)] else log)
      case DeleteEvery =>
        WalkInRange(log, |log|, multiset{});
        var locs := Walk(log, |log|, multiset{});
        if |log| + |locs| < DELETE_FLAG then Some(log + Tombs(locs)) else None
  }

  ghost function LogAfter(p: Parser, ops: seq<Op>): Option<seq<Word>>
    requires p.Valid()
  {
    if ops == [] then Some([])
    else
      var before := LogAfter(p, ops[..|ops| - 1]);
      if before.None? then None else LogStep(p, before.value, ops[|ops| - 1])
  }

  lemma {:induction false} LogBefore(p: Parser, ops: seq<Op>, k: nat)
    requires p.Valid() && LogAfter(p, ops).Some? && k <= |ops|
    ensures LogAfter(p, ops[..k]).Some?
    decreases |ops|
  {
    if k == |ops| {
      assert ops[..k] == ops;
    } else {
      LogBefore(p, ops[..|ops| - 1], k);
      assert ops[..|ops| - 1][..k] == ops[..k];
    }
  }

  predicate Ordinary(op: Op) {
    op.Add? ==> !IsTomb(op.dst)
  }

  /** The delete names a live entry, or nothing. */
  ghost predicate NamesLive(p: Parser, log: seq<Word>, op: Op)
    requires p.Valid()
  {
    op.Delete? && NewestMatch(p, op.offset, log).Some? ==> IsLive(log, NewestMatch(p, op.offset, log).value)
  }

  /** Before every operation the log is there, and every delete names a live entry or nothing. */
  ghost predicate DeletesNameLive(p: Parser, ops: seq<Op>)
    requires p.Valid()
  {
    forall k :: 0 <= k < |ops| ==> LogAfter(p, ops[..k]).Some? && NamesLive(p, LogAfter(p, ops[..k]).value, ops[k])
  }

  lemma StepKeeps(p: Parser, log: seq<Word>, op: Op)
    requires p.Valid() && WellFormed(log) && Ordinary(op) && LogStep(p, log, op).Some?
    ensures var log' := LogStep(p, log, op).value;
            && WellFormed(log')
            && (NamedAtMostOnce(log') <==> NamedAtMostOnce(log) && NamesLive(p, log, op))
  {
    hide WellFormed, NamedAtMostOnce, Walk, IsTomb, IsLive, IsNewestMatch;
    match op
    case Add(dst) =>
      AddKeeps(log, dst);
    case Delete(offset) =>
      NewestMatchIs(p, offset, log);
      if NewestMatch(p, offset, log).Some? {
        DeleteKeeps(p, offset, log, NewestMatch(p, offset, log).value);
      }
    case DeleteEvery =>
      WalkInRange(log, |log|, multiset{});
      DeleteEveryKeeps(log);
  }

  lemma AddKeeps(log: seq<Word>, w: Word)
    requires WellFormed(log) && !IsTomb(w)
    ensures WellFormed(log + [w]) && (NamedAtMostOnce(log + [w]) <==> NamedAtMostOnce(log))
  {
    AppendEntry(log, w);
    OnceBefore(log, log + [w]);
    hide NamedAtMostOnce;
    if NamedAtMostOnce(log) {
      AppendKeepsNamedOnce(log, w);
    }
  }

  lemma DeleteKeeps(p: Parser, offset: nat, log: seq<Word>, loc: nat)
    requires p.Valid() && WellFormed(log) && |log| < DELETE_FLAG && IsNewestMatch(p, offset, log, Some(loc))
    ensures WellFormed(log + [MakeTomb(loc)])
    ensures NamedAtMostOnce(log + [MakeTomb(loc)]) <==> NamedAtMostOnce(log) && IsLive(log, loc)
  {
    AppendTomb(log, loc);
    OnceBefore(log, log + [MakeTomb(loc)]);
    hide NamedAtMostOnce, WellFormed, IsLive;
    if NamedAtMostOnce(log) {
      DeleteOutcome(p, offset, log, loc);
    }
  }

  lemma DeleteEveryKeeps(log: seq<Word>)
    requires WellFormed(log)
    requires forall k :: 0 <= k < |Walk(log, |log|, multiset{})| ==> Walk(log, |log|, multiset{})[k] < DELETE_FLAG
    requires |log| + |Walk(log, |log|, multiset{})| < DELETE_FLAG
    ensures var log' := log + Tombs(Walk(log, |log|, multiset{}));
            WellFormed(log') && (NamedAtMostOnce(log') <==> NamedAtMostOnce(log))
  {
    WalkInRange(log, |log|, multiset{});
    var locs := Walk(log, |log|, multiset{});
    hide Walk;
    TombsKeepWellFormed(log, locs);
    OnceBefore(log, log + Tombs(locs));
    if NamedAtMostOnce(log) {
      NamedOnceIsClean(log);
      WalkCorrectIffClean(log);
      DeleteAllEmpties(log, locs);
    }
  }

  lemma OnceBefore(log: seq<Word>, log': seq<Word>)
    requires log <= log'
    ensures NamedAtMostOnce(log') ==> NamedAtMostOnce(log)
  {
    PrefixKeeps(log', |log|);
    assert log'[..|log|] == log;
  }

  lemma {:induction false} TombsKeepWellFormed(log: seq<Word>, ps: seq<nat>)
    requires WellFormed(log) && |log| + |ps| < DELETE_FLAG
    requires forall k :: 0 <= k < |ps| ==> ps[k] < DELETE_FLAG && ps[k] < |log| && !IsTomb(log[ps[k]])
    ensures WellFormed(log + Tombs(ps))
    decreases |ps|
  {
    hide WellFormed, IsTomb, MakeTomb;
    if ps == [] {
      assert log + Tombs(ps) == log;
    } else {
      AppendTomb(log, ps[0]);
      var log', rest := log + [MakeTomb(ps[0])], ps[1..];
      assert forall k :: 0 <= k < |rest| ==> rest[k] == ps[k + 1] && log'[rest[k]] == log[rest[k]];
      TombsKeepWellFormed(log', rest);
      Regroup(log, [MakeTomb(ps[0])], Tombs(rest));
    }
  }

  /** Any history of ordinary adds and of deletes leaves a log whose tombstones name ordinary entries before
      them; no position is named twice if and only if every delete named an entry that was still live. */
  lemma {:induction false} HistoryNamesOnceIff(p: Parser, ops: seq<Op>)
    requires p.Valid() && (forall k :: 0 <= k < |ops| ==> Ordinary(ops[k])) && LogAfter(p, ops).Some?
    ensures WellFormed(LogAfter(p, ops).value)
    ensures NamedAtMostOnce(LogAfter(p, ops).value) <==> DeletesNameLive(p, ops)
  {
    if ops != [] {
      var n := |ops| - 1;
      assert forall k :: 0 <= k < n ==> ops[..n][k] == ops[k] && Ordinary(ops[k]);
      HistoryNamesOnceIff(p, ops[..n]);
      StepKeeps(p, LogAfter(p, ops[..n]).value, ops[n]);
      DeletesBefore(p, ops, n);
    }
  }

  lemma DeletesBefore(p: Parser, ops: seq<Op>, n: nat)
    requires p.Valid() && n + 1 == |ops| && LogAfter(p, ops[..n]).Some?
    ensures DeletesNameLive(p, ops) <==>
            DeletesNameLive(p, ops[..n]) && NamesLive(p, LogAfter(p, ops[..n]).value, ops[n])
  {
    hide LogAfter, NamesLive;
    assert forall k :: 0 <= k < n ==> ops[..n][..k] == ops[..k] && ops[..n][k] == ops[k];
  }

  /** Then a read at any epoch is the replay of the log prefix visible at that epoch. */
  lemma HistoryReadsRight(p: Parser, ops: seq<Op>, es: seq<int>, r: int)
    requires p.Valid() && (forall k :: 0 <= k < |ops| ==> Ordinary(ops[k])) && LogAfter(p, ops).Some?
    requires DeletesNameLive(p, ops) && |es| == |LogAfter(p, ops).value|
    ensures var snapshot := Snapshot(LogAfter(p, ops).value, es, r);
            Walk(snapshot, |snapshot|, multiset{}) == Live(snapshot)
  {
    HistoryNamesOnceIff(p, ops);
    var log := LogAfter(p, ops).value;
    hide LogAfter, DeletesNameLive, Walk, WellFormed, NamedAtMostOnce;
    ReadIsReplayIffClean(log, es, r);
    PrefixKeeps(log, Visible(es, r));
    NamedOnceIsClean(Snapshot(log, es, r));
  }

  // ---------------------------------------------------------------- on a region

  /** What else an operation needs: the property stored with it, its epoch, and what the allocator does. */
  datatype Placing<P> = Placing(prop: P, epoch: int, room: bool, others: nat, newSlot: nat)

  /** Applies a history to a vertex that has no edges yet.  A delete on a vertex without a block finds
      nothing. */
  method ApplyAll<P>(p: Parser, ops: seq<Op>, placings: seq<Placing<P>>) returns (region: EdgeRegion<P>)
    requires p.Valid() && |placings| == |ops| && LogAfter(p, ops).Some?
    ensures region.Valid() && region.HeadInUse() && region.Log() == LogAfter(p, ops).value
  {
    region := new EdgeRegion();
    assert ops[..0] == [];
    for k := 0 to |ops|
      invariant fresh(region) && region.Valid() && region.HeadInUse()
      invariant LogAfter(p, ops[..k]).Some? && region.Log() == LogAfter(p, ops[..k]).value
    {
      LogBefore(p, ops, k + 1);
      assert ops[..k + 1][..k] == ops[..k];
      ApplyOne(region, p, ops[k], placings[k]);
    }
    assert ops[..|ops|] == ops;
  }

  method ApplyOne<P>(region: EdgeRegion<P>, p: Parser, op: Op, at: Placing<P>)
    requires region.Valid() && region.HeadInUse() && p.Valid() && LogStep(p, region.Log(), op).Some?
    modifies region
    ensures region.Valid() && region.HeadInUse()
    ensures LogStep(p, old(region.Log()), op) == Some(region.Log())
  {
    match op
    case Add(dst) =>
      region.PutEdge(dst, at.prop, at.epoch, at.room, at.others, at.newSlot);
    case Delete(offset) =>
      if region.head.Null? {
        return;
      }
      var loc := DeleteEdge(region, p, offset, at.prop, at.epoch, at.room, at.others, at.newSlot);
      NewestMatchIs(p, offset, old(region.Log()));
      NewestMatchUnique(p, offset, old(region.Log()), loc, NewestMatch(p, offset, old(region.Log())));
    case DeleteEvery =>
      var locs := DeleteAll(region, at.prop, at.epoch, at.room, at.others, at.newSlot);
  }

  /** A reader of epoch `r` gets the same neighbours and properties before and after a write at a later
      epoch. */
  method ReadAroundWrite<P>(region: EdgeRegion<P>, r: int, dst: Word, at: Placing<P>)
    returns (before: seq<(Word, P)>, after: seq<(Word, P)>)
    requires region.Valid() && region.HeadInUse() && r < at.epoch
    modifies region
    ensures region.Valid() && region.Log() == old(region.Log()) + [dst]
    ensures before == after
  {
    before := ReadAt(region, r);
    ghost var log, es, props := region.Log(), region.epochs, region.propLog;
    region.PutEdge(dst, at.prop, at.epoch, at.room, at.others, at.newSlot);
    after := ReadAt(region, r);
    LaterWritesUnseen(log, es, props, [dst], [region.epochs[|es|]], [at.prop], r);
  }
}
