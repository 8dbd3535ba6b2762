/** The vertex table of one label: one array filled from both ends.

    Inner vertices and their tombstones grow upwards from position 0, outer vertices and their
    tombstones grow downwards from the end.  A reader walks the inner part downwards with a max-heap
    and the outer part upwards with a min-heap, so the outer part is the inner one seen in a mirror. */
module VertexTable {
  import opened TombstoneLog
  import opened IdParser

  // ---------------------------------------------------------------- the outer part in the mirror

  function ReflectWord(size: nat, w: Word): (r: Word)
    requires size <= DELETE_FLAG
    ensures IsTomb(r) <==> IsTomb(w)
    ensures IsTomb(w) && Target(w) < size ==> Target(r) == size - 1 - Target(w)
  {
    if IsTomb(w) && Target(w) < size then MakeTomb(size - 1 - Target(w)) else w
  }

  /** The outer part from position `lo` on, oldest word first and with its targets mirrored. */
  function OuterLog(table: seq<Word>, lo: nat): (log: seq<Word>)
    requires lo <= |table| <= DELETE_FLAG
    ensures |log| == |table| - lo
  {
    seq(|table| - lo, k requires 0 <= k < |table| - lo => ReflectWord(|table|, table[|table| - 1 - k]))
  }

  /** No tombstone of the outer part names a position outside the table. */
  predicate TargetsInside(table: seq<Word>, lo: nat) {
    forall q :: lo <= q < |table| && IsTomb(table[q]) ==> Target(table[q]) < |table|
  }

  /** `p` is what `std::priority_queue<..., std::greater>::top` returns. */
  ghost predicate AtBottom(heap: multiset<nat>, p: nat) {
    p in heap && forall x: nat :: x in heap ==> p <= x
  }

  /** The positions an upward walk yields from position `cur` on. */
  ghost function WalkUp(table: seq<Word>, cur: nat, heap: multiset<nat>): seq<nat>
    requires cur <= |table|
    decreases |table| - cur
  {
    if cur == |table| then []
    else
      var w := table[cur];
      if IsTomb(w) then WalkUp(table, cur + 1, heap + multiset{Target(w)})
      else if AtBottom(heap, cur) then WalkUp(table, cur + 1, heap - multiset{cur})
      else [cur] + WalkUp(table, cur + 1, heap)
  }

  lemma WalkUpEnd(table: seq<Word>, heap: multiset<nat>)
    ensures WalkUp(table, |table|, heap) == []
  {
  }

  lemma WalkUpTomb(table: seq<Word>, cur: nat, heap: multiset<nat>)
    requires cur < |table| && IsTomb(table[cur])
    ensures WalkUp(table, cur, heap) == WalkUp(table, cur + 1, heap + multiset{Target(table[cur])})
  {
  }

  lemma WalkUpSkip(table: seq<Word>, cur: nat, heap: multiset<nat>)
    requires cur < |table| && !IsTomb(table[cur]) && AtBottom(heap, cur)
    ensures WalkUp(table, cur, heap) == WalkUp(table, cur + 1, heap - multiset{cur})
  {
  }

  lemma WalkUpYield(table: seq<Word>, cur: nat, heap: multiset<nat>)
    requires cur < |table| && !IsTomb(table[cur]) && !AtBottom(heap, cur)
    ensures WalkUp(table, cur, heap) == [cur] + WalkUp(table, cur + 1, heap)
  {
  }

  /** Position `p` of the outer part holds a vertex that no word of the outer part cancels. */
  ghost predicate OuterAlive(table: seq<Word>, lo: nat, p: nat) {
    && lo <= p < |table| && !IsTomb(table[p])
    && forall q :: lo <= q < |table| && IsTomb(table[q]) ==> Target(table[q]) != p
  }

  /** The live positions of the outer part from `cur` on, in ascending order. */
  ghost function OuterLive(table: seq<Word>, lo: nat, cur: nat): seq<nat>
    requires cur <= |table|
    decreases |table| - cur
  {
    if cur == |table| then []
    else if OuterAlive(table, lo, cur) then [cur] + OuterLive(table, lo, cur + 1)
    else OuterLive(table, lo, cur + 1)
  }

  /** The heap seen in the mirror. */
  ghost predicate MirrorHeaps(size: nat, heap: multiset<nat>, mirrored: multiset<nat>) {
    && (forall x: nat :: x in heap ==> x < size)
    && (forall x: nat :: x in mirrored ==> x < size)
    && (forall x: nat, y: nat :: x + y == size - 1 ==> heap[x] == mirrored[y])
  }

  function MirrorAll(size: nat, ps: seq<nat>): seq<int> {
    if ps == [] then [] else [size - 1 - ps[0]] + MirrorAll(size, ps[1..])
  }

  lemma BottomIsTop(size: nat, heap: multiset<nat>, mirrored: multiset<nat>, p: nat)
    requires MirrorHeaps(size, heap, mirrored) && p < size
    ensures AtBottom(heap, p) <==> AtTop(mirrored, size - 1 - p)
  {
    assert heap[p] == mirrored[size - 1 - p];
    forall x: nat | x in heap && AtTop(mirrored, size - 1 - p)
      ensures p <= x
    {
      assert heap[x] == mirrored[size - 1 - x];
    }
    forall x: nat | x in mirrored && AtBottom(heap, p)
      ensures x <= size - 1 - p
    {
      assert heap[size - 1 - x] == mirrored[x];
    }
  }

  lemma {:induction false} MirrorTail(size: nat, p: nat, ps: seq<nat>)
    ensures MirrorAll(size, [p] + ps) == [size - 1 - p] + MirrorAll(size, ps)
  {
  }

  lemma MirrorPush(size: nat, heap: multiset<nat>, mirrored: multiset<nat>, t: nat)
    requires MirrorHeaps(size, heap, mirrored) && t < size
    ensures MirrorHeaps(size, heap + multiset{t}, mirrored + multiset{size - 1 - t})
  {
  }

  lemma MirrorPop(size: nat, heap: multiset<nat>, mirrored: multiset<nat>, t: nat)
    requires MirrorHeaps(size, heap, mirrored) && t < size
    ensures MirrorHeaps(size, heap - multiset{t}, mirrored - multiset{size - 1 - t})
  {
  }

  /** Word by word, `log` is the outer part from the end of the table down to `lo`. */
  ghost predicate Mirrors(table: seq<Word>, lo: nat, log: seq<Word>) {
    && lo + |log| == |table| <= DELETE_FLAG
    && forall p, k :: lo <= p && 0 <= k && p + k == |table| - 1 ==> log[k] == ReflectWord(|table|, table[p])
  }

  /** The upward walk is the downward walk of the mirrored log. */
  lemma {:induction false} WalkUpMirrors(table: seq<Word>, lo: nat, log: seq<Word>, cur: nat, n: nat,
                                         heap: multiset<nat>, mirrored: multiset<nat>)
    requires lo <= cur && cur + n == |table| && TargetsInside(table, lo)
    requires Mirrors(table, lo, log) && MirrorHeaps(|table|, heap, mirrored)
    ensures n <= |log| && WalkUp(table, cur, heap) == MirrorAll(|table|, Walk(log, n, mirrored))
    decreases n
  {
    hide IsTomb, Target, ReflectWord, AtTop, AtBottom, MirrorHeaps, Walk, WalkUp;
    if n == 0 {
      WalkEnd(log, mirrored);
      WalkUpEnd(table, heap);
    } else {
      MirroredWord(table, lo, log, cur, n - 1);
      hide Mirrors, TargetsInside, MirrorAll;
      if IsTomb(table[cur]) {
        var t := Target(table[cur]);
        MirrorPush(|table|, heap, mirrored, t);
        WalkUpMirrors(table, lo, log, cur + 1, n - 1, heap + multiset{t}, mirrored + multiset{|table| - 1 - t});
        WalkTomb(log, n, mirrored);
        WalkUpTomb(table, cur, heap);
      } else {
        BottomIsTop(|table|, heap, mirrored, cur);
        if AtBottom(heap, cur) {
          MirrorPop(|table|, heap, mirrored, cur);
          WalkUpMirrors(table, lo, log, cur + 1, n - 1, heap - multiset{cur}, mirrored - multiset{n - 1});
          WalkSkip(log, n, mirrored);
          WalkUpSkip(table, cur, heap);
        } else {
          WalkUpMirrors(table, lo, log, cur + 1, n - 1, heap, mirrored);
          WalkYield(log, n, mirrored);
          WalkUpYield(table, cur, heap);
          MirrorTail(|table|, n - 1, Walk(log, n - 1, mirrored));
        }
      }
    }
  }

  lemma MirroredWord(table: seq<Word>, lo: nat, log: seq<Word>, p: nat, k: nat)
    requires TargetsInside(table, lo) && Mirrors(table, lo, log) && lo <= p && p + k == |table| - 1
    ensures k < |log| && (IsTomb(log[k]) <==> IsTomb(table[p]))
    ensures IsTomb(table[p]) ==> Target(table[p]) < |table| && Target(log[k]) == |table| - 1 - Target(table[p])
  {
  }

  lemma OuterAliveMirrors(table: seq<Word>, lo: nat, p: nat)
    requires lo <= p < |table| <= DELETE_FLAG && TargetsInside(table, lo)
    ensures OuterAlive(table, lo, p) <==> IsLive(OuterLog(table, lo), |table| - 1 - p)
  {
    hide IsTomb, Target, ReflectWord;
    var log, size := OuterLog(table, lo), |table|;
    assert forall q :: 0 <= q < |log| ==> log[q] == ReflectWord(size, table[size - 1 - q]);
    if Named(log, size - 1 - p) {
      var q :| 0 <= q < |log| && IsTomb(log[q]) && Target(log[q]) == size - 1 - p;
      assert IsTomb(table[size - 1 - q]) && Target(table[size - 1 - q]) == p;
    }
    if q :| lo <= q < size && IsTomb(table[q]) && Target(table[q]) == p {
      assert log[size - 1 - q] == ReflectWord(size, table[q]);
      assert Named(log, size - 1 - p);
    }
  }

  lemma {:induction false} OuterLiveMirrors(table: seq<Word>, lo: nat, cur: nat)
    requires lo <= cur <= |table| <= DELETE_FLAG && TargetsInside(table, lo)
    ensures OuterLive(table, lo, cur) == MirrorAll(|table|, LiveBelow(OuterLog(table, lo), |table| - cur))
    decreases |table| - cur
  {
    if cur < |table| {
      OuterLiveMirrors(table, lo, cur + 1);
      OuterAliveMirrors(table, lo, cur);
      OuterLiveStep(table, lo, cur, OuterLog(table, lo), |table| - cur);
    }
  }

  lemma OuterLiveStep(table: seq<Word>, lo: nat, cur: nat, log: seq<Word>, n: nat)
    requires cur < |table| && n == |table| - cur <= |log|
    requires OuterAlive(table, lo, cur) <==> IsLive(log, n - 1)
    requires OuterLive(table, lo, cur + 1) == MirrorAll(|table|, LiveBelow(log, n - 1))
    ensures OuterLive(table, lo, cur) == MirrorAll(|table|, LiveBelow(log, n))
  {
    hide OuterAlive, IsLive, MirrorAll;
    MirrorTail(|table|, n - 1, LiveBelow(log, n - 1));
  }

  lemma {:induction false} MirrorInjective(size: nat, a: seq<nat>, b: seq<nat>)
    requires MirrorAll(size, a) == MirrorAll(size, b)
    ensures a == b
  {
    if a != [] && b != [] {
      assert MirrorAll(size, a)[0] == MirrorAll(size, b)[0];
      assert MirrorAll(size, a)[1..] == MirrorAll(size, a[1..]);
      assert MirrorAll(size, b)[1..] == MirrorAll(size, b[1..]);
      MirrorInjective(size, a[1..], b[1..]);
    }
  }

  // ---------------------------------------------------------------- what an enumeration yields

  /** The live vertices: inner ones downwards, then outer ones upwards. */
  ghost function LivePositions(table: seq<Word>, n: nat, lo: nat): seq<nat>
    requires n <= lo <= |table|
  {
    Live(table[..n]) + OuterLive(table, lo, lo)
  }

  /** The positions a `Vertices` iterator visits. */
  ghost function Enumeration(table: seq<Word>, n: nat, lo: nat): seq<nat>
    requires n <= lo <= |table|
  {
    Walk(table, n, multiset{}) + WalkUp(table, lo, multiset{})
  }

  lemma {:induction false} WalkUpInRange(table: seq<Word>, cur: nat, heap: multiset<nat>)
    requires cur <= |table|
    ensures forall k :: 0 <= k < |WalkUp(table, cur, heap)| ==> cur <= WalkUp(table, cur, heap)[k] < |table|
    decreases |table| - cur
  {
    if cur < |table| {
      var w := table[cur];
      if IsTomb(w) {
        WalkUpInRange(table, cur + 1, heap + multiset{Target(w)});
      } else if AtBottom(heap, cur) {
        WalkUpInRange(table, cur + 1, heap - multiset{cur});
      } else {
        WalkUpInRange(table, cur + 1, heap);
      }
    }
  }

  lemma {:induction false} OuterLiveInRange(table: seq<Word>, lo: nat, cur: nat)
    requires cur <= |table|
    ensures forall k :: 0 <= k < |OuterLive(table, lo, cur)| ==> cur <= OuterLive(table, lo, cur)[k] < |table|
    decreases |table| - cur
  {
    if cur < |table| {
      OuterLiveInRange(table, lo, cur + 1);
    }
  }

  lemma {:induction false} LiveBelowInRange(log: seq<Word>, n: nat)
    requires n <= |log|
    ensures forall k :: 0 <= k < |LiveBelow(log, n)| ==> LiveBelow(log, n)[k] < n
  {
    if n > 0 {
      LiveBelowInRange(log, n - 1);
    }
  }

  /** Two concatenations of a part below `bound` and a part from `bound` on agree piece by piece. */
  lemma SplitAtBound(a: seq<nat>, b: seq<nat>, a': seq<nat>, b': seq<nat>, bound: nat)
    requires forall k :: 0 <= k < |a| ==> a[k] < bound
    requires forall k :: 0 <= k < |a'| ==> a'[k] < bound
    requires forall k :: 0 <= k < |b| ==> bound <= b[k]
    requires forall k :: 0 <= k < |b'| ==> bound <= b'[k]
    requires a + b == a' + b'
    ensures a == a' && b == b'
  {
    var s := a + b;
    assert forall k :: 0 <= k < |s| ==> (s[k] < bound <==> k < |a|);
    assert forall k :: 0 <= k < |s| ==> (s[k] < bound <==> k < |a'|) by {
      assert s == a' + b';
    }
    assert |a| < |s| ==> (s[|a|] < bound <==> |a| < |a'|);
    assert |a'| < |s| ==> (s[|a'|] < bound <==> |a'| < |a|);
    assert a == (a + b)[..|a|] && a' == (a' + b')[..|a'|];
    assert b == (a + b)[|a|..] && b' == (a' + b')[|a'|..];
  }

  /** An enumeration yields every live inner vertex once, downwards, and then every live outer vertex
      once, upwards, if and only if both parts are clean. */
  lemma EnumerationCorrectIffClean(table: seq<Word>, n: nat, lo: nat)
    requires n <= lo <= |table| <= DELETE_FLAG && TargetsInside(table, lo)
    requires WellFormed(table[..n]) && WellFormed(OuterLog(table, lo))
    ensures Enumeration(table, n, lo) == LivePositions(table, n, lo) <==>
              Clean(table[..n]) && Clean(OuterLog(table, lo))
  {
    var inner, outer := table[..n], OuterLog(table, lo);
    assert MirrorHeaps(|table|, multiset{}, multiset{}) && Mirrors(table, lo, outer);
    assert LiveBelow(inner, n) == Live(inner) && LiveBelow(outer, |table| - lo) == Live(outer);
    hide WellFormed, Clean, Walk, WalkUp, Live, LiveBelow, OuterLive, OuterLog, TargetsInside, MirrorHeaps,
         MirrorAll, Mirrors;
    WalkOfPrefix(table, inner, n, multiset{});
    WalkCorrectIffClean(inner);
    WalkUpMirrors(table, lo, outer, lo, |outer|, multiset{}, multiset{});
    OuterLiveMirrors(table, lo, lo);
    WalkCorrectIffClean(outer);
    WalkInRange(table, n, multiset{});
    LiveBelowInRange(inner, n);
    WalkUpInRange(table, lo, multiset{});
    OuterLiveInRange(table, lo, lo);
    if Enumeration(table, n, lo) == LivePositions(table, n, lo) {
      SplitAtBound(Walk(table, n, multiset{}), WalkUp(table, lo, multiset{}), Live(inner), OuterLive(table, lo, lo), n);
      MirrorInjective(|table|, Walk(outer, |outer|, multiset{}), Live(outer));
    }
  }

  lemma {:induction false} WalkUpOfSuffix(table: seq<Word>, table': seq<Word>, cur: nat, heap: multiset<nat>)
    requires cur <= |table| == |table'| && table[cur..] == table'[cur..]
    ensures WalkUp(table, cur, heap) == WalkUp(table', cur, heap)
    decreases |table| - cur
  {
    if cur < |table| {
      var w := table[cur];
      assert w == table[cur..][0] == table'[cur..][0] == table'[cur];
      assert table[cur + 1..] == table[cur..][1..] == table'[cur..][1..] == table'[cur + 1..];
      if IsTomb(w) {
        WalkUpOfSuffix(table, table', cur + 1, heap + multiset{Target(w)});
      } else if AtBottom(heap, cur) {
        WalkUpOfSuffix(table, table', cur + 1, heap - multiset{cur});
      } else {
        WalkUpOfSuffix(table, table', cur + 1, heap);
      }
    }
  }

  /** Later writes fall between the two parts a reader was given, so they do not change what it sees. */
  lemma EnumerationStable(table: seq<Word>, table': seq<Word>, n: nat, lo: nat)
    requires n <= lo <= |table| == |table'|
    requires table[..n] == table'[..n] && table[lo..] == table'[lo..]
    ensures Enumeration(table, n, lo) == Enumeration(table', n, lo)
  {
    WalkOfPrefix(table, table', n, multiset{});
    WalkUpOfSuffix(table, table', lo, multiset{});
  }

  // ---------------------------------------------------------------- the writer

  /** What a delete did: it appended its tombstone, found nothing, wrote over the newest word of the other
      part because the table was full, or left the table altogether. */
  datatype Outcome = Done | NotFound | Overwrote | OutOfBounds

  class Table {
    const table: array<Word>
    var maxInner: nat
    var minOuter: nat
    var maxInnerLocation: nat
    var minOuterLocation: nat

    ghost predicate Valid()
      reads this, table
    {
      && table.Length <= DELETE_FLAG
      && maxInnerLocation <= minOuterLocation <= table.Length
      && maxInner <= maxInnerLocation
      && minOuterLocation <= minOuter <= table.Length
      && WellFormed(Inner()) && WellFormed(Outer())
      && TargetsInside(table[..], minOuterLocation)
    }

    /** The inner part, oldest word first. */
    ghost function Inner(): seq<Word>
      requires maxInnerLocation <= table.Length
      reads this, table
    {
      table[..maxInnerLocation]
    }

    /** The outer part in the mirror, oldest word first. */
    ghost function Outer(): seq<Word>
      requires minOuterLocation <= table.Length <= DELETE_FLAG
      reads this, table
    {
      OuterLog(table[..], minOuterLocation)
    }

    constructor (size: nat)
      requires size <= DELETE_FLAG
      ensures Valid() && fresh(table) && table.Length == size
      ensures Inner() == [] && Outer() == []
      ensures maxInner == 0 && minOuter == size
    {
      table := new Word[size](_ => 0);
      maxInner, minOuter, maxInnerLocation, minOuterLocation := 0, size, 0, size;
    }

    method PutInner(w: Word)
      requires Valid() && maxInnerLocation < minOuterLocation
      requires IsTomb(w) ==> Target(w) < maxInnerLocation && !IsTomb(table[Target(w)])
      modifies this`maxInnerLocation, table
      ensures Valid() && Inner() == old(Inner()) + [w] && Outer() == old(Outer())
    {
      ghost var before, lo := table[..], minOuterLocation;
      table[maxInnerLocation] := w;
      maxInnerLocation := maxInnerLocation + 1;
      assert table[..maxInnerLocation] == before[..maxInnerLocation - 1] + [w];
      assert table[..][lo..] == before[lo..];
      SameOuter(before, table[..], lo);
    }

    method PutOuter(w: Word)
      requires Valid() && maxInnerLocation < minOuterLocation
      requires IsTomb(w) ==> minOuterLocation <= Target(w) < table.Length && !IsTomb(table[Target(w)])
      modifies this`minOuterLocation, table
      ensures Valid() && Inner() == old(Inner())
      ensures Outer() == old(Outer()) + [ReflectWord(table.Length, w)]
    {
      ghost var before, lo := table[..], minOuterLocation;
      table[minOuterLocation - 1] := w;
      minOuterLocation := minOuterLocation - 1;
      assert table[..maxInnerLocation] == before[..maxInnerLocation];
      ghost var after := table[..];
      assert OuterLog(after, lo - 1) == OuterLog(before, lo) + [ReflectWord(table.Length, w)];
      OuterStaysWellFormed(before, lo, w);
    }

    method AddInner(lid: Word)
      requires Valid() && maxInnerLocation < minOuterLocation && !IsTomb(lid)
      modifies this`maxInner, this`maxInnerLocation, table
      ensures Valid() && Inner() == old(Inner()) + [lid] && Outer() == old(Outer())
      ensures maxInner == old(maxInner) + 1 && minOuter == old(minOuter)
    {
      PutInner(lid);
      maxInner := maxInner + 1;
    }

    /** Cancels the oldest entry with this offset, whether or not it is cancelled already.  Nothing checks
        that there is room: on a full table the tombstone goes over the newest outer word, or past the end
        when there is none. */
    method DeleteInner(p: Parser, offset: nat) returns (outcome: Outcome)
      requires Valid() && p.Valid()
      modifies this`maxInnerLocation, table
      ensures
        var was, n := old(table[..]), old(maxInnerLocation);
        if forall k :: 0 <= k < n ==> IsTomb(was[k]) || p.GetOffset(was[k]) != offset then
          outcome == NotFound && Valid() && maxInnerLocation == n && table[..] == was
        else
          exists pos: nat ::
            && pos < n && !IsTomb(was[pos]) && p.GetOffset(was[pos]) == offset
            && (forall k :: 0 <= k < pos ==> IsTomb(was[k]) || p.GetOffset(was[k]) != offset)
            && outcome == (if n < minOuterLocation then Done else if n < table.Length then Overwrote else OutOfBounds)
            && (outcome.Done? ==> Valid() && Outer() == old(Outer()) && Inner() == old(Inner()) + [MakeTomb(pos)])
            && (outcome.Overwrote? ==>
                  table[..] == was[minOuterLocation := MakeTomb(pos)] && maxInnerLocation == minOuterLocation + 1)
            && (outcome.OutOfBounds? ==> table[..] == was && maxInnerLocation == n)
    {
      ghost var was := table[..];
      var i := 0;
      while i < maxInnerLocation
        invariant 0 <= i <= maxInnerLocation == old(maxInnerLocation) && Valid()
        invariant table[..] == was
        invariant forall k :: 0 <= k < i ==> IsTomb(was[k]) || p.GetOffset(was[k]) != offset
      {
        var value := table[i];
        assert value == was[i];
        if !IsTomb(value) && p.GetOffset(value) == offset {
          if maxInnerLocation < minOuterLocation {
            PutInner(MakeTomb(i));
            return Done;
          }
          if maxInnerLocation == table.Length {
            return OutOfBounds;
          }
          table[maxInnerLocation] := MakeTomb(i);
          maxInnerLocation := maxInnerLocation + 1;
          return Overwrote;
        }
        i := i + 1;
      }
      outcome := NotFound;
    }

    method AddOuter(lid: Word)
      requires Valid() && maxInnerLocation < minOuterLocation && !IsTomb(lid)
      modifies this`minOuter, this`minOuterLocation, table
      ensures Valid() && Inner() == old(Inner()) && Outer() == old(Outer()) + [lid]
      ensures minOuter == old(minOuter) - 1 && maxInner == old(maxInner)
    {
      PutOuter(lid);
      minOuter := minOuter - 1;
    }

    /** The same for the outer part, which grows downwards: on a full table the tombstone goes over the newest
        inner word.  A part that reaches down to position 0 leaves the search, or the tombstone, without a
        place to stop. */
    method DeleteOuter(lid: Word) returns (outcome: Outcome)
      requires Valid()
      modifies this`minOuterLocation, table
      ensures
        var was, n := old(table[..]), old(minOuterLocation);
        if forall k :: n <= k < table.Length ==> IsTomb(was[k]) || was[k] != lid then
          outcome == (if n > 0 then NotFound else OutOfBounds) && Valid() && minOuterLocation == n && table[..] == was
        else
          exists pos: nat ::
            && n <= pos < table.Length && !IsTomb(was[pos]) && was[pos] == lid
            && (forall k :: pos < k < table.Length ==> IsTomb(was[k]) || was[k] != lid)
            && outcome == (if maxInnerLocation < n then Done else if n > 0 then Overwrote else OutOfBounds)
            && (outcome.Done? ==>
                  && Valid() && Inner() == old(Inner())
                  && Outer() == old(Outer()) + [MakeTomb(table.Length - 1 - pos)])
            && (outcome.Overwrote? ==>
                  table[..] == was[n - 1 := MakeTomb(pos)] && minOuterLocation == n - 1 == maxInnerLocation - 1)
            && (outcome.OutOfBounds? ==> table[..] == was && minOuterLocation == n)
    {
      ghost var was := table[..];
      var i := table.Length - 1;
      while i >= minOuterLocation
        invariant minOuterLocation - 1 <= i < table.Length && minOuterLocation == old(minOuterLocation) && Valid()
        invariant table[..] == was && Outer() == old(Outer())
        invariant forall k :: i < k < table.Length ==> IsTomb(was[k]) || was[k] != lid
      {
        var value := table[i];
        assert value == was[i];
        if !IsTomb(value) && value == lid {
          assert ReflectWord(table.Length, MakeTomb(i)) == MakeTomb(table.Length - 1 - i);
          if maxInnerLocation < minOuterLocation {
            PutOuter(MakeTomb(i));
            return Done;
          }
          if minOuterLocation == 0 {
            return OutOfBounds;
          }
          table[minOuterLocation - 1] := MakeTomb(i);
          minOuterLocation := minOuterLocation - 1;
          return Overwrote;
        }
        i := i - 1;
      }
      outcome := if minOuterLocation > 0 then NotFound else OutOfBounds;
    }
  }

  /** A full table of one inner vertex and one outer vertex: deleting the inner one writes over the outer one,
      which no reader sees any more. */
  lemma FullTableLosesOuter(inner: Word, outer: Word)
    requires !IsTomb(inner) && !IsTomb(outer)
    ensures OuterLive([inner, outer], 1, 1) == [1]
    ensures OuterLive([inner, outer][1 := MakeTomb(0)], 1, 1) == []
  {
    var after := [inner, outer][1 := MakeTomb(0)];
    assert after == [inner, MakeTomb(0)];
    assert OuterLive(after, 1, 2) == [] && OuterLive([inner, outer], 1, 2) == [];
  }

  lemma SameOuter(t: seq<Word>, t': seq<Word>, lo: nat)
    requires lo <= |t| == |t'| <= DELETE_FLAG && t[lo..] == t'[lo..]
    ensures OuterLog(t, lo) == OuterLog(t', lo)
    ensures TargetsInside(t, lo) ==> TargetsInside(t', lo)
  {
    assert forall q :: lo <= q < |t| ==> t[q] == t[lo..][q - lo] == t'[lo..][q - lo] == t'[q];
  }

  lemma OuterStaysWellFormed(t: seq<Word>, lo: nat, w: Word)
    requires lo <= |t| <= DELETE_FLAG && WellFormed(OuterLog(t, lo))
    requires IsTomb(w) ==> lo <= Target(w) < |t| && !IsTomb(t[Target(w)])
    ensures WellFormed(OuterLog(t, lo) + [ReflectWord(|t|, w)])
  {
    var log := OuterLog(t, lo);
    if IsTomb(w) {
      assert log[|t| - 1 - Target(w)] == ReflectWord(|t|, t[Target(w)]);
    }
  }

  /** Deleting a vertex removes its entry from the live ones and no other; a vertex deleted before is
      cancelled a second time, which is what makes a part unclean. */
  lemma VertexDeleteOutcome(log: seq<Word>, pos: nat)
    requires WellFormed(log) && NamedAtMostOnce(log) && |log| < DELETE_FLAG && pos < |log| && !IsTomb(log[pos])
    ensures Live(log + [MakeTomb(pos)]) == Without(Live(log), pos)
    ensures NamedAtMostOnce(log + [MakeTomb(pos)]) <==> pos in Live(log)
  {
    AppendTomb(log, pos);
    AppendKeepsNamedOnce(log, MakeTomb(pos));
    LiveBelowElements(log, |log|, pos);
  }
}
