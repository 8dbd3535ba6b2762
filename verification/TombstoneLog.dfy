/** The delete marks shared by the edge blocks and the vertex tables.

    A log is a sequence of 64-bit words.  A word whose top bit is clear is an ordinary entry; a word
    whose top bit is set is a tombstone whose other 63 bits name the log position it cancels.  The
    readers walk a log from its newest word to its oldest with a max-heap of the positions they have
    still to skip.  This module says what such a walk should yield (`Live`), what it does yield
    (`Walk`), and exactly when the two agree. */
module TombstoneLog {

  type Word = w: nat | w < 0x1_0000_0000_0000_0000

  const DELETE_FLAG := 0x8000_0000_0000_0000

  /** `v >> (sizeof(vid_t) * 8 - 1) == 1`. */
  predicate IsTomb(w: Word): (b: bool)
    ensures b <==> w >= DELETE_FLAG
  {
    w / DELETE_FLAG == 1
  }

  /** `v & ((1 << 63) - 1)`. */
  function Target(w: Word): nat {
    w % DELETE_FLAG
  }

  /** `loc | (1 << 63)`, the mark a writer appends to cancel position `loc`. */
  function MakeTomb(loc: nat): (w: Word)
    requires loc < DELETE_FLAG
    ensures IsTomb(w) && Target(w) == loc
  {
    loc + DELETE_FLAG
  }

  // ---------------------------------------------------------------- what a log means

  /** Some tombstone of the log names position `p`. */
  ghost predicate Named(log: seq<Word>, p: nat) {
    exists q :: 0 <= q < |log| && IsTomb(log[q]) && Target(log[q]) == p
  }

  /** Position `p` holds an entry that was written and not cancelled. */
  ghost predicate IsLive(log: seq<Word>, p: nat) {
    p < |log| && !IsTomb(log[p]) && !Named(log, p)
  }

  /** The live positions below `n`, newest first. */
  ghost function LiveBelow(log: seq<Word>, n: nat): seq<nat>
    requires n <= |log|
  {
    if n == 0 then []
    else if IsLive(log, n - 1) then [n - 1] + LiveBelow(log, n - 1)
    else LiveBelow(log, n - 1)
  }

  /** The live positions of a whole log, newest first. */
  ghost function Live(log: seq<Word>): seq<nat> {
    LiveBelow(log, |log|)
  }

  /** Every tombstone names an ordinary entry written before it; every writer keeps this. */
  ghost predicate WellFormed(log: seq<Word>) {
    forall q :: 0 <= q < |log| && IsTomb(log[q]) ==> Target(log[q]) < q && !IsTomb(log[Target(log[q])])
  }

  /** How many tombstones at positions `n` and above name `p`. */
  function Naming(log: seq<Word>, n: nat, p: nat): nat
    decreases |log| - n
  {
    if n >= |log| then 0
    else (if IsTomb(log[n]) && Target(log[n]) == p then 1 else 0) + Naming(log, n + 1, p)
  }

  /** Only the lowest of the named positions may be named more than once. */
  ghost predicate Clean(log: seq<Word>) {
    forall p: nat, q: nat :: q < p && Named(log, q) && Named(log, p) ==> Naming(log, 0, p) == 1
  }

  // ---------------------------------------------------------------- what the readers do

  /** `p` is what `std::priority_queue::top` returns. */
  ghost predicate AtTop(heap: multiset<nat>, p: nat) {
    p in heap && forall x: nat :: x in heap ==> x <= p
  }

  lemma TopExists(heap: multiset<nat>)
    requires heap != multiset{}
    ensures exists t: nat :: AtTop(heap, t)
    decreases |heap|
  {
    var a: nat :| a in heap;
    var rest := heap - multiset{a};
    assert forall x: nat :: x in heap ==> x in rest || x == a;
    if rest == multiset{} {
      assert AtTop(heap, a);
    } else {
      TopExists(rest);
      var t: nat :| AtTop(rest, t);
      var m := if a <= t then t else a;
      assert AtTop(heap, m);
    }
  }

  /** `priority_queue::top` as code. */
  method TopOf(heap: multiset<nat>) returns (t: nat)
    requires heap != multiset{}
    ensures AtTop(heap, t)
  {
    TopExists(heap);
    t :| t in heap && forall x :: x in heap ==> x <= t;
  }

  /** The positions a heap-driven walk yields when it still has the positions below `n` to visit. */
  ghost function Walk(log: seq<Word>, n: nat, heap: multiset<nat>): seq<nat>
    requires n <= |log|
  {
    if n == 0 then []
    else
      var w := log[n - 1];
      if IsTomb(w) then Walk(log, n - 1, heap + multiset{Target(w)})
      else if AtTop(heap, n - 1) then Walk(log, n - 1, heap - multiset{n - 1})
      else [n - 1] + Walk(log, n - 1, heap)
  }

  // The steps of a walk, one by one.

  lemma WalkEnd(log: seq<Word>, heap: multiset<nat>)
    ensures Walk(log, 0, heap) == []
  {
  }

  lemma WalkTomb(log: seq<Word>, n: nat, heap: multiset<nat>)
    requires 0 < n <= |log| && IsTomb(log[n - 1])
    ensures Walk(log, n, heap) == Walk(log, n - 1, heap + multiset{Target(log[n - 1])})
  {
  }

  lemma WalkSkip(log: seq<Word>, n: nat, heap: multiset<nat>)
    requires 0 < n <= |log| && !IsTomb(log[n - 1]) && AtTop(heap, n - 1)
    ensures Walk(log, n, heap) == Walk(log, n - 1, heap - multiset{n - 1})
  {
  }

  lemma WalkYield(log: seq<Word>, n: nat, heap: multiset<nat>)
    requires 0 < n <= |log| && !IsTomb(log[n - 1]) && !AtTop(heap, n - 1)
    ensures Walk(log, n, heap) == [n - 1] + Walk(log, n - 1, heap)
  {
  }

  /** A walk yields ordinary entries below its start only. */
  lemma {:induction false} WalkInRange(log: seq<Word>, n: nat, heap: multiset<nat>)
    requires n <= |log|
    ensures forall k :: 0 <= k < |Walk(log, n, heap)| ==>
              Walk(log, n, heap)[k] < n && !IsTomb(log[Walk(log, n, heap)[k]])
    decreases n
  {
    if n > 0 {
      var w := log[n - 1];
      if IsTomb(w) {
        WalkInRange(log, n - 1, heap + multiset{Target(w)});
      } else if AtTop(heap, n - 1) {
        WalkInRange(log, n - 1, heap - multiset{n - 1});
      } else {
        WalkInRange(log, n - 1, heap);
      }
    }
  }

  /** A walk looks only at the words below its start. */
  lemma {:induction false} WalkOfPrefix(log: seq<Word>, log': seq<Word>, n: nat, heap: multiset<nat>)
    requires n <= |log| && n <= |log'| && log[..n] == log'[..n]
    ensures Walk(log, n, heap) == Walk(log', n, heap)
    decreases n
  {
    if n > 0 {
      var w := log[n - 1];
      assert log[..n - 1] == log[..n][..n - 1] == log'[..n][..n - 1] == log'[..n - 1];
      assert w == log[..n][n - 1] == log'[..n][n - 1] == log'[n - 1];
      if IsTomb(w) {
        WalkOfPrefix(log, log', n - 1, heap + multiset{Target(w)});
      } else if AtTop(heap, n - 1) {
        WalkOfPrefix(log, log', n - 1, heap - multiset{n - 1});
      } else {
        WalkOfPrefix(log, log', n - 1, heap);
      }
    }
  }

  // ---------------------------------------------------------------- the walk against the meaning

  lemma {:induction false} NamingPositive(log: seq<Word>, n: nat, p: nat)
    ensures Naming(log, n, p) > 0 <==> exists q :: n <= q < |log| && IsTomb(log[q]) && Target(log[q]) == p
    decreases |log| - n
  {
    if n < |log| {
      NamingPositive(log, n + 1, p);
    }
  }

  /** In a well-formed log all the tombstones that name `p` stand above it. */
  lemma {:induction false} NamingAbove(log: seq<Word>, n: nat, p: nat)
    requires WellFormed(log) && n <= p
    ensures Naming(log, n, p) == Naming(log, p + 1, p)
    decreases |log| - n
  {
    if n < |log| && n < p {
      NamingAbove(log, n + 1, p);
    }
  }

  /** The heap agrees with the log on every position still to be visited. */
  ghost predicate HeapCounts(log: seq<Word>, n: nat, heap: multiset<nat>) {
    forall p: nat :: p < n ==> heap[p] == Naming(log, n, p)
  }

  lemma HeapStep(log: seq<Word>, n: nat, heap: multiset<nat>)
    requires 0 < n <= |log| && HeapCounts(log, n, heap)
    ensures IsTomb(log[n - 1]) ==> HeapCounts(log, n - 1, heap + multiset{Target(log[n - 1])})
    ensures !IsTomb(log[n - 1]) ==> HeapCounts(log, n - 1, heap) && HeapCounts(log, n - 1, heap - multiset{n - 1})
  {
  }

  /** Whatever the heap still holds of the visited part is harmless: nothing below is cancelled. */
  ghost predicate NoBlockers(log: seq<Word>, n: nat, heap: multiset<nat>) {
    forall p: nat, q: nat :: n <= p && p in heap && q < n ==> !Named(log, q)
  }

  /** On a clean log the top of the heap tells whether the next entry is cancelled. */
  lemma SkipIffNamed(log: seq<Word>, n: nat, heap: multiset<nat>)
    requires WellFormed(log) && Clean(log) && 0 < n <= |log| && !IsTomb(log[n - 1])
    requires HeapCounts(log, n, heap) && NoBlockers(log, n, heap)
    ensures AtTop(heap, n - 1) <==> Named(log, n - 1)
    ensures NoBlockers(log, n - 1, if AtTop(heap, n - 1) then heap - multiset{n - 1} else heap)
  {
    var p: nat := n - 1;
    NamingAbove(log, 0, p);
    NamingPositive(log, 0, p);
    assert heap[p] == Naming(log, 0, p);
    assert p in heap <==> Named(log, p);
    var skip := AtTop(heap, p);
    assert skip <==> p in heap;
    var heap' := if skip then heap - multiset{p} else heap;
    forall b: nat, q: nat | p <= b && b in heap' && q < p
      ensures !Named(log, q)
    {
      if b == p {
        assert heap'[p] > 0;
        assert skip;
        assert Naming(log, 0, p) != 1 && Named(log, p);
      }
    }
  }

  lemma TombKeepsNoBlockers(log: seq<Word>, n: nat, heap: multiset<nat>)
    requires WellFormed(log) && 0 < n <= |log| && IsTomb(log[n - 1])
    requires HeapCounts(log, n, heap) && NoBlockers(log, n, heap)
    ensures NoBlockers(log, n - 1, heap + multiset{Target(log[n - 1])})
  {
    NamingPositive(log, n, n - 1);
    assert heap[n - 1] == 0;
  }

  /** A clean log: the walk yields the live positions, newest first. */
  lemma {:induction false} WalkIsLive(log: seq<Word>, n: nat, heap: multiset<nat>)
    requires WellFormed(log) && Clean(log) && n <= |log|
    requires HeapCounts(log, n, heap) && NoBlockers(log, n, heap)
    ensures Walk(log, n, heap) == LiveBelow(log, n)
    decreases n
  {
    hide WellFormed, Clean, HeapCounts, NoBlockers, AtTop;
    if n > 0 {
      var p := n - 1;
      HeapStep(log, n, heap);
      if IsTomb(log[p]) {
        TombKeepsNoBlockers(log, n, heap);
        WalkIsLive(log, p, heap + multiset{Target(log[p])});
      } else {
        SkipIffNamed(log, n, heap);
        WalkIsLive(log, p, if AtTop(heap, p) then heap - multiset{p} else heap);
      }
    }
  }

  /** A left-over above `n` stays on top of the heap for ever, so nothing below is skipped. */
  lemma {:induction false} WalkStuck(log: seq<Word>, n: nat, heap: multiset<nat>, b: nat, q: nat)
    requires WellFormed(log) && n <= |log| && b in heap && n <= b
    requires q < n && !IsTomb(log[q])
    ensures q in Walk(log, n, heap)
    decreases n
  {
    var p := n - 1;
    var w := log[p];
    if IsTomb(w) {
      WalkStuck(log, p, heap + multiset{Target(w)}, b, q);
    } else {
      assert !AtTop(heap, p);
      if q < p {
        WalkStuck(log, p, heap, b, q);
      }
    }
  }

  lemma NamedTwiceStays(log: seq<Word>, p: nat, heap: multiset<nat>)
    requires WellFormed(log) && p < |log| && HeapCounts(log, p + 1, heap) && Naming(log, 0, p) >= 2
    ensures p in heap - multiset{p}
  {
    NamingAbove(log, 0, p);
  }

  /** A walk that will pass a position named twice goes wrong on every cancelled position below it. */
  lemma {:induction false} WalkMissesCancel(log: seq<Word>, n: nat, heap: multiset<nat>, p: nat, q: nat)
    requires WellFormed(log) && n <= |log| && HeapCounts(log, n, heap)
    requires q < p < n && !IsTomb(log[p]) && !IsTomb(log[q]) && Naming(log, 0, p) >= 2
    ensures q in Walk(log, n, heap)
    decreases n
  {
    hide HeapCounts;
    HeapStep(log, n, heap);
    var w := log[n - 1];
    if IsTomb(w) {
      WalkMissesCancel(log, n - 1, heap + multiset{Target(w)}, p, q);
    } else {
      var skip := AtTop(heap, n - 1);
      var heap' := if skip then heap - multiset{n - 1} else heap;
      if p == n - 1 {
        NamedTwiceStays(log, p, heap);
        WalkStuck(log, p, heap', p, q);
      } else {
        WalkMissesCancel(log, n - 1, heap', p, q);
      }
    }
  }

  lemma {:induction false} LiveBelowElements(log: seq<Word>, n: nat, p: nat)
    requires n <= |log|
    ensures p in LiveBelow(log, n) <==> p < n && IsLive(log, p)
  {
    if n > 0 {
      LiveBelowElements(log, n - 1, p);
    }
  }

  /** The exact condition: on a well-formed log the heap-driven walk yields the live positions,
      newest first, if and only if no position other than the lowest named one is named twice. */
  lemma WalkCorrectIffClean(log: seq<Word>)
    requires WellFormed(log)
    ensures Walk(log, |log|, multiset{}) == Live(log) <==> Clean(log)
  {
    if Clean(log) {
      WalkIsLive(log, |log|, multiset{});
    } else {
      var p: nat, q: nat :| q < p && Named(log, q) && Named(log, p) && Naming(log, 0, p) != 1;
      NamingPositive(log, 0, p);
      WalkMissesCancel(log, |log|, multiset{}, p, q);
      LiveBelowElements(log, |log|, q);
      assert q !in Live(log);
    }
  }

  /** A log for which the readers are wrong: two entries, the first cancelled once and the second
      twice.  Nothing is live, yet the walk yields the first entry. */
  lemma DuplicateTombstoneBreaksWalk()
    ensures var log := [7, 8, MakeTomb(0), MakeTomb(1), MakeTomb(1)];
            WellFormed(log) && !Clean(log) && Live(log) == [] && 0 in Walk(log, |log|, multiset{})
  {
    var log: seq<Word> := [7, 8, MakeTomb(0), MakeTomb(1), MakeTomb(1)];
    assert IsTomb(log[2]) && Target(log[2]) == 0 && Named(log, 0);
    assert IsTomb(log[3]) && Target(log[3]) == 1 && Named(log, 1);
    assert Naming(log, 3, 1) == 2;
    NamingAbove(log, 0, 1);
    assert Naming(log, 2, 1) == 2;
    WalkMissesCancel(log, |log|, multiset{}, 1, 0);
    assert LiveBelow(log, 2) == [];
    assert LiveBelow(log, 4) == [];
  }

  // ---------------------------------------------------------------- what a writer's append changes

  /** An ordinary append adds one live position and changes nothing else. */
  lemma AppendEntry(log: seq<Word>, w: Word)
    requires WellFormed(log) && !IsTomb(w)
    ensures WellFormed(log + [w])
    ensures Live(log + [w]) == [|log|] + Live(log)
    ensures forall p: nat :: Named(log + [w], p) <==> Named(log, p)
  {
    var log' := log + [w];
    assert forall q :: 0 <= q < |log| ==> log'[q] == log[q];
    forall p: nat
      ensures Named(log', p) <==> Named(log, p)
    {
      if Named(log, p) {
        var q :| 0 <= q < |log| && IsTomb(log[q]) && Target(log[q]) == p;
        assert IsTomb(log'[q]) && Target(log'[q]) == p;
      }
    }
    assert !Named(log, |log|);
    SameLiveBelow(log, log', |log|);
  }

  lemma {:induction false} SameLiveBelow(log: seq<Word>, log': seq<Word>, n: nat)
    requires n <= |log| && n <= |log'|
    requires forall p: nat :: p < n ==> (IsLive(log, p) <==> IsLive(log', p))
    ensures LiveBelow(log, n) == LiveBelow(log', n)
  {
    if n > 0 {
      SameLiveBelow(log, log', n - 1);
    }
  }

  /** `s` without its element `x`. */
  function Without(s: seq<nat>, x: nat): seq<nat> {
    if s == [] then [] else (if s[0] == x then [] else [s[0]]) + Without(s[1..], x)
  }

  lemma {:induction false} WithoutAppend(s: seq<nat>, t: seq<nat>, x: nat)
    ensures Without(s + t, x) == Without(s, x) + Without(t, x)
  {
    if s == [] {
      assert s + t == t;
    } else {
      assert (s + t)[1..] == s[1..] + t;
      WithoutAppend(s[1..], t, x);
    }
  }

  lemma {:induction false} LiveBelowCancel(log: seq<Word>, loc: nat, n: nat)
    requires WellFormed(log) && loc < |log| < DELETE_FLAG && n <= |log|
    ensures LiveBelow(log + [MakeTomb(loc)], n) == Without(LiveBelow(log, n), loc)
  {
    var log' := log + [MakeTomb(loc)];
    if n > 0 {
      LiveBelowCancel(log, loc, n - 1);
      var p := n - 1;
      assert IsLive(log', p) <==> IsLive(log, p) && p != loc by {
        assert IsTomb(log'[|log|]) && Target(log'[|log|]) == loc;
        if Named(log, p) {
          var q :| 0 <= q < |log| && IsTomb(log[q]) && Target(log[q]) == p;
          assert IsTomb(log'[q]) && Target(log'[q]) == p;
        }
      }
      WithoutAppend([p], LiveBelow(log, p), loc);
    }
  }

  /** A tombstone for an ordinary entry removes exactly that entry from the live positions. */
  lemma AppendTomb(log: seq<Word>, loc: nat)
    requires WellFormed(log) && loc < |log| < DELETE_FLAG && !IsTomb(log[loc])
    ensures WellFormed(log + [MakeTomb(loc)])
    ensures Live(log + [MakeTomb(loc)]) == Without(Live(log), loc)
  {
    LiveBelowCancel(log, loc, |log|);
    var log' := log + [MakeTomb(loc)];
    assert Live(log') == LiveBelow(log', |log|);
  }

  /** No position is named twice: what the writers keep as long as they cancel live entries only. */
  ghost predicate NamedAtMostOnce(log: seq<Word>) {
    forall p: nat :: Naming(log, 0, p) <= 1
  }

  lemma {:induction false} NamingAppend(log: seq<Word>, w: Word, n: nat, p: nat)
    requires n <= |log|
    ensures Naming(log + [w], n, p) == Naming(log, n, p) + if IsTomb(w) && Target(w) == p then 1 else 0
    decreases |log| - n
  {
    if n < |log| {
      NamingAppend(log, w, n + 1, p);
    } else {
      assert Naming(log + [w], n + 1, p) == 0;
    }
  }

  /** Cancelling a live entry, or appending an ordinary one, never names a position twice. */
  lemma AppendKeepsNamedOnce(log: seq<Word>, w: Word)
    requires NamedAtMostOnce(log)
    ensures NamedAtMostOnce(log + [w]) <==> !(IsTomb(w) && Named(log, Target(w)))
  {
    forall p: nat
      ensures Naming(log + [w], 0, p) <= 1 <==> !(IsTomb(w) && Target(w) == p && Named(log, p))
    {
      NamingAppend(log, w, 0, p);
      NamingPositive(log, 0, p);
    }
  }

  lemma NamedOnceIsClean(log: seq<Word>)
    requires NamedAtMostOnce(log)
    ensures Clean(log)
  {
    forall p: nat | Named(log, p)
      ensures Naming(log, 0, p) == 1
    {
      NamingPositive(log, 0, p);
    }
  }

  lemma {:induction false} NamingPrefix(log: seq<Word>, m: nat, n: nat, p: nat)
    requires n <= m <= |log|
    ensures Naming(log[..m], n, p) <= Naming(log, n, p)
    decreases m - n
  {
    if n < m {
      NamingPrefix(log, m, n + 1, p);
    }
  }

  /** Every prefix of a log, which is what a reader of an older epoch sees, inherits both properties. */
  lemma PrefixKeeps(log: seq<Word>, m: nat)
    requires m <= |log|
    ensures WellFormed(log) ==> WellFormed(log[..m])
    ensures NamedAtMostOnce(log) ==> NamedAtMostOnce(log[..m])
  {
    forall p: nat
      ensures Naming(log[..m], 0, p) <= Naming(log, 0, p)
    {
      NamingPrefix(log, m, 0, p);
    }
  }
}
