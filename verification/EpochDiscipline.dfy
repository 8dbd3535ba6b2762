/** How epochs move over a whole run, in logs-per-epoch mode. */
module EpochDiscipline {
  import opened Decimal
  import opened UnifiedLog
  import opened LogParser
  import opened Collector

  /** How many of the messages were counted: those that produced an entry. */
  function Counted(msgs: seq<seq<Entry>>): nat {
    if msgs == [] then 0
    else Counted(msgs[..|msgs| - 1]) + if msgs[|msgs| - 1] == [] then 0 else 1
  }

  /** The epoch given to the entries of message `i`. */
  function EpochOf(cfg: Config, msgs: seq<seq<Entry>>, i: nat): int
    requires cfg.Valid() && i <= |msgs|
  {
    StateAfter(cfg, msgs[..i]).epoch
  }

  lemma StateStep(cfg: Config, msgs: seq<seq<Entry>>, i: nat)
    requires cfg.Valid() && i < |msgs|
    ensures StateAfter(cfg, msgs[..i + 1]) == AfterMessage(cfg, StateAfter(cfg, msgs[..i]), msgs[i])
    ensures Counted(msgs[..i + 1]) == Counted(msgs[..i]) + if msgs[i] == [] then 0 else 1
  {
    assert msgs[..i + 1][..i] == msgs[..i];
  }

  lemma {:induction false} LogCountIsCounted(cfg: Config, msgs: seq<seq<Entry>>)
    requires cfg.Valid()
    ensures StateAfter(cfg, msgs).logCount == Counted(msgs)
  {
    if msgs != [] {
      LogCountIsCounted(cfg, msgs[..|msgs| - 1]);
    }
  }

  // ---------------------------------------------------------------- capture without transactions

  /** Without transaction ids and snapshots the `n`-th counted message, counting from 0, gets epoch
      `n / logsPerEpoch`. */
  lemma {:induction false} PlainEpochs(cfg: Config, msgs: seq<seq<Entry>>, i: nat)
    requires cfg.Valid() && !cfg.debezium && i <= |msgs|
    requires forall m <- msgs :: !EndsSnapshot(m)
    ensures EpochOf(cfg, msgs, i) == ToInt32(Counted(msgs[..i]) / cfg.logsPerEpoch)
  {
    if i == 0 {
      assert 0 / cfg.logsPerEpoch == 0;
    } else {
      StateStep(cfg, msgs, i - 1);
      PlainEpochs(cfg, msgs, i - 1);
      LogCountIsCounted(cfg, msgs[..i - 1]);
      assert msgs[i - 1] in msgs;
    }
  }

  // ---------------------------------------------------------------- transactions

  /** The message carries a transaction id. */
  predicate Transactional(entries: seq<Entry>) {
    entries != [] ==> entries[|entries| - 1].txId != -1
  }

  /** From message `from` on the converter follows a stream of transactions. */
  predicate StreamsFrom(cfg: Config, msgs: seq<seq<Entry>>, from: nat)
    requires cfg.Valid()
  {
    && cfg.debezium && from <= |msgs|
    && (!cfg.enableBulkLoad || StateAfter(cfg, msgs[..from]).bulkLoadFinished)
    && forall i :: from <= i < |msgs| ==> Transactional(msgs[i]) && !EndsSnapshot(msgs[i])
  }

  /** Message `i` ends an epoch. */
  predicate Rises(cfg: Config, msgs: seq<seq<Entry>>, i: nat)
    requires cfg.Valid() && i < |msgs|
  {
    EpochOf(cfg, msgs, i + 1) != EpochOf(cfg, msgs, i)
  }

  /** Counts stay in the lower half of the 64-bit counter. */
  const MAX_COUNT: nat := 0x7fff_ffff_ffff_ffff

  /** The count since the last epoch is compared in mixed widths.  The comparison is exact until the
      epoch's first message passes the range of `int`; from then on it always succeeds. */
  lemma EpochDueIff(logCount: nat, lastCount: nat, logsPerEpoch: nat)
    requires lastCount <= logCount <= MAX_COUNT && logsPerEpoch <= INT32_MAX
    ensures ToUint64(logCount - ToInt32(lastCount)) >= logsPerEpoch <==>
              logCount - lastCount >= logsPerEpoch || lastCount > INT32_MAX
  {
    var wraps := (lastCount - ToInt32(lastCount)) / 0x1_0000_0000;
    assert lastCount - ToInt32(lastCount) == wraps * 0x1_0000_0000;
    assert wraps == 0 <==> lastCount <= INT32_MAX;
  }

  /** One streamed message, in terms of the collector's state; `start` is the count at which the epoch
      began, which the collector remembers as an `int`. */
  lemma StreamMessage(cfg: Config, st: CollectorState, m: seq<Entry>, start: nat)
    requires cfg.Valid() && cfg.debezium && (!cfg.enableBulkLoad || st.bulkLoadFinished)
    requires Transactional(m) && !EndsSnapshot(m)
    requires st.lastLogCount == ToInt32(start) && start <= st.logCount < MAX_COUNT
    ensures var next := AfterMessage(cfg, st, m);
            var starts := m != [] && m[|m| - 1].txId != st.lastTxId;
            var rises := starts && EpochDue(cfg, next.logCount, start);
            && next.bulkLoadFinished == st.bulkLoadFinished
            && next.logCount == st.logCount + (if m == [] then 0 else 1)
            && next.epoch == st.epoch + (if rises then 1 else 0)
            && next.lastLogCount == ToInt32(if rises then next.logCount else start)
            && next.lastTxId == (if m == [] then st.lastTxId else m[|m| - 1].txId)
  {
    EpochDueIff(st.logCount + 1, start, cfg.logsPerEpoch);
  }

  /** Enough messages since the epoch began, or so many before it that the comparison no longer works. */
  predicate EpochDue(cfg: Config, logCount: nat, start: nat) {
    logCount - start >= cfg.logsPerEpoch || start > INT32_MAX
  }

  /** The count at which the epoch of message `i` began; `base` is the count remembered at `from`. */
  function EpochStart(cfg: Config, msgs: seq<seq<Entry>>, from: nat, base: nat, i: nat): nat
    requires cfg.Valid() && from <= i <= |msgs|
    decreases i - from
  {
    if i == from then base
    else if Rises(cfg, msgs, i - 1) then Counted(msgs[..i])
    else EpochStart(cfg, msgs, from, base, i - 1)
  }

  /** The collector enters the stream remembering that the epoch began at `base`. */
  predicate Entered(cfg: Config, msgs: seq<seq<Entry>>, from: nat, base: nat)
    requires cfg.Valid()
  {
    && StreamsFrom(cfg, msgs, from) && base <= Counted(msgs[..from])
    && StateAfter(cfg, msgs[..from]).lastLogCount == ToInt32(base)
    && Counted(msgs) < MAX_COUNT
  }

  /** What the collector remembers while it streams, before message `i`. */
  lemma {:induction false} StreamState(cfg: Config, msgs: seq<seq<Entry>>, from: nat, base: nat, i: nat)
    requires cfg.Valid() && Entered(cfg, msgs, from, base) && from <= i <= |msgs|
    ensures var st := StateAfter(cfg, msgs[..i]);
            && (!cfg.enableBulkLoad || st.bulkLoadFinished)
            && st.lastLogCount == ToInt32(EpochStart(cfg, msgs, from, base, i))
            && EpochStart(cfg, msgs, from, base, i) <= st.logCount == Counted(msgs[..i]) < MAX_COUNT
    decreases i - from
  {
    hide AfterMessage, StateAfter, Counted, ToInt32;
    CountedGrows(msgs, i);
    LogCountIsCounted(cfg, msgs[..i]);
    if i > from {
      StreamState(cfg, msgs, from, base, i - 1);
      StateStep(cfg, msgs, i - 1);
      StreamMessage(cfg, StateAfter(cfg, msgs[..i - 1]), msgs[i - 1], EpochStart(cfg, msgs, from, base, i - 1));
    }
  }

  lemma {:induction false} CountedGrows(msgs: seq<seq<Entry>>, i: nat)
    requires i <= |msgs|
    ensures Counted(msgs[..i]) <= Counted(msgs)
    decreases |msgs| - i
  {
    if i < |msgs| {
      CountedGrows(msgs, i + 1);
      assert msgs[..i + 1][..i] == msgs[..i];
    } else {
      assert msgs[..i] == msgs;
    }
  }

  /** One streamed message raises the epoch by one or not at all.  It raises it exactly when it starts a
      new transaction and the epoch is due to end. */
  lemma StreamStep(cfg: Config, msgs: seq<seq<Entry>>, from: nat, base: nat, i: nat)
    requires cfg.Valid() && Entered(cfg, msgs, from, base) && from <= i < |msgs|
    ensures var st, next := StateAfter(cfg, msgs[..i]), StateAfter(cfg, msgs[..i + 1]);
            && next.epoch == st.epoch + (if Rises(cfg, msgs, i) then 1 else 0)
            && (Rises(cfg, msgs, i) <==>
                  && msgs[i] != [] && msgs[i][|msgs[i]| - 1].txId != st.lastTxId
                  && EpochDue(cfg, Counted(msgs[..i + 1]), EpochStart(cfg, msgs, from, base, i)))
            && next.lastTxId == (if msgs[i] == [] then st.lastTxId else msgs[i][|msgs[i]| - 1].txId)
  {
    hide AfterMessage, StateAfter, Counted;
    StreamState(cfg, msgs, from, base, i);
    StateStep(cfg, msgs, i);
    StreamMessage(cfg, StateAfter(cfg, msgs[..i]), msgs[i], EpochStart(cfg, msgs, from, base, i));
    LogCountIsCounted(cfg, msgs[..i + 1]);
  }

  /** Epochs never decrease while transactions are streamed. */
  lemma {:induction false} EpochsMonotone(cfg: Config, msgs: seq<seq<Entry>>, from: nat, base: nat, i: nat, j: nat)
    requires cfg.Valid() && Entered(cfg, msgs, from, base) && from <= i <= j <= |msgs|
    ensures EpochOf(cfg, msgs, i) <= EpochOf(cfg, msgs, j)
    ensures EpochStart(cfg, msgs, from, base, i) <= EpochStart(cfg, msgs, from, base, j)
    decreases j - i
  {
    hide AfterMessage, StateAfter, Counted;
    if i < j {
      EpochsMonotone(cfg, msgs, from, base, i, j - 1);
      StreamStep(cfg, msgs, from, base, j - 1);
      StreamState(cfg, msgs, from, base, j - 1);
      StreamState(cfg, msgs, from, base, j);
      StateStep(cfg, msgs, j - 1);
    }
  }

  /** Two rises are at least `logsPerEpoch` counted messages apart, until a rise is counted past the range
      of `int`. */
  lemma RisesApart(cfg: Config, msgs: seq<seq<Entry>>, from: nat, base: nat, i: nat, j: nat)
    requires cfg.Valid() && Entered(cfg, msgs, from, base) && from <= i < j < |msgs|
    requires Rises(cfg, msgs, i) && Rises(cfg, msgs, j)
    ensures Counted(msgs[..j + 1]) - Counted(msgs[..i + 1]) >= cfg.logsPerEpoch ||
            EpochStart(cfg, msgs, from, base, j) > INT32_MAX
  {
    hide AfterMessage, StateAfter, Counted;
    StreamStep(cfg, msgs, from, base, j);
    EpochsMonotone(cfg, msgs, from, base, i + 1, j);
    assert EpochStart(cfg, msgs, from, base, i + 1) == Counted(msgs[..i + 1]);
  }

  /** From then on every transaction ends an epoch, however few messages it has. */
  lemma EveryTransactionRises(cfg: Config, msgs: seq<seq<Entry>>, from: nat, base: nat, i: nat, j: nat)
    requires cfg.Valid() && Entered(cfg, msgs, from, base) && from <= i <= j < |msgs|
    requires EpochStart(cfg, msgs, from, base, i) > INT32_MAX
    ensures Rises(cfg, msgs, j) <==>
              msgs[j] != [] && msgs[j][|msgs[j]| - 1].txId != StateAfter(cfg, msgs[..j]).lastTxId
  {
    hide AfterMessage, StateAfter, Counted, Rises;
    EpochsMonotone(cfg, msgs, from, base, i, j);
    StreamStep(cfg, msgs, from, base, j);
  }

  /** Inside a run of messages of one transaction only the first message can end an epoch, so the rest of
      the transaction lies in the next one. */
  lemma {:induction false} RiseStartsTransaction(cfg: Config, msgs: seq<seq<Entry>>, from: nat, base: nat,
                                                 i: nat, j: nat, tx: int)
    requires cfg.Valid() && Entered(cfg, msgs, from, base) && from <= i < j < |msgs|
    requires msgs[i] != []
    requires forall k :: i <= k <= j && msgs[k] != [] ==> msgs[k][|msgs[k]| - 1].txId == tx
    ensures !Rises(cfg, msgs, j) && StateAfter(cfg, msgs[..j]).lastTxId == tx
    decreases j
  {
    hide AfterMessage, StateAfter, Counted;
    StreamStep(cfg, msgs, from, base, j);
    StreamStep(cfg, msgs, from, base, j - 1);
    if j - 1 > i {
      RiseStartsTransaction(cfg, msgs, from, base, i, j - 1, tx);
    }
  }

  /** Messages `i` and `j` of one transaction, everything between them belonging to it too, get the same
      epoch if and only if the first of them does not both start the transaction and end an epoch that is
      due. */
  lemma TransactionEpochIff(cfg: Config, msgs: seq<seq<Entry>>, from: nat, base: nat, i: nat, j: nat, tx: int)
    requires cfg.Valid() && Entered(cfg, msgs, from, base) && from <= i < j < |msgs|
    requires msgs[i] != []
    requires forall k :: i <= k <= j && msgs[k] != [] ==> msgs[k][|msgs[k]| - 1].txId == tx
    ensures EpochOf(cfg, msgs, j) == EpochOf(cfg, msgs, i) <==>
              !(StateAfter(cfg, msgs[..i]).lastTxId != tx &&
                EpochDue(cfg, Counted(msgs[..i + 1]), EpochStart(cfg, msgs, from, base, i)))
  {
    hide AfterMessage, StateAfter, Counted, EpochDue, EpochStart;
    StreamStep(cfg, msgs, from, base, i);
    SameEpochAfterFirst(cfg, msgs, from, base, i, j, tx);
  }

  lemma {:induction false} SameEpochAfterFirst(cfg: Config, msgs: seq<seq<Entry>>, from: nat, base: nat,
                                               i: nat, j: nat, tx: int)
    requires cfg.Valid() && Entered(cfg, msgs, from, base) && from <= i < j < |msgs|
    requires msgs[i] != []
    requires forall k :: i <= k <= j && msgs[k] != [] ==> msgs[k][|msgs[k]| - 1].txId == tx
    ensures EpochOf(cfg, msgs, j) == EpochOf(cfg, msgs, i + 1)
    decreases j
  {
    hide AfterMessage, StateAfter, Counted;
    if j - 1 > i {
      SameEpochAfterFirst(cfg, msgs, from, base, i, j - 1, tx);
      RiseStartsTransaction(cfg, msgs, from, base, i, j - 1, tx);
    }
  }

  /** With one message per epoch, the two messages of transaction 5 get epochs 0 and 1. */
  lemma TransactionInTwoEpochs(cfg: Config)
    requires cfg.Valid() && cfg.debezium && !cfg.enableBulkLoad && cfg.logsPerEpoch == 1
    ensures var m := [Entry(Insert, VertexBody(0, Oid("a", true)), [], 5, NotSnapshot)];
            EpochOf(cfg, [m, m], 0) == 0 && EpochOf(cfg, [m, m], 1) == 1
  {
    var m := [Entry(Insert, VertexBody(0, Oid("a", true)), [], 5, NotSnapshot)];
    StateStep(cfg, [m, m], 0);
    assert [m, m][..0] == [];
  }

  // ---------------------------------------------------------------- bulk load first, stream afterwards

  /** Message `b` is the only one that ends the snapshot, and transactions follow it. */
  predicate BulkLoadThenStream(cfg: Config, msgs: seq<seq<Entry>>, b: nat) {
    && cfg.debezium && cfg.enableBulkLoad && b < |msgs| && EndsSnapshot(msgs[b])
    && (forall i :: 0 <= i < |msgs| && i != b ==> !EndsSnapshot(msgs[i]))
    && (forall i :: b < i < |msgs| ==> Transactional(msgs[i]))
  }

  lemma {:induction false} EpochZeroWhileLoading(cfg: Config, msgs: seq<seq<Entry>>, b: nat, i: nat)
    requires cfg.Valid() && BulkLoadThenStream(cfg, msgs, b) && i <= b
    ensures EpochOf(cfg, msgs, i) == 0 && !StateAfter(cfg, msgs[..i]).bulkLoadFinished
  {
    if i > 0 {
      EpochZeroWhileLoading(cfg, msgs, b, i - 1);
      StateStep(cfg, msgs, i - 1);
    }
  }

  /** Epoch 0 up to and including the record that ends the snapshot, at least 1 after it, never going
      down, and never up by more than one. */
  lemma BulkLoadEpochs(cfg: Config, msgs: seq<seq<Entry>>, b: nat, i: nat)
    requires cfg.Valid() && BulkLoadThenStream(cfg, msgs, b) && i < |msgs| && Counted(msgs) < MAX_COUNT
    ensures i <= b ==> EpochOf(cfg, msgs, i) == 0
    ensures i > b ==> EpochOf(cfg, msgs, i) >= 1
    ensures EpochOf(cfg, msgs, i) <= EpochOf(cfg, msgs, i + 1) <= EpochOf(cfg, msgs, i) + 1
  {
    hide AfterMessage, StateAfter, Counted;
    EpochZeroWhileLoading(cfg, msgs, b, if i <= b then i else b);
    BulkLoadEnds(cfg, msgs, b);
    var base := Counted(msgs[..b + 1]);
    if i < b {
      EpochZeroWhileLoading(cfg, msgs, b, i + 1);
    } else if i > b {
      EpochsMonotone(cfg, msgs, b + 1, base, b + 1, i);
      StreamStep(cfg, msgs, b + 1, base, i);
    }
  }

  lemma BulkLoadEnds(cfg: Config, msgs: seq<seq<Entry>>, b: nat)
    requires cfg.Valid() && BulkLoadThenStream(cfg, msgs, b) && Counted(msgs) < MAX_COUNT
    ensures EpochOf(cfg, msgs, b + 1) == 1 && Entered(cfg, msgs, b + 1, Counted(msgs[..b + 1]))
  {
    StateStep(cfg, msgs, b);
    LogCountIsCounted(cfg, msgs[..b + 1]);
    CountedGrows(msgs, b + 1);
  }

  /** The end of the bulk load is seen only in an entry: the collector takes it as over exactly when some
      message had a last entry that says so, and stays at epoch 0 until then. */
  lemma {:induction false} BulkLoadOverIff(cfg: Config, msgs: seq<seq<Entry>>)
    requires cfg.Valid() && cfg.debezium && cfg.enableBulkLoad
    ensures StateAfter(cfg, msgs).bulkLoadFinished <==> exists m <- msgs :: EndsSnapshot(m)
    ensures !StateAfter(cfg, msgs).bulkLoadFinished ==> StateAfter(cfg, msgs).epoch == 0
  {
    hide EndsSnapshot, AfterMessage;
    if msgs != [] {
      var front, last := msgs[..|msgs| - 1], msgs[|msgs| - 1];
      BulkLoadOverIff(cfg, front);
      OverInOneStep(cfg, StateAfter(cfg, front), last);
      assert msgs == front + [last];
      assert forall m :: m in msgs <==> m in front || m == last;
    }
  }

  lemma OverInOneStep(cfg: Config, st: CollectorState, m: seq<Entry>)
    requires cfg.Valid() && cfg.debezium && cfg.enableBulkLoad
    ensures AfterMessage(cfg, st, m).bulkLoadFinished <==> st.bulkLoadFinished || EndsSnapshot(m)
    ensures !AfterMessage(cfg, st, m).bulkLoadFinished ==> AfterMessage(cfg, st, m).epoch == st.epoch
  {
  }

  /** While streaming, with or without transaction ids, the epoch goes down exactly at a message without
      one whose count stands for an earlier epoch. */
  lemma EpochDropsIff(cfg: Config, msgs: seq<seq<Entry>>, i: nat)
    requires cfg.Valid() && cfg.debezium && i < |msgs| && !EndsSnapshot(msgs[i])
    requires !cfg.enableBulkLoad || StateAfter(cfg, msgs[..i]).bulkLoadFinished
    ensures EpochOf(cfg, msgs, i + 1) < EpochOf(cfg, msgs, i) <==>
              msgs[i] != [] && !Transactional(msgs[i]) &&
              ToInt32(Counted(msgs[..i + 1]) / cfg.logsPerEpoch) < EpochOf(cfg, msgs, i)
  {
    StateStep(cfg, msgs, i);
    LogCountIsCounted(cfg, msgs[..i]);
    hide StateAfter, AfterMessage, Counted, ToInt32;
    DropsInOneStep(cfg, StateAfter(cfg, msgs[..i]), msgs[i]);
  }

  lemma DropsInOneStep(cfg: Config, st: CollectorState, m: seq<Entry>)
    requires cfg.Valid() && cfg.debezium && !EndsSnapshot(m) && (!cfg.enableBulkLoad || st.bulkLoadFinished)
    ensures AfterMessage(cfg, st, m).epoch < st.epoch <==>
              m != [] && !Transactional(m) && ToInt32((st.logCount + 1) / cfg.logsPerEpoch) < st.epoch
  {
    hide ToInt32, ToUint64;
    if m != [] {
      var counted := st.(logCount := st.logCount + 1, processed := st.processed + |m|, history := st.history + m);
      assert AfterMessage(cfg, st, m) == EpochAfter(cfg, counted, m[|m| - 1]);
    }
  }

  /** A streamed message without a transaction id can take the epoch back: right after the bulk load
      (epoch 1) the count may still be below one epoch's worth. */
  lemma MissingTransactionDropsEpoch(cfg: Config, last: Entry, next: Entry)
    requires cfg.Valid() && cfg.debezium && cfg.enableBulkLoad && cfg.logsPerEpoch > 2
    requires last.snapshot.LastOfSnapshot? && !next.snapshot.LastOfSnapshot? && next.txId == -1
    ensures var msgs := [[last], [next]];
            EpochOf(cfg, msgs, 1) == 1 && EpochOf(cfg, msgs, 2) == 0
  {
    var msgs := [[last], [next]];
    StateStep(cfg, msgs, 0);
    StateStep(cfg, msgs, 1);
    assert msgs[..0] == [] && StateAfter(cfg, []) == START;
    hide StateAfter;
    var loaded := StateAfter(cfg, msgs[..1]);
    assert loaded == AfterMessage(cfg, START, [last]);
    assert loaded.epoch == 1 && loaded.logCount == 1 && loaded.bulkLoadFinished;
    assert 2 / cfg.logsPerEpoch == 0 by {
      SmallQuotient(2, cfg.logsPerEpoch);
    }
    hide START;
  }

  lemma SmallQuotient(n: nat, m: nat)
    requires n < m
    ensures n / m == 0
  {
  }
}
