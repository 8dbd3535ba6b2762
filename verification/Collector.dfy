/** The collector: it takes the entries of one message after the other, gives them vertex ids, an epoch
    and a number, and writes those that an earlier run has not written yet. */
module Collector {
  import opened Decimal
  import opened UnifiedLog
  import opened LogParser
  import opened VertexIds
  import opened IdParser

  datatype Config = Config(debezium: bool, enableBulkLoad: bool, logsPerEpoch: nat,
                           subgraphNum: nat, idParser: Parser, vlabels: nat)
  {
    predicate Valid() {
      0 < logsPerEpoch <= INT32_MAX && subgraphNum > 0 && idParser.Valid()
    }
  }

  /** A unified-log entry; `gids` may be unresolved, in which case the line holds indeterminate ids. */
  datatype Item = Data(entry: Entry, epoch: int, gids: Gids) | BulkEnd(epoch: int)

  datatype OutLine = OutLine(item: Item, number: nat)

  /** What the collector knows between two messages. */
  datatype CollectorState = CollectorState(epoch: int, logCount: nat, lastTxId: int, lastLogCount: int, processed: nat,
                         bulkLoadFinished: bool, history: seq<Entry>)

  const START := CollectorState(0, 0, -1, 0, 0, false, [])

  /** Conversion of a count to `int`. */
  function ToInt32(n: int): (r: int)
    ensures INT32_MIN <= r <= INT32_MAX
    ensures INT32_MIN <= n <= INT32_MAX ==> r == n
  {
    var low := n % 0x1_0000_0000;
    if low < 0x8000_0000 then low else low - 0x1_0000_0000
  }

  /** Conversion of a difference to `uint64_t`. */
  function ToUint64(n: int): nat {
    n % 0x1_0000_0000_0000_0000
  }

  /** The epoch bookkeeping after a message; `st` counts the message already, `e` is its last entry. */
  function EpochAfter(cfg: Config, st: CollectorState, e: Entry): CollectorState
    requires cfg.Valid()
  {
    if !cfg.debezium then st.(epoch := ToInt32(st.logCount / cfg.logsPerEpoch))
    else if cfg.enableBulkLoad && !st.bulkLoadFinished then st
    else if e.txId == -1 then st.(epoch := ToInt32(st.logCount / cfg.logsPerEpoch))
    else if e.txId == st.lastTxId then st
    else if ToUint64(st.logCount - st.lastLogCount) >= cfg.logsPerEpoch then
      st.(lastTxId := e.txId, lastLogCount := ToInt32(st.logCount), epoch := st.epoch + 1)
    else st.(lastTxId := e.txId)
  }

  /** The same, and the end of the bulk load if the entry says so. */
  function Finished(cfg: Config, counted: CollectorState, e: Entry): CollectorState
    requires cfg.Valid()
  {
    var moved := EpochAfter(cfg, counted, e);
    if e.snapshot.LastOfSnapshot? then
      moved.(bulkLoadFinished := true, lastTxId := e.txId, lastLogCount := ToInt32(moved.logCount), epoch := 1,
             processed := moved.processed + 1)
    else moved
  }

  predicate EndsSnapshot(entries: seq<Entry>) {
    entries != [] && entries[|entries| - 1].snapshot.LastOfSnapshot?
  }

  /** The state after one message; a message without entries is not counted at all. */
  function AfterMessage(cfg: Config, st: CollectorState, entries: seq<Entry>): CollectorState
    requires cfg.Valid()
  {
    if entries == [] then st
    else
      var e := entries[|entries| - 1];
      var counted := st.(logCount := st.logCount + 1, processed := st.processed + |entries|,
                         history := st.history + entries);
      Finished(cfg, counted, e)
  }

  /** The lines one message stands for, numbered on from the lines before it. */
  function MessageLines(cfg: Config, st: CollectorState, entries: seq<Entry>): (lines: seq<OutLine>)
    requires cfg.Valid() && AllReadable(entries, cfg.vlabels)
    ensures st.processed + |lines| == AfterMessage(cfg, st, entries).processed
    ensures forall k :: 0 <= k < |lines| ==> lines[k].number == st.processed + k + 1
  {
    EntryLines(cfg, st.epoch, st.processed, st.history, entries) +
    if EndsSnapshot(entries) then [OutLine(BulkEnd(1), st.processed + |entries| + 1)] else []
  }

  function EntryLines(cfg: Config, epoch: int, processed: nat, history: seq<Entry>,
                      entries: seq<Entry>): (lines: seq<OutLine>)
    requires cfg.Valid() && AllReadable(entries, cfg.vlabels)
    ensures |lines| == |entries|
    ensures forall k :: 0 <= k < |lines| ==> lines[k].number == processed + k + 1
  {
    seq(|entries|, k requires 0 <= k < |entries| => EntryLine(cfg, epoch, processed, history, entries, k))
  }

  function EntryLine(cfg: Config, epoch: int, processed: nat, history: seq<Entry>, entries: seq<Entry>, k: nat): OutLine
    requires cfg.Valid() && AllReadable(entries, cfg.vlabels) && k < |entries|
  {
    OutLine(Data(entries[k], epoch,
                 Resolve(cfg.idParser, cfg.subgraphNum, history + entries[..k], entries[k], cfg.vlabels)),
            processed + k + 1)
  }

  /** The line of an entry is written whether its ids are known or not; they are not if and only if an end
      of the edge, or the vertex deleted or updated, was never inserted before. */
  lemma UnresolvedLineIff(cfg: Config, epoch: int, processed: nat, history: seq<Entry>, entries: seq<Entry>, k: nat)
    requires cfg.Valid() && AllReadable(entries, cfg.vlabels) && k < |entries|
    ensures var line, before := EntryLines(cfg, epoch, processed, history, entries)[k], history + entries[..k];
            && line.item.Data? && line.item.entry == entries[k]
            && EntryReadable(entries[k], cfg.vlabels)
            && (line.item.gids.Unresolved? <==>
                  match entries[k].body
                  case VertexBody(v, oid) => !entries[k].op.Insert? && !EverInserted(before, v, KeyOf(oid))
                  case EdgeBody(_, s, d, src, dst) =>
                    !EverInserted(before, s, KeyOf(src)) || !EverInserted(before, d, KeyOf(dst)))
  {
    assert entries[k] in entries;
    UnresolvedIff(cfg.idParser, cfg.subgraphNum, history + entries[..k], entries[k], cfg.vlabels);
    hide EverInserted, Resolve;
  }

  /** The first entry is an edge between vertices nobody inserted: its line is written, without ids. */
  lemma UnknownEndIsWritten(cfg: Config)
    requires cfg.Valid() && cfg.vlabels > 0
    ensures var edge := Entry(Insert, EdgeBody(0, 0, 0, Oid("a", true), Oid("b", true)), [], 5, NotSnapshot);
            && AllReadable([edge], cfg.vlabels)
            && MessageLines(cfg, START, [edge]) == [OutLine(Data(edge, 0, Unresolved), 1)]
  {
    var edge := Entry(Insert, EdgeBody(0, 0, 0, Oid("a", true), Oid("b", true)), [], 5, NotSnapshot);
    assert [] + [edge][..0] == [];
    assert EntryLines(cfg, 0, 0, [], [edge])[0] == OutLine(Data(edge, 0, Unresolved), 1);
  }

  // ---------------------------------------------------------------- whole runs

  predicate RunReadable(cfg: Config, msgs: seq<seq<Entry>>) {
    forall m <- msgs :: AllReadable(m, cfg.vlabels)
  }

  function StateAfter(cfg: Config, msgs: seq<seq<Entry>>): CollectorState
    requires cfg.Valid()
  {
    if msgs == [] then START
    else AfterMessage(cfg, StateAfter(cfg, msgs[..|msgs| - 1]), msgs[|msgs| - 1])
  }

  /** Everything an undisturbed run over these messages writes. */
  function RunLines(cfg: Config, msgs: seq<seq<Entry>>): (lines: seq<OutLine>)
    requires cfg.Valid() && RunReadable(cfg, msgs)
    ensures |lines| == StateAfter(cfg, msgs).processed
    ensures forall k :: 0 <= k < |lines| ==> lines[k].number == k + 1
  {
    if msgs == [] then []
    else
      var front := msgs[..|msgs| - 1];
      RunLines(cfg, front) + MessageLines(cfg, StateAfter(cfg, front), msgs[|msgs| - 1])
  }

  /** More input only adds lines. */
  lemma {:induction false} RunLinesGrow(cfg: Config, msgs: seq<seq<Entry>>, more: seq<seq<Entry>>)
    requires cfg.Valid() && RunReadable(cfg, msgs + more)
    ensures RunReadable(cfg, msgs) && RunLines(cfg, msgs) <= RunLines(cfg, msgs + more)
    decreases |more|
  {
    hide RunLines, AllReadable;
    if more == [] {
      assert msgs + more == msgs;
    } else {
      assert (msgs + more)[..|msgs + more| - 1] == msgs + more[..|more| - 1];
      RunLinesFront(cfg, msgs + more);
      RunLinesGrow(cfg, msgs, more[..|more| - 1]);
    }
  }

  lemma RunLinesFront(cfg: Config, msgs: seq<seq<Entry>>)
    requires cfg.Valid() && msgs != [] && RunReadable(cfg, msgs)
    ensures RunReadable(cfg, msgs[..|msgs| - 1]) && RunLines(cfg, msgs[..|msgs| - 1]) <= RunLines(cfg, msgs)
  {
    hide AllReadable, MessageLines, AfterMessage;
    assert forall m <- msgs[..|msgs| - 1] :: m in msgs;
  }

  /** The lines a run writes that was told to skip the first `offset` numbers. */
  function NewLines(lines: seq<OutLine>, offset: int): seq<OutLine> {
    if lines == [] then []
    else (if lines[0].number > offset then [lines[0]] else []) + NewLines(lines[1..], offset)
  }

  lemma {:induction false} NewLinesConcat(a: seq<OutLine>, b: seq<OutLine>, offset: int)
    ensures NewLines(a + b, offset) == NewLines(a, offset) + NewLines(b, offset)
  {
    if a == [] {
      assert a + b == b;
    } else {
      assert (a + b)[1..] == a[1..] + b;
      NewLinesConcat(a[1..], b, offset);
    }
  }

  lemma NewLinesExtend(lines: seq<OutLine>, n: nat, offset: int)
    requires n < |lines|
    ensures NewLines(lines[..n + 1], offset) ==
            NewLines(lines[..n], offset) + if lines[n].number > offset then [lines[n]] else []
  {
    assert lines[..n + 1] == lines[..n] + [lines[n]];
    NewLinesConcat(lines[..n], [lines[n]], offset);
  }

  /** On consecutive numbers, skipping up to `offset` is dropping the first `offset - first` lines. */
  lemma {:induction false} NewLinesIsDrop(lines: seq<OutLine>, first: nat, offset: nat)
    requires forall k :: 0 <= k < |lines| ==> lines[k].number == first + k + 1
    ensures NewLines(lines, offset) ==
            if offset <= first then lines else if offset - first <= |lines| then lines[offset - first..] else []
  {
    if lines != [] {
      NewLinesIsDrop(lines[1..], first + 1, offset);
      if first + 1 < offset && offset - first <= |lines| {
        assert lines[1..][offset - first - 1..] == lines[offset - first..];
      }
    }
  }

  // ---------------------------------------------------------------- the collector itself

  class Collector {
    const cfg: Config
    const lastProcessedOffset: nat
    const parser: GidTable
    var epoch: int
    var logCount: nat
    var lastTxId: int
    var lastLogCount: int
    var processedCount: nat
    var bulkLoadFinished: bool
    var catchUpMode: bool

    ghost predicate Valid()
      reads this, parser
    {
      && cfg.Valid() && parser.Valid()
      && parser.subgraphNum == cfg.subgraphNum && parser.idParser == cfg.idParser && parser.vlabels == cfg.vlabels
      && (catchUpMode ==> processedCount <= lastProcessedOffset)
      && (!catchUpMode ==> processedCount >= lastProcessedOffset)
    }

    ghost function Known(): CollectorState
      reads this, parser
    {
      CollectorState(epoch, logCount, lastTxId, lastLogCount, processedCount, bulkLoadFinished, parser.history)
    }

    constructor (cfg: Config, lastProcessedOffset: nat)
      requires cfg.Valid()
      ensures Valid() && fresh(parser) && Known() == START
      ensures this.cfg == cfg && this.lastProcessedOffset == lastProcessedOffset
    {
      this.cfg, this.lastProcessedOffset := cfg, lastProcessedOffset;
      parser := new GidTable(cfg.subgraphNum, cfg.idParser, cfg.vlabels);
      epoch, logCount, lastTxId, lastLogCount := 0, 0, -1, 0;
      processedCount, bulkLoadFinished, catchUpMode := 0, false, true;
    }

    /** Counts one more line, and says whether it is to be written. */
    method CountLine() returns (write: bool)
      requires Valid()
      modifies this`processedCount, this`catchUpMode
      ensures Valid() && processedCount == old(processedCount) + 1
      ensures write <==> processedCount > lastProcessedOffset
    {
      if catchUpMode {
        if processedCount >= lastProcessedOffset {
          catchUpMode := false;
        }
      }
      processedCount := processedCount + 1;
      write := !catchUpMode;
    }

    method WriteEntries(entries: seq<Entry>) returns (written: seq<OutLine>)
      requires Valid() && AllReadable(entries, cfg.vlabels)
      modifies this`processedCount, this`catchUpMode, parser
      ensures Valid() && parser.history == old(parser.history) + entries
      ensures processedCount == old(processedCount) + |entries|
      ensures written == NewLines(EntryLines(cfg, epoch, old(processedCount), old(parser.history), entries),
                                  lastProcessedOffset)
    {
      ghost var processed, history := processedCount, parser.history;
      ghost var all := EntryLines(cfg, epoch, processed, history, entries);
      written := [];
      assert history + entries[..0] == history;
      for logId := 0 to |entries|
        invariant Valid() && parser.history == history + entries[..logId]
        invariant processedCount == processed + logId
        invariant written == NewLines(all[..logId], lastProcessedOffset)
      {
        var write := CountLine();
        assert entries[logId] in entries;
        var gids, complete := parser.ParseAgain(entries[logId]);
        var line := OutLine(Data(entries[logId], epoch, gids), processedCount);
        assert line == all[logId];
        NewLinesExtend(all, logId, lastProcessedOffset);
        assert history + entries[..logId] + [entries[logId]] == history + entries[..logId + 1];
        if write {
          written := written + [line];
        }
      }
      assert all[..|entries|] == all;
      assert entries[..|entries|] == entries;
    }

    /** The epoch part of the loop, in logs-per-epoch mode. */
    method MoveEpoch(e: Entry)
      requires Valid()
      modifies this`epoch, this`lastTxId, this`lastLogCount
      ensures Valid() && Known() == EpochAfter(cfg, old(Known()), e)
    {
      if !cfg.debezium {
        epoch := ToInt32(logCount / cfg.logsPerEpoch);
      } else if !cfg.enableBulkLoad || (cfg.enableBulkLoad && bulkLoadFinished) {
        var txId := e.txId;
        if txId == -1 {
          epoch := ToInt32(logCount / cfg.logsPerEpoch);
        } else if txId != lastTxId {
          lastTxId := txId;
          if ToUint64(logCount - lastLogCount) >= cfg.logsPerEpoch {
            lastLogCount := ToInt32(logCount);
            epoch := epoch + 1;
          }
        }
      }
    }

    /** The end of the bulk load: a record of its own, and epoch 1 from here on. */
    method EndBulkLoad(e: Entry) returns (written: seq<OutLine>)
      requires Valid()
      modifies this
      ensures Valid() && parser.history == old(parser.history)
      ensures Known() == old(Known()).(bulkLoadFinished := true, lastTxId := e.txId,
                           lastLogCount := ToInt32(old(logCount)), epoch := 1, processed := old(processedCount) + 1)
      ensures written == NewLines([OutLine(BulkEnd(1), old(processedCount) + 1)], lastProcessedOffset)
    {
      bulkLoadFinished := true;
      lastTxId := e.txId;
      lastLogCount := ToInt32(logCount);
      epoch := 1;
      var write := CountLine();
      written := if write then [OutLine(BulkEnd(1), processedCount)] else [];
    }

    method CountMessage(entries: seq<Entry>) returns (written: seq<OutLine>)
      requires Valid() && AllReadable(entries, cfg.vlabels)
      modifies this`logCount, this`processedCount, this`catchUpMode, parser
      ensures Valid() && Known() == old(Known()).(logCount := old(logCount) + 1,
                                      processed := old(processedCount) + |entries|,
                                      history := old(parser.history) + entries)
      ensures written == NewLines(EntryLines(cfg, old(epoch), old(processedCount), old(parser.history), entries),
                                  lastProcessedOffset)
    {
      hide EntryLines, NewLines, GidTable.Valid;
      logCount := logCount + 1;
      written := WriteEntries(entries);
    }

    /** One turn of `process_binlog_step_2`: the entries of one message, as counted by its parser. */
    method ProcessMessage(entries: seq<Entry>) returns (written: seq<OutLine>)
      requires Valid() && AllReadable(entries, cfg.vlabels)
      modifies this, parser
      ensures Valid() && Known() == AfterMessage(cfg, old(Known()), entries)
      ensures written == NewLines(MessageLines(cfg, old(Known()), entries), lastProcessedOffset)
    {
      if |entries| == 0 {
        assert MessageLines(cfg, Known(), entries) == [];
        return [];
      }
      MessageLinesParts(cfg, Known(), entries, lastProcessedOffset);
      hide Finished, MessageLines, EntryLines, NewLines, GidTable.Valid;
      written := CountMessage(entries);
      var more := FinishMessage(entries[|entries| - 1]);
      written := written + more;
    }

    method FinishMessage(e: Entry) returns (written: seq<OutLine>)
      requires Valid()
      modifies this
      ensures Valid() && Known() == Finished(cfg, old(Known()), e)
      ensures written ==
              if e.snapshot.LastOfSnapshot? then
                NewLines([OutLine(BulkEnd(1), old(processedCount) + 1)], lastProcessedOffset)
              else []
    {
      hide EpochAfter, NewLines, GidTable.Valid;
      MoveEpoch(e);
      written := [];
      if e.snapshot.LastOfSnapshot? {
        written := EndBulkLoad(e);
      }
    }
  }

  lemma MessageLinesParts(cfg: Config, st: CollectorState, entries: seq<Entry>, offset: nat)
    requires cfg.Valid() && AllReadable(entries, cfg.vlabels)
    ensures NewLines(MessageLines(cfg, st, entries), offset) ==
            NewLines(EntryLines(cfg, st.epoch, st.processed, st.history, entries), offset) +
            if EndsSnapshot(entries) then NewLines([OutLine(BulkEnd(1), st.processed + |entries| + 1)], offset) else []
  {
    hide EntryLines, NewLines, AfterMessage, AllReadable;
    var plain := EntryLines(cfg, st.epoch, st.processed, st.history, entries);
    if EndsSnapshot(entries) {
      NewLinesConcat(plain, [OutLine(BulkEnd(1), st.processed + |entries| + 1)], offset);
    } else {
      assert MessageLines(cfg, st, entries) == plain;
    }
  }

  /** A whole run of the collector, from a restart offset. */
  method Run(cfg: Config, lastProcessedOffset: nat, msgs: seq<seq<Entry>>) returns (written: seq<OutLine>)
    requires cfg.Valid() && RunReadable(cfg, msgs)
    ensures written == NewLines(RunLines(cfg, msgs), lastProcessedOffset)
  {
    var collector := new Collector(cfg, lastProcessedOffset);
    written := [];
    assert msgs[..0] == [];
    hide MessageLines, AfterMessage, NewLines, StateAfter, RunLines, RunReadable, AllReadable;
    for i := 0 to |msgs|
      invariant collector.Valid() && collector.cfg == cfg && collector.lastProcessedOffset == lastProcessedOffset
      invariant fresh(collector) && fresh(collector.parser)
      invariant RunReadable(cfg, msgs[..i])
      invariant collector.Known() == StateAfter(cfg, msgs[..i])
      invariant written == NewLines(RunLines(cfg, msgs[..i]), lastProcessedOffset)
    {
      RunStep(cfg, msgs, i, lastProcessedOffset);
      var more := collector.ProcessMessage(msgs[i]);
      written := written + more;
    }
    assert msgs[..|msgs|] == msgs;
  }

  lemma RunStep(cfg: Config, msgs: seq<seq<Entry>>, i: nat, offset: nat)
    requires cfg.Valid() && RunReadable(cfg, msgs) && i < |msgs| && RunReadable(cfg, msgs[..i])
    ensures AllReadable(msgs[i], cfg.vlabels) && RunReadable(cfg, msgs[..i + 1])
    ensures StateAfter(cfg, msgs[..i + 1]) == AfterMessage(cfg, StateAfter(cfg, msgs[..i]), msgs[i])
    ensures NewLines(RunLines(cfg, msgs[..i + 1]), offset) ==
            NewLines(RunLines(cfg, msgs[..i]), offset) +
            NewLines(MessageLines(cfg, StateAfter(cfg, msgs[..i]), msgs[i]), offset)
  {
    hide MessageLines, AfterMessage, NewLines, AllReadable;
    assert msgs[..i + 1][..i] == msgs[..i];
    assert msgs[i] in msgs;
    NewLinesConcat(RunLines(cfg, msgs[..i]), MessageLines(cfg, StateAfter(cfg, msgs[..i]), msgs[i]), offset);
  }
}
