/** What every line of the output says: the place, the epoch and the fields of each entry of a run. */
module LineContents {
  import opened Decimal
  import opened UnifiedLog
  import opened LogParser
  import opened VertexIds
  import opened Collector
  import opened CrashRecovery
  import opened EpochDiscipline

  /** The entries of the first `m` messages. */
  function EntriesBefore(msgs: seq<seq<Entry>>, m: nat): seq<Entry>
    requires m <= |msgs|
  {
    if m == 0 then [] else EntriesBefore(msgs, m - 1) + msgs[m - 1]
  }

  /** How many of the first `m` messages end a snapshot; each of them is followed by a line of its own. */
  function SnapshotEnds(msgs: seq<seq<Entry>>, m: nat): nat
    requires m <= |msgs|
  {
    if m == 0 then 0 else SnapshotEnds(msgs, m - 1) + if EndsSnapshot(msgs[m - 1]) then 1 else 0
  }

  /** Where the line of entry `k` of message `m` stands. */
  function LineIndex(msgs: seq<seq<Entry>>, m: nat, k: nat): nat
    requires m < |msgs| && k <= |msgs[m]|
  {
    |EntriesBefore(msgs, m)| + SnapshotEnds(msgs, m) + k
  }

  // ---------------------------------------------------------------- where the lines are

  lemma {:induction false} StateOfRun(cfg: Config, msgs: seq<seq<Entry>>, m: nat)
    requires cfg.Valid() && m <= |msgs|
    ensures StateAfter(cfg, msgs[..m]).history == EntriesBefore(msgs, m)
    ensures StateAfter(cfg, msgs[..m]).processed == |EntriesBefore(msgs, m)| + SnapshotEnds(msgs, m)
  {
    if m > 0 {
      StateOfRun(cfg, msgs, m - 1);
      StateStep(cfg, msgs, m - 1);
      CountOfMessage(cfg, StateAfter(cfg, msgs[..m - 1]), msgs[m - 1]);
    }
  }

  lemma CountOfMessage(cfg: Config, st: CollectorState, entries: seq<Entry>)
    requires cfg.Valid()
    ensures AfterMessage(cfg, st, entries).history == st.history + entries
    ensures AfterMessage(cfg, st, entries).processed ==
            st.processed + |entries| + if EndsSnapshot(entries) then 1 else 0
  {
  }

  /** The lines of message `m` are those after the lines of the messages before it. */
  lemma LinesOfMessage(cfg: Config, msgs: seq<seq<Entry>>, m: nat)
    requires cfg.Valid() && RunReadable(cfg, msgs) && m < |msgs|
    ensures RunReadable(cfg, msgs[..m]) && AllReadable(msgs[m], cfg.vlabels)
    ensures RunLines(cfg, msgs[..m]) + MessageLines(cfg, StateAfter(cfg, msgs[..m]), msgs[m]) <= RunLines(cfg, msgs)
    ensures |RunLines(cfg, msgs[..m])| == LineIndex(msgs, m, 0)
  {
    hide MessageLines, AfterMessage, AllReadable, EndsSnapshot;
    assert msgs[m] in msgs;
    assert forall x <- msgs[..m + 1] :: x in msgs;
    assert forall x <- msgs[..m] :: x in msgs;
    assert msgs[..m + 1][..m] == msgs[..m];
    assert msgs[..m + 1] + msgs[m + 1..] == msgs;
    RunLinesGrow(cfg, msgs[..m + 1], msgs[m + 1..]);
    StateOfRun(cfg, msgs, m);
  }

  /** The line of every entry of a run: its place, its number, the epoch of its message, and the ids it is
      given by the entries before it. */
  lemma DataLine(cfg: Config, msgs: seq<seq<Entry>>, m: nat, k: nat)
    requires cfg.Valid() && RunReadable(cfg, msgs) && m < |msgs| && k < |msgs[m]|
    ensures EntryReadable(msgs[m][k], cfg.vlabels)
    ensures var n, history := LineIndex(msgs, m, k), EntriesBefore(msgs, m) + msgs[m][..k];
            && n < |RunLines(cfg, msgs)|
            && RunLines(cfg, msgs)[n] ==
               OutLine(Data(msgs[m][k], EpochOf(cfg, msgs, m),
                            Resolve(cfg.idParser, cfg.subgraphNum, history, msgs[m][k], cfg.vlabels)), n + 1)
  {
    StateOfRun(cfg, msgs, m);
    LinesOfMessage(cfg, msgs, m);
    assert msgs[m][k] in msgs[m];
    LineOfEntry(cfg, StateAfter(cfg, msgs[..m]), msgs[m], k);
    hide *;
    var before, lines := RunLines(cfg, msgs[..m]), MessageLines(cfg, StateAfter(cfg, msgs[..m]), msgs[m]);
    assert (before + lines)[|before| + k] == lines[k];
    assert LineIndex(msgs, m, k) == |before| + k by {
      IndexStep(msgs, m, k);
    }
    EpochIs(cfg, msgs, m);
  }

  lemma IndexStep(msgs: seq<seq<Entry>>, m: nat, k: nat)
    requires m < |msgs| && k <= |msgs[m]|
    ensures LineIndex(msgs, m, k) == LineIndex(msgs, m, 0) + k
  {
  }

  lemma EpochIs(cfg: Config, msgs: seq<seq<Entry>>, m: nat)
    requires cfg.Valid() && m <= |msgs|
    ensures EpochOf(cfg, msgs, m) == StateAfter(cfg, msgs[..m]).epoch
  {
  }

  lemma LineOfEntry(cfg: Config, st: CollectorState, entries: seq<Entry>, k: nat)
    requires cfg.Valid() && AllReadable(entries, cfg.vlabels) && k < |entries|
    ensures EntryReadable(entries[k], cfg.vlabels) && k < |MessageLines(cfg, st, entries)|
    ensures MessageLines(cfg, st, entries)[k] ==
            OutLine(Data(entries[k], st.epoch,
                         Resolve(cfg.idParser, cfg.subgraphNum, st.history + entries[..k], entries[k], cfg.vlabels)),
                    st.processed + k + 1)
  {
    hide Resolve, EntryReadable;
    assert entries[k] in entries;
  }

  /** After the entries of a message that ends the snapshot there is the line that says so. */
  lemma SnapshotLine(cfg: Config, msgs: seq<seq<Entry>>, m: nat)
    requires cfg.Valid() && RunReadable(cfg, msgs) && m < |msgs|
    requires msgs[m] != [] && msgs[m][|msgs[m]| - 1].snapshot == LastOfSnapshot
    ensures var n := LineIndex(msgs, m, |msgs[m]|);
            n < |RunLines(cfg, msgs)| && RunLines(cfg, msgs)[n] == OutLine(BulkEnd(1), n + 1)
  {
    StateOfRun(cfg, msgs, m);
    LinesOfMessage(cfg, msgs, m);
    IndexStep(msgs, m, |msgs[m]|);
    hide RunLines, RunReadable, StateAfter, EntriesBefore, SnapshotEnds, AllReadable, EntryLines, AfterMessage;
    var st := StateAfter(cfg, msgs[..m]);
    var before, lines := RunLines(cfg, msgs[..m]), MessageLines(cfg, st, msgs[m]);
    assert lines[|msgs[m]|] == OutLine(BulkEnd(1), st.processed + |msgs[m]| + 1);
    assert (before + lines)[|before| + |msgs[m]|] == lines[|msgs[m]|];
  }

  /** There are no other lines. */
  lemma LineCount(cfg: Config, msgs: seq<seq<Entry>>)
    requires cfg.Valid() && RunReadable(cfg, msgs)
    ensures |RunLines(cfg, msgs)| == |EntriesBefore(msgs, |msgs|)| + SnapshotEnds(msgs, |msgs|)
  {
    StateOfRun(cfg, msgs, |msgs|);
    assert msgs[..|msgs|] == msgs;
  }

  // ---------------------------------------------------------------- what they spell out

  /** The id of the `r`-th vertex inserted under a label: round robin over the fragments. */
  function GidOfRank(cfg: Config, vlabel: int, r: nat): int
    requires cfg.Valid() && vlabel >= 0
  {
    cfg.idParser.GenerateId(r % cfg.subgraphNum, vlabel, r / cfg.subgraphNum)
  }

  /** The places at which the entries insert a vertex of this label. */
  ghost function InsertPlaces(history: seq<Entry>, vlabel: int): set<nat> {
    set i: nat | i < |history| && history[i].op == Insert && history[i].body.VertexBody? &&
                 history[i].body.vlabel == vlabel
  }

  /** The rank of a vertex is how many of its label were inserted before it. */
  lemma {:induction false} InsertsIsCount(history: seq<Entry>, vlabel: int)
    ensures Inserts(history, vlabel) == |InsertPlaces(history, vlabel)|
  {
    if history == [] {
      assert InsertPlaces(history, vlabel) == {};
    } else {
      var n := |history| - 1;
      InsertsIsCount(history[..n], vlabel);
      PlacesStep(history, vlabel, n);
    }
  }

  lemma PlacesStep(history: seq<Entry>, vlabel: int, n: nat)
    requires n + 1 == |history|
    ensures n !in InsertPlaces(history[..n], vlabel)
    ensures InsertPlaces(history, vlabel) ==
            InsertPlaces(history[..n], vlabel) + if InsertsUnder(history[n], vlabel) then {n} else {}
  {
    var front := history[..n];
    assert forall i :: 0 <= i < n ==> front[i] == history[i];
    forall i: nat
      ensures i in InsertPlaces(history, vlabel) <==>
                i in InsertPlaces(front, vlabel) || (i == n && InsertsUnder(history[n], vlabel))
    {
    }
  }

  /** The line of an edge whose ends were both inserted, in full: the operation, the epoch of the message,
      the edge's label, the id issued to the latest insert of the source, the one issued to the latest insert
      of the destination, the two source ids in the same order, the properties and the number. */
  lemma EdgeLineReads(cfg: Config, msgs: seq<seq<Entry>>, m: nat, k: nat, i: nat, j: nat, junk: (int, int))
    requires cfg.Valid() && RunReadable(cfg, msgs) && m < |msgs| && k < |msgs[m]| && msgs[m][k].body.EdgeBody?
    requires var history, b := EntriesBefore(msgs, m) + msgs[m][..k], msgs[m][k].body;
             LatestInsert(history, i, b.srcLabel, b.src) && LatestInsert(history, j, b.dstLabel, b.dst)
    ensures var history, e, n := EntriesBefore(msgs, m) + msgs[m][..k], msgs[m][k], LineIndex(msgs, m, k);
            && n < |RunLines(cfg, msgs)| && e.body.srcLabel >= 0 && e.body.dstLabel >= 0
            && TextOf(RunLines(cfg, msgs)[n], junk) ==
               Join([match e.op case Insert => "add_edge" case Update => "update_edge" case Delete => "delete_edge",
                     Print(EpochOf(cfg, msgs, m)), Print(e.body.elabel),
                     Print(GidOfRank(cfg, e.body.srcLabel, Inserts(history[..i], e.body.srcLabel))),
                     Print(GidOfRank(cfg, e.body.dstLabel, Inserts(history[..j], e.body.dstLabel))),
                     e.body.src.text, e.body.dst.text] + e.properties + [Print(n + 1)])
  {
    hide *;
    var history, e, n := EntriesBefore(msgs, m) + msgs[m][..k], msgs[m][k], LineIndex(msgs, m, k);
    DataLine(cfg, msgs, m, k);
    EdgeIdsOf(cfg, history, e, i, j);
    EdgeText(e, EpochOf(cfg, msgs, m), GidOfRank(cfg, e.body.srcLabel, Inserts(history[..i], e.body.srcLabel)),
             GidOfRank(cfg, e.body.dstLabel, Inserts(history[..j], e.body.dstLabel)), n + 1, junk);
  }

  lemma EdgeIdsOf(cfg: Config, history: seq<Entry>, e: Entry, i: nat, j: nat)
    requires cfg.Valid() && EntryReadable(e, cfg.vlabels) && e.body.EdgeBody?
    requires LatestInsert(history, i, e.body.srcLabel, e.body.src)
    requires LatestInsert(history, j, e.body.dstLabel, e.body.dst)
    ensures i <= |history| && j <= |history| && e.body.srcLabel >= 0 && e.body.dstLabel >= 0
    ensures Resolve(cfg.idParser, cfg.subgraphNum, history, e, cfg.vlabels) ==
            EdgeGids(GidOfRank(cfg, e.body.srcLabel, Inserts(history[..i], e.body.srcLabel)),
                     GidOfRank(cfg, e.body.dstLabel, Inserts(history[..j], e.body.dstLabel)))
  {
    hide Inserts, InsertsOid, Resolve, KthGid, GidOfRank;
    ResolvedIds(cfg.idParser, cfg.subgraphNum, history, e, cfg.vlabels);
    RanksAreKth(cfg, e.body.srcLabel, Inserts(history[..i], e.body.srcLabel));
    RanksAreKth(cfg, e.body.dstLabel, Inserts(history[..j], e.body.dstLabel));
  }

  lemma RanksAreKth(cfg: Config, vlabel: int, r: nat)
    requires cfg.Valid() && vlabel >= 0
    ensures GidOfRank(cfg, vlabel, r) == KthGid(cfg.idParser, cfg.subgraphNum, vlabel, r)
  {
  }

  lemma EdgeText(e: Entry, epoch: int, srcGid: int, dstGid: int, number: nat, junk: (int, int))
    requires e.body.EdgeBody?
    ensures TextOf(OutLine(Data(e, epoch, EdgeGids(srcGid, dstGid)), number), junk) ==
            Join([match e.op case Insert => "add_edge" case Update => "update_edge" case Delete => "delete_edge",
                  Print(epoch), Print(e.body.elabel), Print(srcGid), Print(dstGid), e.body.src.text, e.body.dst.text]
                 + e.properties + [Print(number)])
  {
    hide Join, Print;
    var name := match e.op case Insert => "add_edge" case Update => "update_edge" case Delete => "delete_edge";
    assert OpName(e.op) + "_edge" == name;
    var keys := [Print(epoch), Print(e.body.elabel), Print(srcGid), Print(dstGid), e.body.src.text, e.body.dst.text];
    assert [name] + keys == [name, Print(epoch), Print(e.body.elabel), Print(srcGid), Print(dstGid), e.body.src.text,
                             e.body.dst.text];
  }

  /** The same for a vertex: an inserted one gets the id of its own rank, a deleted or updated one shows the
      id of its latest insert, which is entry `i`. */
  lemma VertexLineReads(cfg: Config, msgs: seq<seq<Entry>>, m: nat, k: nat, i: nat, junk: (int, int))
    requires cfg.Valid() && RunReadable(cfg, msgs) && m < |msgs| && k < |msgs[m]| && msgs[m][k].body.VertexBody?
    requires var history, e := EntriesBefore(msgs, m) + msgs[m][..k], msgs[m][k];
             if e.op == Insert then i == |history| else LatestInsert(history, i, e.body.vlabel, e.body.oid)
    ensures var history, e, n := EntriesBefore(msgs, m) + msgs[m][..k], msgs[m][k], LineIndex(msgs, m, k);
            && n < |RunLines(cfg, msgs)| && e.body.vlabel >= 0
            && TextOf(RunLines(cfg, msgs)[n], junk) ==
               Join([match e.op case Insert => "add_vertex" case Update => "update_vertex"
                                case Delete => "delete_vertex",
                     Print(EpochOf(cfg, msgs, m)),
                     Print(GidOfRank(cfg, e.body.vlabel, Inserts(history[..i], e.body.vlabel))),
                     e.body.oid.text] + e.properties + [Print(n + 1)])
  {
    hide *;
    var history, e, n := EntriesBefore(msgs, m) + msgs[m][..k], msgs[m][k], LineIndex(msgs, m, k);
    DataLine(cfg, msgs, m, k);
    VertexIdOf(cfg, history, e, i);
    VertexText(e, EpochOf(cfg, msgs, m), GidOfRank(cfg, e.body.vlabel, Inserts(history[..i], e.body.vlabel)), n + 1,
               junk);
  }

  lemma VertexIdOf(cfg: Config, history: seq<Entry>, e: Entry, i: nat)
    requires cfg.Valid() && EntryReadable(e, cfg.vlabels) && e.body.VertexBody?
    requires if e.op == Insert then i == |history| else LatestInsert(history, i, e.body.vlabel, e.body.oid)
    ensures i <= |history| && e.body.vlabel >= 0
    ensures Resolve(cfg.idParser, cfg.subgraphNum, history, e, cfg.vlabels) ==
            VertexGid(GidOfRank(cfg, e.body.vlabel, Inserts(history[..i], e.body.vlabel)))
  {
    hide Inserts, InsertsOid, Resolve, KthGid, GidOfRank;
    ResolvedIds(cfg.idParser, cfg.subgraphNum, history, e, cfg.vlabels);
    assert history[..|history|] == history;
    RanksAreKth(cfg, e.body.vlabel, Inserts(history[..i], e.body.vlabel));
  }

  lemma VertexText(e: Entry, epoch: int, gid: int, number: nat, junk: (int, int))
    requires e.body.VertexBody?
    ensures TextOf(OutLine(Data(e, epoch, VertexGid(gid)), number), junk) ==
            Join([match e.op case Insert => "add_vertex" case Update => "update_vertex" case Delete => "delete_vertex",
                  Print(epoch), Print(gid), e.body.oid.text] + e.properties + [Print(number)])
  {
    hide Join, Print;
    var name := match e.op case Insert => "add_vertex" case Update => "update_vertex" case Delete => "delete_vertex";
    assert OpName(e.op) + "_vertex" == name;
    assert [name] + [Print(epoch), Print(gid), e.body.oid.text] == [name, Print(epoch), Print(gid), e.body.oid.text];
  }
}
