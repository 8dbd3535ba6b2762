/** The end of the bulk load, in terms of the captured messages. */
module BulkLoad {
  import opened LogParser
  import opened UnifiedLog
  import opened Collector
  import opened EpochDiscipline

  /** An end of the edge is null in this image. */
  predicate EndMissing(kind: LabelKind, row: Row)
    requires kind.EdgeLabel?
  {
    Column(row, kind.srcColumn) == VNull || Column(row, kind.dstColumn) == VNull
  }

  /** A label for which a message stands for no entry: an edge label, and an end is null in every image the
      operation is about. */
  predicate NoEntryFor(glabel: GraphLabel, msg: Message) {
    && glabel.kind.EdgeLabel?
    && (msg.op != Insert ==> EndMissing(glabel.kind, msg.before))
    && (msg.op != Delete ==> EndMissing(glabel.kind, msg.after))
  }

  /** A message stands for nothing if and only if its table is not mapped, or all its labels are edge labels
      with a null end. */
  lemma ExpandEmptyIff(schema: Schema, msg: Message)
    ensures Expand(schema, msg) == [] <==>
              msg.table !in schema || forall glabel <- schema[msg.table] :: NoEntryFor(glabel, msg)
  {
    if msg.table in schema {
      NoEntriesIff(schema[msg.table], msg);
    }
  }

  lemma NoEntryIff(glabel: GraphLabel, msg: Message)
    ensures LabelEntries(glabel, msg) == [] <==> NoEntryFor(glabel, msg)
  {
    hide EntryOf, Column;
  }

  lemma {:induction false} NoEntriesIff(labels: seq<GraphLabel>, msg: Message)
    ensures ExpandLabels(labels, msg) == [] <==> forall glabel <- labels :: NoEntryFor(glabel, msg)
  {
    hide LabelEntries, NoEntryFor;
    if labels != [] {
      NoEntriesIff(labels[1..], msg);
      NoEntryIff(labels[0], msg);
      assert forall glabel :: glabel in labels <==> glabel == labels[0] || glabel in labels[1..];
    }
  }

  /** Every entry says what its message said about the snapshot. */
  lemma {:induction false} SnapshotKept(labels: seq<GraphLabel>, msg: Message)
    ensures forall e <- ExpandLabels(labels, msg) :: e.snapshot == msg.snapshot
  {
    if labels != [] {
      SnapshotKept(labels[1..], msg);
    }
  }

  /** A message ends the snapshot for the collector if and only if it is the last record of the snapshot and
      stands for an entry at all. */
  lemma EndsSnapshotIff(schema: Schema, msg: Message)
    ensures EndsSnapshot(Expand(schema, msg)) <==> msg.snapshot.LastOfSnapshot? && Expand(schema, msg) != []
  {
    var entries := Expand(schema, msg);
    if entries != [] {
      SnapshotKept(schema[msg.table], msg);
      assert entries[|entries| - 1] in entries;
    }
  }

  /** The bulk load is over for the collector if and only if it has read the last record of the snapshot, the
      record's table is mapped, and one of the table's labels is not an edge label with a null end there. */
  lemma BulkLoadEndsIff(cfg: Config, schema: Schema, msgs: seq<Message>)
    requires cfg.Valid() && cfg.debezium && cfg.enableBulkLoad
    ensures StateAfter(cfg, InputGroups(schema, msgs)).bulkLoadFinished <==>
              exists msg <- msgs :: msg.snapshot.LastOfSnapshot? && msg.table in schema &&
                                    exists glabel <- schema[msg.table] :: !NoEntryFor(glabel, msg)
    ensures !StateAfter(cfg, InputGroups(schema, msgs)).bulkLoadFinished ==>
              StateAfter(cfg, InputGroups(schema, msgs)).epoch == 0
  {
    var groups := InputGroups(schema, msgs);
    BulkLoadOverIff(cfg, groups);
    GroupsOfMessages(schema, msgs);
    hide EndsSnapshot, Expand, NoEntryFor;
    forall msg | msg in msgs
      ensures EndsSnapshot(Expand(schema, msg)) <==>
                msg.snapshot.LastOfSnapshot? && msg.table in schema &&
                exists glabel <- schema[msg.table] :: !NoEntryFor(glabel, msg)
    {
      EndsSnapshotIff(schema, msg);
      ExpandEmptyIff(schema, msg);
    }
  }

  lemma {:induction false} GroupsOfMessages(schema: Schema, msgs: seq<Message>)
    ensures forall g :: g in InputGroups(schema, msgs) <==> exists msg <- msgs :: g == Expand(schema, msg)
  {
    if msgs != [] {
      var front, last := msgs[..|msgs| - 1], msgs[|msgs| - 1];
      GroupsOfMessages(schema, front);
      hide Expand;
      assert msgs == front + [last];
      assert forall msg :: msg in msgs <==> msg in front || msg == last;
    }
  }

  /** The last record of the snapshot comes from a table that is not mapped: the load never ends, and rows
      streamed afterwards still get epoch 0. */
  lemma LostEndOfBulkLoad(cfg: Config)
    requires cfg.Valid() && cfg.debezium && cfg.enableBulkLoad
    ensures var schema: Schema := map["person" := [GraphLabel(0, VertexLabel("id"), [])]];
            var first := Message("person", Insert, map[], map["id" := VInt(1)], 0, InSnapshot);
            var last := Message("audit", Insert, map[], map["id" := VInt(1)], 0, LastOfSnapshot);
            var later := Message("person", Insert, map[], map["id" := VInt(2)], 7, NotSnapshot);
            var st := StateAfter(cfg, InputGroups(schema, [first, last, later]));
            st.epoch == 0 && !st.bulkLoadFinished
  {
    var schema: Schema := map["person" := [GraphLabel(0, VertexLabel("id"), [])]];
    var first := Message("person", Insert, map[], map["id" := VInt(1)], 0, InSnapshot);
    var last := Message("audit", Insert, map[], map["id" := VInt(1)], 0, LastOfSnapshot);
    var later := Message("person", Insert, map[], map["id" := VInt(2)], 7, NotSnapshot);
    BulkLoadEndsIff(cfg, schema, [first, last, later]);
    hide StateAfter, InputGroups;
    assert "audit" != "person" by {
      assert "audit"[0] != "person"[0];
    }
  }
}
