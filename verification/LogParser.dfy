/** Turning one captured row change into graph log entries.

    A table can feed several vertex and edge labels, and an updated edge becomes a delete and an
    insert, so `parse` has to be called several times on the same message; it keeps its place in the
    entry it fills.  `Expand` says what the calls amount to. */
module LogParser {
  import opened Decimal
  import opened UnifiedLog
  import opened Sequences

  // ---------------------------------------------------------------- messages, labels, entries

  /** A JSON value; a float stands for the text `to_string` gives it. */
  datatype Value = VNull | VInt(i: int) | VString(s: string) | VFloat(text: string) | VOther

  type Row = map<string, Value>

  /** A column that is missing reads as null. */
  function Column(row: Row, name: string): (v: Value)
    ensures v == if name in row then row[name] else VNull
  {
    if name in row then row[name] else VNull
  }

  datatype Snapshot = NotSnapshot | InSnapshot | LastOfSnapshot | OtherSnapshot

  /** A captured change.  A capture tool that delivers one image only has `before == after`. */
  datatype Message = Message(table: string, op: OpType, before: Row, after: Row, txId: int, snapshot: Snapshot)

  datatype LabelKind =
    | VertexLabel(idColumn: string)
    | EdgeLabel(srcColumn: string, dstColumn: string, srcLabel: int, dstLabel: int)

  datatype GraphLabel = GraphLabel(id: int, kind: LabelKind, properties: seq<string>)

  /** The labels each useful table feeds. */
  type Schema = map<string, seq<GraphLabel>>

  /** An id of the data source, and whether it was a string there. */
  datatype Oid = Oid(text: string, isString: bool)

  datatype Body =
    | VertexBody(vlabel: int, oid: Oid)
    | EdgeBody(elabel: int, srcLabel: int, dstLabel: int, src: Oid, dst: Oid)

  datatype Entry = Entry(op: OpType, body: Body, properties: seq<string>, txId: int, snapshot: Snapshot)

  // ---------------------------------------------------------------- what a message stands for

  function OidOf(v: Value): Oid {
    match v
    case VInt(i) => Oid(Print(i), false)
    case VString(s) => Oid(s, true)
    case _ => Oid("", false)
  }

  function PropertyText(v: Value): string {
    match v
    case VString(s) => s
    case VInt(i) => Print(i)
    case VFloat(text) => text
    case _ => ""
  }

  function PropertyTexts(columns: seq<string>, row: Row): (texts: seq<string>)
    ensures |texts| == |columns|
  {
    seq(|columns|, k requires 0 <= k < |columns| => PropertyText(Column(row, columns[k])))
  }

  /** The row image an operation is about. */
  function Image(msg: Message, op: OpType): Row {
    if op.Delete? then msg.before else msg.after
  }

  /** Both ends of the edge are known. */
  predicate EndsKnown(kind: LabelKind, row: Row)
    requires kind.EdgeLabel?
  {
    !Column(row, kind.srcColumn).VNull? && !Column(row, kind.dstColumn).VNull?
  }

  function BodyOf(glabel: GraphLabel, row: Row): Body {
    match glabel.kind
    case VertexLabel(idColumn) => VertexBody(glabel.id, OidOf(Column(row, idColumn)))
    case EdgeLabel(srcColumn, dstColumn, srcLabel, dstLabel) =>
      EdgeBody(glabel.id, srcLabel, dstLabel, OidOf(Column(row, srcColumn)), OidOf(Column(row, dstColumn)))
  }

  function EntryOf(glabel: GraphLabel, msg: Message, op: OpType): Entry {
    Entry(op, BodyOf(glabel, Image(msg, op)),
          if op.Delete? then [] else PropertyTexts(glabel.properties, Image(msg, op)),
          msg.txId, msg.snapshot)
  }

  /** The entry of one label and one operation; none for an edge with an unknown end. */
  function Emit(glabel: GraphLabel, msg: Message, op: OpType): seq<Entry> {
    if glabel.kind.EdgeLabel? && !EndsKnown(glabel.kind, Image(msg, op)) then [] else [EntryOf(glabel, msg, op)]
  }

  /** The update of an edge takes two calls. */
  predicate SplitUpdate(glabel: GraphLabel, msg: Message) {
    glabel.kind.EdgeLabel? && msg.op.Update?
  }

  /** An edge is updated by deleting its old image and inserting its new one. */
  function LabelEntries(glabel: GraphLabel, msg: Message): seq<Entry> {
    if SplitUpdate(glabel, msg) then Emit(glabel, msg, Delete) + Emit(glabel, msg, Insert)
    else Emit(glabel, msg, msg.op)
  }

  function ExpandLabels(labels: seq<GraphLabel>, msg: Message): seq<Entry> {
    if labels == [] then [] else LabelEntries(labels[0], msg) + ExpandLabels(labels[1..], msg)
  }

  /** Everything a message stands for, in label order. */
  function Expand(schema: Schema, msg: Message): seq<Entry> {
    if msg.table in schema then ExpandLabels(schema[msg.table], msg) else []
  }

  /** The sequential meaning of a whole input: every message in turn. */
  function ExpandAll(schema: Schema, msgs: seq<Message>): seq<Entry> {
    if msgs == [] then [] else Expand(schema, msgs[0]) + ExpandAll(schema, msgs[1..])
  }

  /** The entries of each message of the input. */
  function InputGroups(schema: Schema, msgs: seq<Message>): seq<seq<Entry>> {
    if msgs == [] then []
    else InputGroups(schema, msgs[..|msgs| - 1]) + [Expand(schema, msgs[|msgs| - 1])]
  }

  /** The most entries one message can stand for. */
  lemma {:induction false} ExpandLabelsBound(labels: seq<GraphLabel>, msg: Message)
    ensures |ExpandLabels(labels, msg)| <= 2 * |labels|
    ensures !msg.op.Update? ==> |ExpandLabels(labels, msg)| <= |labels|
  {
    if labels != [] {
      ExpandLabelsBound(labels[1..], msg);
    }
  }

  // ---------------------------------------------------------------- what the parser asks of a message

  predicate PropertiesFit(glabel: GraphLabel, row: Row) {
    forall k :: 0 <= k < |glabel.properties| ==> !Column(row, glabel.properties[k]).VOther?
  }

  /** The assertions the parser makes about a row: a vertex has a usable id, and no mapped property is
      of an unsupported type. */
  predicate RowFits(glabel: GraphLabel, msg: Message, op: OpType) {
    var row := Image(msg, op);
    && (glabel.kind.VertexLabel? ==>
          match Column(row, glabel.kind.idColumn)
          case VInt(_) => true
          case VString(s) => s != ""
          case _ => false)
    && (!op.Delete? && (glabel.kind.EdgeLabel? ==> EndsKnown(glabel.kind, row)) ==> PropertiesFit(glabel, row))
  }

  predicate LabelFits(glabel: GraphLabel, msg: Message) {
    if SplitUpdate(glabel, msg) then RowFits(glabel, msg, Delete) && RowFits(glabel, msg, Insert)
    else RowFits(glabel, msg, msg.op)
  }

  predicate MessageFits(schema: Schema, msg: Message) {
    msg.table in schema ==>
      schema[msg.table] != [] && forall glabel <- schema[msg.table] :: LabelFits(glabel, msg)
  }

  // ---------------------------------------------------------------- the re-entrant parser

  class LogEntry {
    var isVertex: bool
    var opType: OpType
    var externalId: string
    var srcExternalId: string
    var dstExternalId: string
    var vlabel: int
    var elabel: int
    var srcVlabel: int
    var dstVlabel: int
    var isStringOid: bool
    var isSrcStringOid: bool
    var isDstStringOid: bool
    var properties: seq<string>
    var valid: bool
    var updateHasFinishDelete: bool
    var allLabelsHaveProcess: bool
    var complete: bool
    var txId: int
    var tableIdx: nat
    var snapshot: Snapshot

    constructor ()
      ensures !valid && !updateHasFinishDelete && !allLabelsHaveProcess && complete && tableIdx == 0
    {
      valid, updateHasFinishDelete, allLabelsHaveProcess, complete, tableIdx := false, false, false, true, 0;
      opType, snapshot, properties := Insert, NotSnapshot, [];
    }

    predicate MoreEntries()
      reads `updateHasFinishDelete, `allLabelsHaveProcess
    {
      updateHasFinishDelete || !allLabelsHaveProcess
    }

    function Contents(): Entry
      reads `isVertex, `opType, `externalId, `srcExternalId, `dstExternalId, `vlabel, `elabel, `srcVlabel, `dstVlabel,
            `isStringOid, `isSrcStringOid, `isDstStringOid, `properties, `txId, `snapshot
    {
      Entry(opType,
            if isVertex then VertexBody(vlabel, Oid(externalId, isStringOid))
            else EdgeBody(elabel, srcVlabel, dstVlabel, Oid(srcExternalId, isSrcStringOid),
                          Oid(dstExternalId, isDstStringOid)),
            properties, txId, snapshot)
    }

    /** Where the entry stands in the labels of its table. */
    predicate AtPlace(labels: seq<GraphLabel>, msg: Message)
      reads this
    {
      && tableIdx < |labels|
      && (updateHasFinishDelete ==> SplitUpdate(labels[tableIdx], msg))
    }

    /** The entries further calls would fill. */
    function Pending(labels: seq<GraphLabel>, msg: Message): seq<Entry>
      requires AtPlace(labels, msg)
      reads this
    {
      PendingFrom(labels, msg, tableIdx, updateHasFinishDelete)
    }

    /** What the last call filled, if it is complete. */
    function Filled(): seq<Entry>
      reads `isVertex, `opType, `externalId, `srcExternalId, `dstExternalId, `vlabel, `elabel, `srcVlabel, `dstVlabel,
            `isStringOid, `isSrcStringOid, `isDstStringOid, `properties, `txId, `snapshot, `complete
    {
      if complete then [Contents()] else []
    }

    /** What further calls would fill, if there are to be any. */
    function Due(labels: seq<GraphLabel>, msg: Message): seq<Entry>
      requires MoreEntries() ==> AtPlace(labels, msg)
      reads this
    {
      if MoreEntries() then Pending(labels, msg) else []
    }

    /** Every call lowers this until all labels are done. */
    function CallsLeft(labels: seq<GraphLabel>): (calls: int)
      requires tableIdx < |labels|
      reads this
      ensures calls > 0
    {
      2 * (|labels| - tableIdx) - if updateHasFinishDelete then 1 else 0
    }
  }

  function PendingFrom(labels: seq<GraphLabel>, msg: Message, i: nat, deleteDone: bool): seq<Entry>
    requires i <= |labels| && (deleteDone ==> i < |labels|)
  {
    if deleteDone then Emit(labels[i], msg, Insert) + ExpandLabels(labels[i + 1..], msg)
    else ExpandLabels(labels[i..], msg)
  }

  class TxnLogParser {
    const schema: Schema
    var unusedTables: set<string>

    constructor (schema: Schema)
      ensures this.schema == schema && unusedTables == {}
    {
      this.schema, unusedTables := schema, {};
    }

    method FillVertex(out: LogEntry, glabel: GraphLabel, row: Row)
      requires glabel.kind.VertexLabel?
      modifies out`vlabel, out`externalId, out`isStringOid
      ensures Column(row, glabel.kind.idColumn).VInt? || Column(row, glabel.kind.idColumn).VString? ==>
                VertexBody(out.vlabel, Oid(out.externalId, out.isStringOid)) == BodyOf(glabel, row)
    {
      out.vlabel := glabel.id;
      var external := "";
      var id := Column(row, glabel.kind.idColumn);
      if id.VInt? {
        external := Print(id.i);
        out.isStringOid := false;
      } else if id.VString? {
        external := id.s;
        out.isStringOid := true;
      }
      out.externalId := external;
    }

    method FillEdge(out: LogEntry, glabel: GraphLabel, row: Row)
      requires glabel.kind.EdgeLabel? && out.complete
      requires out.srcExternalId == out.dstExternalId == "" && !out.isSrcStringOid && !out.isDstStringOid
      modifies out`elabel, out`srcVlabel, out`dstVlabel, out`complete,
               out`srcExternalId, out`dstExternalId, out`isSrcStringOid, out`isDstStringOid
      ensures out.complete <==> EndsKnown(glabel.kind, row)
      ensures out.complete ==>
                EdgeBody(out.elabel, out.srcVlabel, out.dstVlabel, Oid(out.srcExternalId, out.isSrcStringOid),
                         Oid(out.dstExternalId, out.isDstStringOid)) == BodyOf(glabel, row)
    {
      out.elabel := glabel.id;
      out.srcVlabel, out.dstVlabel := glabel.kind.srcLabel, glabel.kind.dstLabel;
      var src, dst := Column(row, glabel.kind.srcColumn), Column(row, glabel.kind.dstColumn);
      if src.VNull? || dst.VNull? {
        out.complete := false;
        return;
      }
      if src.VInt? {
        out.srcExternalId := Print(src.i);
        out.isSrcStringOid := false;
      } else if src.VString? {
        out.srcExternalId := src.s;
        out.isSrcStringOid := true;
      }
      if dst.VInt? {
        out.dstExternalId := Print(dst.i);
        out.isDstStringOid := false;
      } else if dst.VString? {
        out.dstExternalId := dst.s;
        out.isDstStringOid := true;
      }
    }

    method FillProp(out: LogEntry, glabel: GraphLabel, row: Row)
      requires PropertiesFit(glabel, row) && out.properties == []
      modifies out`properties
      ensures out.properties == PropertyTexts(glabel.properties, row)
    {
      var propId := 0;
      while propId < |glabel.properties|
        invariant 0 <= propId <= |glabel.properties|
        invariant out.properties == PropertyTexts(glabel.properties, row)[..propId]
      {
        var value := Column(row, glabel.properties[propId]);
        var text;
        match value {
          case VString(s) => text := s;
          case VInt(i) => text := Print(i);
          case VFloat(t) => text := t;
          case VNull => text := "";
        }
        out.properties := out.properties + [text];
        propId := propId + 1;
      }
    }

    /** Everything of the entry but its place is set anew by every call. */
    method Reset(out: LogEntry)
      modifies out`properties, out`valid, out`complete, out`externalId, out`srcExternalId, out`dstExternalId,
               out`vlabel, out`srcVlabel, out`dstVlabel, out`isStringOid, out`isSrcStringOid, out`isDstStringOid
      ensures out.properties == [] && !out.valid && out.complete
      ensures out.srcExternalId == out.dstExternalId == "" && !out.isSrcStringOid && !out.isDstStringOid
    {
      out.properties, out.valid, out.complete := [], false, true;
      out.externalId, out.srcExternalId, out.dstExternalId := "", "", "";
      out.vlabel, out.srcVlabel, out.dstVlabel := -1, -1, -1;
      out.isStringOid, out.isSrcStringOid, out.isDstStringOid := false, false, false;
    }

    /** The first call for an updated edge is about the delete, the second one about the insert. */
    method SetOperation(out: LogEntry, glabel: GraphLabel, msg: Message)
      modifies out`isVertex, out`opType, out`txId, out`snapshot, out`updateHasFinishDelete
      ensures out.isVertex == glabel.kind.VertexLabel? && out.txId == msg.txId && out.snapshot == msg.snapshot
      ensures out.opType == CallOp(glabel, msg, old(out.updateHasFinishDelete))
      ensures out.updateHasFinishDelete ==
              if SplitUpdate(glabel, msg) then !old(out.updateHasFinishDelete) else old(out.updateHasFinishDelete)
    {
      out.isVertex := glabel.kind.VertexLabel?;
      out.opType, out.txId, out.snapshot := msg.op, msg.txId, msg.snapshot;
      if out.opType.Update? && !out.isVertex {
        if !out.updateHasFinishDelete {
          out.updateHasFinishDelete := true;
          out.opType := Delete;
        } else {
          out.updateHasFinishDelete := false;
          out.opType := Insert;
        }
      }
    }

    method Fill(out: LogEntry, glabel: GraphLabel, msg: Message)
      requires RowFits(glabel, msg, out.opType)
      requires out.isVertex == glabel.kind.VertexLabel? && out.txId == msg.txId && out.snapshot == msg.snapshot
      requires out.properties == [] && out.complete
      requires out.srcExternalId == out.dstExternalId == "" && !out.isSrcStringOid && !out.isDstStringOid
      modifies out`vlabel, out`externalId, out`isStringOid, out`elabel, out`srcVlabel, out`dstVlabel, out`complete,
               out`srcExternalId, out`dstExternalId, out`isSrcStringOid, out`isDstStringOid, out`properties
      ensures Emit(glabel, msg, out.opType) == out.Filled()
    {
      var row := Image(msg, out.opType);
      if out.isVertex {
        FillVertex(out, glabel, row);
      } else {
        FillEdge(out, glabel, row);
      }
      if !out.opType.Delete? && out.complete {
        FillProp(out, glabel, row);
      }
    }

    method FillNext(out: LogEntry, glabel: GraphLabel, msg: Message)
      requires RowFits(glabel, msg, CallOp(glabel, msg, out.updateHasFinishDelete))
      requires out.properties == [] && out.complete
      requires out.srcExternalId == out.dstExternalId == "" && !out.isSrcStringOid && !out.isDstStringOid
      modifies out
      ensures out.Filled() == Emit(glabel, msg, CallOp(glabel, msg, old(out.updateHasFinishDelete)))
      ensures out.updateHasFinishDelete ==
              if SplitUpdate(glabel, msg) then !old(out.updateHasFinishDelete) else old(out.updateHasFinishDelete)
      ensures out.tableIdx == old(out.tableIdx)
      ensures out.opType ==
              if glabel.kind.VertexLabel? || msg.op != Update then msg.op
              else if old(out.updateHasFinishDelete) then Insert else Delete
      ensures glabel.kind.VertexLabel? ==>
                && out.complete && out.isVertex && out.vlabel == glabel.id
                && Oid(out.externalId, out.isStringOid) ==
                   OidOf(Column(if out.opType == Delete then msg.before else msg.after, glabel.kind.idColumn))
      ensures glabel.kind.EdgeLabel? && out.complete ==>
                var row := if out.opType == Delete then msg.before else msg.after;
                && !out.isVertex && out.elabel == glabel.id
                && out.srcVlabel == glabel.kind.srcLabel && out.dstVlabel == glabel.kind.dstLabel
                && Oid(out.srcExternalId, out.isSrcStringOid) == OidOf(Column(row, glabel.kind.srcColumn))
                && Oid(out.dstExternalId, out.isDstStringOid) == OidOf(Column(row, glabel.kind.dstColumn))
      ensures out.complete ==> |out.properties| == if out.opType == Delete then 0 else |glabel.properties|
      ensures out.complete ==> forall k :: 0 <= k < |out.properties| ==>
                out.properties[k] == PropertyText(Column(msg.after, glabel.properties[k]))
    {
      hide Emit, RowFits, SplitUpdate, CallOp;
      SetOperation(out, glabel, msg);
      Fill(out, glabel, msg);
      EmitMeans(glabel, msg, out.opType);
      CallOpMeans(glabel, msg, old(out.updateHasFinishDelete));
    }

    /** The part of `parse` for a table that feeds `labels`. */
    method ParseLabel(out: LogEntry, labels: seq<GraphLabel>, msg: Message)
      requires out.AtPlace(labels, msg) && LabelFits(labels[out.tableIdx], msg)
      requires out.properties == [] && out.complete
      requires out.srcExternalId == out.dstExternalId == "" && !out.isSrcStringOid && !out.isDstStringOid
      modifies out
      ensures out.valid
      ensures out.MoreEntries() ==>
                out.tableIdx < |labels| && out.AtPlace(labels, msg)
                    && out.CallsLeft(labels) < old(out.CallsLeft(labels))
      ensures old(out.Pending(labels, msg)) == out.Filled() + out.Due(labels, msg)
      ensures !out.MoreEntries() ==> out.tableIdx == 0
    {
      var glabel := labels[out.tableIdx];
      ghost var i, deleteDone := out.tableIdx, out.updateHasFinishDelete;
      CallFits(glabel, msg, deleteDone);
      PendingStep(labels, msg, i, deleteDone);
      hide PendingFrom, Emit, RowFits, LabelFits, SplitUpdate, CallOp, LogEntry.Filled, LogEntry.Contents, OidOf,
        PropertyText, Column;
      FillNext(out, glabel, msg);
      MoveOn(out, |labels|);
    }

    /** On to the next label, unless the second half of an updated edge is due. */
    method MoveOn(out: LogEntry, labelNum: nat)
      modifies out`tableIdx, out`allLabelsHaveProcess, out`valid
      ensures out.valid
      ensures var next := if out.updateHasFinishDelete then old(out.tableIdx) else old(out.tableIdx) + 1;
              && out.allLabelsHaveProcess == (next >= labelNum)
              && out.tableIdx == if next < labelNum then next else 0
    {
      if !out.updateHasFinishDelete {
        out.tableIdx := out.tableIdx + 1;
      }
      if out.tableIdx < labelNum {
        out.allLabelsHaveProcess := false;
      } else {
        out.allLabelsHaveProcess := true;
        out.tableIdx := 0;
      }
      out.valid := true;
    }

    /** One call fills the next pending entry, complete or not, and moves on. */
    method Parse(out: LogEntry, msg: Message)
      requires MessageFits(schema, msg)
      requires msg.table in schema ==> out.AtPlace(schema[msg.table], msg)
      modifies out, this`unusedTables
      ensures unusedTables == old(unusedTables) + if msg.table in schema then {} else {msg.table}
      ensures out.valid <==> msg.table in schema
      ensures out.valid ==>
                var labels := schema[msg.table];
                && (out.MoreEntries() ==>
                out.tableIdx < |labels| && out.AtPlace(labels, msg)
                    && out.CallsLeft(labels) < old(out.CallsLeft(labels)))
                && old(out.Pending(labels, msg)) == out.Filled() + out.Due(labels, msg)
      ensures out.valid && !out.MoreEntries() ==> out.tableIdx == 0
    {
      Reset(out);
      if msg.table !in schema {
        unusedTables := unusedTables + {msg.table};
        return;
      }
      var labels := schema[msg.table];
      assert LabelFits(labels[out.tableIdx], msg);
      hide MessageFits, LabelFits, PendingFrom;
      ParseLabel(out, labels, msg);
    }
  }

  function CallOp(glabel: GraphLabel, msg: Message, deleteDone: bool): OpType {
    if !SplitUpdate(glabel, msg) then msg.op else if deleteDone then Insert else Delete
  }

  lemma CallOpMeans(glabel: GraphLabel, msg: Message, deleteDone: bool)
    ensures CallOp(glabel, msg, deleteDone) ==
            if glabel.kind.VertexLabel? || msg.op != Update then msg.op else if deleteDone then Insert else Delete
  {
  }

  /** The entry of a label, in terms of the images of the message and their columns. */
  lemma EmitMeans(glabel: GraphLabel, msg: Message, op: OpType)
    ensures |Emit(glabel, msg, op)| <= 1 && (glabel.kind.VertexLabel? ==> Emit(glabel, msg, op) != [])
    ensures var row := if op == Delete then msg.before else msg.after;
            Emit(glabel, msg, op) != [] ==>
              var e := Emit(glabel, msg, op)[0];
              && e.op == op && e.txId == msg.txId && e.snapshot == msg.snapshot
              && (match glabel.kind
                  case VertexLabel(idColumn) => e.body == VertexBody(glabel.id, OidOf(Column(row, idColumn)))
                  case EdgeLabel(srcColumn, dstColumn, srcLabel, dstLabel) =>
                    e.body == EdgeBody(glabel.id, srcLabel, dstLabel, OidOf(Column(row, srcColumn)),
                                       OidOf(Column(row, dstColumn))))
              && |e.properties| == (if op == Delete then 0 else |glabel.properties|)
              && forall k :: 0 <= k < |e.properties| ==>
                   e.properties[k] == PropertyText(Column(msg.after, glabel.properties[k]))
  {
  }

  lemma CallFits(glabel: GraphLabel, msg: Message, deleteDone: bool)
    requires LabelFits(glabel, msg)
    ensures RowFits(glabel, msg, CallOp(glabel, msg, deleteDone))
  {
  }

  /** What one call takes off the pending entries, and where it leaves the parser. */
  lemma PendingStep(labels: seq<GraphLabel>, msg: Message, i: nat, deleteDone: bool)
    requires i < |labels| && (deleteDone ==> SplitUpdate(labels[i], msg))
    ensures var again := SplitUpdate(labels[i], msg) && !deleteDone;
            var next := if again then i else i + 1;
            PendingFrom(labels, msg, i, deleteDone) ==
            Emit(labels[i], msg, CallOp(labels[i], msg, deleteDone)) +
            if next == |labels| then [] else PendingFrom(labels, msg, next, again)
  {
    assert labels[i..][1..] == labels[i + 1..];
    var rest := ExpandLabels(labels[i + 1..], msg);
    assert Emit(labels[i], msg, Delete) + Emit(labels[i], msg, Insert) + rest ==
           Emit(labels[i], msg, Delete) + (Emit(labels[i], msg, Insert) + rest);
  }

  datatype Line = NoMessage | Text(msg: Message)

  /** `process_binlog_step_1` for one line taken from its queue: the entries it queues, in order, and the
      count it queues after them. */
  method ExpandLine(parser: TxnLogParser, line: Line) returns (queued: seq<Entry>, count: nat)
    requires line.Text? ==> MessageFits(parser.schema, line.msg)
    modifies parser`unusedTables
    ensures queued == if line.NoMessage? then [] else Expand(parser.schema, line.msg)
    ensures count == |queued|
  {
    if line.NoMessage? {
      return [], 0;
    }
    var logEntry := new LogEntry();
    FreshPending(parser.schema, logEntry, line.msg);
    queued, count := ExpandMessage(parser, logEntry, line.msg);
  }

  /** The loop around the parser: one call after another until nothing is pending. */
  method ExpandMessage(parser: TxnLogParser, logEntry: LogEntry, msg: Message) returns (queued: seq<Entry>, count: nat)
    requires MessageFits(parser.schema, msg)
    requires msg.table in parser.schema ==> logEntry.AtPlace(parser.schema[msg.table], msg)
    modifies logEntry, parser`unusedTables
    ensures queued == if msg.table in parser.schema then old(logEntry.Pending(parser.schema[msg.table], msg)) else []
    ensures count == |queued|
  {
    hide *;
    queued, count := [], 0;
    ghost var labels := if msg.table in parser.schema then parser.schema[msg.table] else [];
    ghost var all := if msg.table in parser.schema then logEntry.Pending(labels, msg) else [];
    parser.Parse(logEntry, msg);
    if !logEntry.valid {
      return;
    }
    while logEntry.MoreEntries()
      invariant logEntry.MoreEntries() ==> logEntry.tableIdx < |labels| && logEntry.AtPlace(labels, msg)
      invariant logEntry.valid && count == |queued|
      invariant all == queued + (logEntry.Filled() + logEntry.Due(labels, msg))
      decreases if logEntry.MoreEntries() then logEntry.CallsLeft(labels) else 0
    {
      queued, count := QueueAndParse(parser, logEntry, msg, queued, count);
    }
    DueIsPending(logEntry, labels, msg);
    queued, count := Queue(logEntry, queued, count);
  }

  /** A new entry has everything the message stands for before it. */
  lemma FreshPending(schema: Schema, e: LogEntry, msg: Message)
    requires MessageFits(schema, msg) && e.tableIdx == 0 && !e.updateHasFinishDelete
    ensures if msg.table in schema then
              e.AtPlace(schema[msg.table], msg) && e.Pending(schema[msg.table], msg) == Expand(schema, msg)
            else Expand(schema, msg) == []
  {
    if msg.table in schema {
      assert schema[msg.table][0..] == schema[msg.table];
    }
  }

  /** One round of the loop of `process_binlog_step_1`. */
  method QueueAndParse(parser: TxnLogParser, logEntry: LogEntry, msg: Message, before: seq<Entry>, countBefore: nat)
    returns (queued: seq<Entry>, count: nat)
    requires MessageFits(parser.schema, msg) && msg.table in parser.schema
    requires logEntry.MoreEntries() && logEntry.AtPlace(parser.schema[msg.table], msg) && countBefore == |before|
    modifies logEntry, parser`unusedTables
    ensures logEntry.valid && count == |queued|
    ensures var labels := parser.schema[msg.table];
            && (logEntry.MoreEntries() ==>
                  logEntry.tableIdx < |labels| && logEntry.AtPlace(labels, msg)
                      && logEntry.CallsLeft(labels) < old(logEntry.CallsLeft(labels)))
            && queued + (logEntry.Filled() + logEntry.Due(labels, msg)) ==
               before + (old(logEntry.Filled()) + old(logEntry.Due(labels, msg)))
  {
    ghost var labels := parser.schema[msg.table];
    DueIsPending(logEntry, labels, msg);
    Regroup(before, logEntry.Filled(), logEntry.Due(labels, msg));
    hide LogEntry.Filled, LogEntry.Due, LogEntry.Pending, LogEntry.Contents, MessageFits;
    queued, count := Queue(logEntry, before, countBefore);
    parser.Parse(logEntry, msg);
  }

  /** A complete entry is queued and counted. */
  method Queue(logEntry: LogEntry, before: seq<Entry>, countBefore: nat) returns (queued: seq<Entry>, count: nat)
    ensures queued == before + logEntry.Filled()
    ensures count == countBefore + |logEntry.Filled()|
  {
    queued, count := before, countBefore;
    if logEntry.complete {
      count := count + 1;
      queued := queued + [logEntry.Contents()];
    }
  }

  lemma DueIsPending(e: LogEntry, labels: seq<GraphLabel>, msg: Message)
    requires e.MoreEntries() ==> e.AtPlace(labels, msg)
    ensures e.Due(labels, msg) == if e.MoreEntries() then e.Pending(labels, msg) else []
  {
  }
}
