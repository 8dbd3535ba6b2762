/** What the entries mean: applied in order, they keep every edge label equal to the rows of the table
    it is mapped from. */
module RowChanges {
  import opened Decimal
  import opened UnifiedLog
  import opened LogParser

  type Ends = (Oid, Oid)

  /** The edge one row stands for; none when an end is null. */
  function RowEdge(glabel: GraphLabel, row: Row): Option<Ends>
    requires glabel.kind.EdgeLabel?
  {
    var src, dst := glabel.kind.srcColumn, glabel.kind.dstColumn;
    if src !in row || dst !in row || row[src] == VNull || row[dst] == VNull then None
    else Some((OidOf(row[src]), OidOf(row[dst])))
  }

  function Bag(edge: Option<Ends>): multiset<Ends> {
    if edge.Some? then multiset{edge.value} else multiset{}
  }

  function RowEdges(glabel: GraphLabel, row: Row): multiset<Ends>
    requires glabel.kind.EdgeLabel?
  {
    Bag(RowEdge(glabel, row))
  }

  function TableEdges(glabel: GraphLabel, rows: seq<Row>): multiset<Ends>
    requires glabel.kind.EdgeLabel?
  {
    if rows == [] then multiset{} else RowEdges(glabel, rows[0]) + TableEdges(glabel, rows[1..])
  }

  /** The effect of one entry on the edges of label `id`; there is no operator that updates an edge.  A
      delete takes one edge with these ends, if there is one.  The store's own delete names the newest such
      edge whether it is live or not, so of parallel edges it may leave one more than this. */
  function ApplyOne(id: int, e: Entry, edges: multiset<Ends>): multiset<Ends> {
    if !(e.body.EdgeBody? && e.body.elabel == id) then edges
    else match e.op
      case Insert => edges + multiset{(e.body.src, e.body.dst)}
      case Delete => edges - multiset{(e.body.src, e.body.dst)}
      case Update => edges
  }

  function Apply(id: int, entries: seq<Entry>, edges: multiset<Ends>): multiset<Ends> {
    if entries == [] then edges else Apply(id, entries[1..], ApplyOne(id, entries[0], edges))
  }

  /** The change the message captured, made to row `i` (for an insert, at the end). */
  ghost predicate Changes(msg: Message, rows: seq<Row>, i: nat, rows': seq<Row>) {
    match msg.op
    case Insert => rows' == rows + [msg.after]
    case Delete => i < |rows| && rows[i] == msg.before && rows' == rows[..i] + rows[i + 1..]
    case Update => i < |rows| && rows[i] == msg.before && rows' == rows[i := msg.after]
  }

  lemma {:induction false} ApplyConcat(id: int, a: seq<Entry>, b: seq<Entry>, edges: multiset<Ends>)
    ensures Apply(id, a + b, edges) == Apply(id, b, Apply(id, a, edges))
  {
    if a == [] {
      assert a + b == b;
    } else {
      assert (a + b)[1..] == a[1..] + b;
      ApplyConcat(id, a[1..], b, ApplyOne(id, a[0], edges));
    }
  }

  lemma {:induction false} TableEdgesConcat(glabel: GraphLabel, a: seq<Row>, b: seq<Row>)
    requires glabel.kind.EdgeLabel?
    ensures TableEdges(glabel, a + b) == TableEdges(glabel, a) + TableEdges(glabel, b)
  {
    if a == [] {
      assert a + b == b;
    } else {
      assert (a + b)[1..] == a[1..] + b;
      TableEdgesConcat(glabel, a[1..], b);
    }
  }

  /** The table with one row singled out. */
  lemma TableEdgesAt(glabel: GraphLabel, rows: seq<Row>, i: nat)
    requires glabel.kind.EdgeLabel? && i < |rows|
    ensures TableEdges(glabel, rows) ==
            TableEdges(glabel, rows[..i] + rows[i + 1..]) + RowEdges(glabel, rows[i])
  {
    TableEdgesConcat(glabel, rows[..i], rows[i..]);
    assert rows == rows[..i] + rows[i..] && rows[i..][1..] == rows[i + 1..];
    TableEdgesConcat(glabel, rows[..i], rows[i + 1..]);
  }

  lemma ApplyEmitted(glabel: GraphLabel, msg: Message, op: OpType, edges: multiset<Ends>)
    requires glabel.kind.EdgeLabel? && !op.Update?
    ensures Apply(glabel.id, Emit(glabel, msg, op), edges) ==
            if op.Insert? then edges + RowEdges(glabel, msg.after) else edges - RowEdges(glabel, msg.before)
  {
    hide OidOf, PropertyTexts;
    var entries := Emit(glabel, msg, op);
    EmittedEdge(glabel, msg, op);
    hide Emit, RowEdge;
    if entries != [] {
      assert entries[1..] == [];
      assert Apply(glabel.id, [], ApplyOne(glabel.id, entries[0], edges)) == ApplyOne(glabel.id, entries[0], edges);
    }
  }

  /** An edge label emits the edge of the row it is about, if the row has one. */
  lemma EmittedEdge(glabel: GraphLabel, msg: Message, op: OpType)
    requires glabel.kind.EdgeLabel?
    ensures var edge := RowEdge(glabel, if op.Delete? then msg.before else msg.after);
            match edge
            case None => Emit(glabel, msg, op) == []
            case Some(ends) =>
              var entries := Emit(glabel, msg, op);
              && |entries| == 1 && entries[0].op == op
              && entries[0].body.EdgeBody? && entries[0].body.elabel == glabel.id
              && (entries[0].body.src, entries[0].body.dst) == ends
  {
    hide OidOf, PropertyTexts;
  }

  /** What the entries of one edge label do, whatever the rows are. */
  lemma ApplyLabelEntries(glabel: GraphLabel, msg: Message, edges: multiset<Ends>)
    requires glabel.kind.EdgeLabel?
    ensures Apply(glabel.id, LabelEntries(glabel, msg), edges) ==
            match msg.op
            case Insert => edges + RowEdges(glabel, msg.after)
            case Delete => edges - RowEdges(glabel, msg.before)
            case Update => edges - RowEdges(glabel, msg.before) + RowEdges(glabel, msg.after)
  {
    hide Emit, RowEdges;
    if msg.op.Update? {
      ApplyConcat(glabel.id, Emit(glabel, msg, Delete), Emit(glabel, msg, Insert), edges);
      ApplyEmitted(glabel, msg, Delete, edges);
      ApplyEmitted(glabel, msg, Insert, edges - RowEdges(glabel, msg.before));
    } else {
      ApplyEmitted(glabel, msg, msg.op, edges);
    }
  }

  /** The entries of an edge label follow the row change exactly. */
  lemma LabelFollowsRows(glabel: GraphLabel, msg: Message, rows: seq<Row>, i: nat, rows': seq<Row>)
    requires glabel.kind.EdgeLabel? && Changes(msg, rows, i, rows')
    ensures Apply(glabel.id, LabelEntries(glabel, msg), TableEdges(glabel, rows)) == TableEdges(glabel, rows')
  {
    hide Apply, LabelEntries, RowEdges, TableEdges;
    ApplyLabelEntries(glabel, msg, TableEdges(glabel, rows));
    match msg.op
    case Insert =>
      TableEdgesConcat(glabel, rows, [msg.after]);
      TableOfOne(glabel, msg.after);
    case Delete =>
      TableEdgesAt(glabel, rows, i);
      TakeOff(TableEdges(glabel, rows'), RowEdges(glabel, msg.before));
    case Update =>
      TableEdgesAt(glabel, rows, i);
      TableEdgesAt(glabel, rows', i);
      assert rows'[..i] + rows'[i + 1..] == rows[..i] + rows[i + 1..];
      TakeOff(TableEdges(glabel, rows[..i] + rows[i + 1..]), RowEdges(glabel, msg.before));
  }

  lemma TableOfOne(glabel: GraphLabel, row: Row)
    requires glabel.kind.EdgeLabel?
    ensures TableEdges(glabel, [row]) == RowEdges(glabel, row)
  {
    assert [row][1..] == [];
  }

  lemma TakeOff(rest: multiset<Ends>, a: multiset<Ends>)
    ensures rest + a - a == rest
  {
  }

  /** A capture tool that delivers only the new image makes the converter delete the new edge instead of
      the old one.  The graph still follows the table if and only if the row's edge did not change, or
      the row had no edge and no other row has the new one. */
  lemma NewImageOnlyIff(glabel: GraphLabel, msg: Message, rows: seq<Row>, i: nat)
    requires glabel.kind.EdgeLabel? && msg.op.Update? && msg.before == msg.after && i < |rows|
    ensures
      var rest := TableEdges(glabel, rows[..i] + rows[i + 1..]);
      var was, now := RowEdge(glabel, rows[i]), RowEdge(glabel, msg.after);
      Apply(glabel.id, LabelEntries(glabel, msg), TableEdges(glabel, rows)) == TableEdges(glabel, rows[i := msg.after])
      <==> was == now || (was.None? && now.value !in rest)
  {
    var rest := TableEdges(glabel, rows[..i] + rows[i + 1..]);
    var was, now := RowEdge(glabel, rows[i]), RowEdge(glabel, msg.after);
    ApplyLabelEntries(glabel, msg, TableEdges(glabel, rows));
    TableEdgesAt(glabel, rows, i);
    var rows' := rows[i := msg.after];
    TableEdgesAt(glabel, rows', i);
    assert rows'[..i] + rows'[i + 1..] == rows[..i] + rows[i + 1..];
    hide Apply, LabelEntries, TableEdges;
    DeleteThenInsert(rest, was, now);
  }

  lemma DeleteThenInsert(rest: multiset<Ends>, was: Option<Ends>, now: Option<Ends>)
    ensures rest + Bag(was) - Bag(now) + Bag(now) == rest + Bag(now) <==>
              was == now || (was.None? && now.value !in rest)
  {
    var left, right := rest + Bag(was) - Bag(now) + Bag(now), rest + Bag(now);
    if was == now {
      assert rest + Bag(was) - Bag(now) == rest;
    } else if was.Some? {
      assert left[was.value] > right[was.value];
    } else if now.value !in rest {
      assert rest + Bag(was) - Bag(now) == rest;
    } else {
      assert left[now.value] < right[now.value];
    }
  }

  /** One edge (a, b) moved to (a, c), with the new image only: the old edge stays in the graph. */
  lemma NewImageOnlyKeepsOldEdge()
    ensures var glabel := GraphLabel(0, EdgeLabel("src", "dst", 0, 0), []);
            var was := map["src" := VString("a"), "dst" := VString("b")];
            var now := map["src" := VString("a"), "dst" := VString("c")];
            var msg := Message("t", Update, now, now, 1, NotSnapshot);
            Apply(0, LabelEntries(glabel, msg), TableEdges(glabel, [was])) != TableEdges(glabel, [was][0 := now])
  {
    var glabel := GraphLabel(0, EdgeLabel("src", "dst", 0, 0), []);
    var was := map["src" := VString("a"), "dst" := VString("b")];
    var now := map["src" := VString("a"), "dst" := VString("c")];
    var msg := Message("t", Update, now, now, 1, NotSnapshot);
    hide *;
    NewImageOnlyIff(glabel, msg, [was], 0);
    StringEdge(glabel, was, "a", "b");
    StringEdge(glabel, now, "a", "c");
    assert "b"[0] != "c"[0];
  }

  lemma StringEdge(glabel: GraphLabel, row: Row, src: string, dst: string)
    requires glabel.kind == EdgeLabel("src", "dst", 0, 0) && row == map["src" := VString(src), "dst" := VString(dst)]
    ensures RowEdge(glabel, row) == Some((Oid(src, true), Oid(dst, true)))
  {
    assert "src"[0] != "dst"[0];
  }

  // ---------------------------------------------------------------- whole databases, whole runs

  type Database = map<string, seq<Row>>

  /** The message captured a change of this database. */
  ghost predicate DatabaseStep(db: Database, msg: Message, i: nat, db': Database) {
    && msg.table in db && msg.table in db'
    && Changes(msg, db[msg.table], i, db'[msg.table])
    && db' == db[msg.table := db'[msg.table]]
  }

  /** Every edge label has an id of its own. */
  ghost predicate DistinctEdgeIds(schema: Schema) {
    forall t, j, t', j' ::
      (&& t in schema && t' in schema && 0 <= j < |schema[t]| && 0 <= j' < |schema[t']|
       && schema[t][j].kind.EdgeLabel? && schema[t'][j'].kind.EdgeLabel?
       && schema[t][j].id == schema[t'][j'].id) ==> t == t' && j == j'
  }

  /** Entries of other labels change nothing. */
  lemma {:induction false} ApplyForeign(id: int, entries: seq<Entry>, edges: multiset<Ends>)
    requires forall e <- entries :: !(e.body.EdgeBody? && e.body.elabel == id)
    ensures Apply(id, entries, edges) == edges
  {
    if entries != [] {
      assert entries[0] in entries;
      ApplyForeign(id, entries[1..], edges);
    }
  }

  lemma LabelBodies(glabel: GraphLabel, msg: Message)
    ensures forall e <- LabelEntries(glabel, msg) :: e.body.EdgeBody? ==>
            glabel.kind.EdgeLabel? && e.body.elabel == glabel.id
  {
  }

  /** Among the labels of a table, only the one with this id matters. */
  lemma {:induction false} ApplyLabels(labels: seq<GraphLabel>, msg: Message, id: int, edges: multiset<Ends>)
    requires forall j :: 0 <= j < |labels| && labels[j].kind.EdgeLabel? ==> labels[j].id != id
    ensures Apply(id, ExpandLabels(labels, msg), edges) == edges
  {
    hide LabelEntries;
    if labels != [] {
      LabelBodies(labels[0], msg);
      ApplyConcat(id, LabelEntries(labels[0], msg), ExpandLabels(labels[1..], msg), edges);
      ApplyForeign(id, LabelEntries(labels[0], msg), edges);
      ApplyLabels(labels[1..], msg, id, edges);
    }
  }

  lemma {:induction false} ApplyLabelsAt(labels: seq<GraphLabel>, msg: Message, j: nat, edges: multiset<Ends>)
    requires j < |labels| && labels[j].kind.EdgeLabel?
    requires forall k :: 0 <= k < |labels| && k != j && labels[k].kind.EdgeLabel? ==> labels[k].id != labels[j].id
    ensures Apply(labels[j].id, ExpandLabels(labels, msg), edges) ==
            Apply(labels[j].id, LabelEntries(labels[j], msg), edges)
  {
    hide LabelEntries, Apply;
    var id := labels[j].id;
    LabelBodies(labels[0], msg);
    ApplyConcat(id, LabelEntries(labels[0], msg), ExpandLabels(labels[1..], msg), edges);
    if j == 0 {
      ApplyLabels(labels[1..], msg, id, Apply(id, LabelEntries(labels[0], msg), edges));
    } else {
      ApplyForeign(id, LabelEntries(labels[0], msg), edges);
      ApplyLabelsAt(labels[1..], msg, j - 1, edges);
    }
  }

  /** One message: every edge label of every table stays equal to its table. */
  lemma MessageKeepsGraph(schema: Schema, msg: Message, i: nat, db: Database, db': Database, t: string, j: nat)
    requires DistinctEdgeIds(schema) && DatabaseStep(db, msg, i, db')
    requires t in schema && t in db && j < |schema[t]| && schema[t][j].kind.EdgeLabel?
    ensures t in db'
    ensures Apply(schema[t][j].id, Expand(schema, msg), TableEdges(schema[t][j], db[t])) ==
            TableEdges(schema[t][j], db'[t])
  {
    var edges := TableEdges(schema[t][j], db[t]);
    if msg.table == t {
      ApplyLabelsAt(schema[t], msg, j, edges);
      LabelFollowsRows(schema[t][j], msg, db[t], i, db'[t]);
    } else if msg.table in schema {
      ApplyLabels(schema[msg.table], msg, schema[t][j].id, edges);
    }
  }

  /** A whole run: the unified log of any history of changes rebuilds every edge label from its table's
      first state to its last. */
  lemma {:induction false} RunKeepsGraph(schema: Schema, msgs: seq<Message>, at: seq<nat>, dbs: seq<Database>,
                                         t: string, j: nat)
    requires DistinctEdgeIds(schema) && |at| == |msgs| && |dbs| == |msgs| + 1
    requires forall k :: 0 <= k < |msgs| ==> DatabaseStep(dbs[k], msgs[k], at[k], dbs[k + 1])
    requires t in schema && t in dbs[0] && j < |schema[t]| && schema[t][j].kind.EdgeLabel?
    ensures t in dbs[|msgs|]
    ensures Apply(schema[t][j].id, ExpandAll(schema, msgs), TableEdges(schema[t][j], dbs[0][t])) ==
            TableEdges(schema[t][j], dbs[|msgs|][t])
    decreases |msgs|
  {
    if msgs != [] {
      var id, edges := schema[t][j].id, TableEdges(schema[t][j], dbs[0][t]);
      ApplyConcat(id, Expand(schema, msgs[0]), ExpandAll(schema, msgs[1..]), edges);
      MessageKeepsGraph(schema, msgs[0], at[0], dbs[0], dbs[1], t, j);
      forall k | 0 <= k < |msgs| - 1
        ensures DatabaseStep(dbs[1..][k], msgs[1..][k], at[1..][k], dbs[1..][k + 1])
      {
        assert DatabaseStep(dbs[k + 1], msgs[k + 1], at[k + 1], dbs[k + 2]);
      }
      RunKeepsGraph(schema, msgs[1..], at[1..], dbs[1..], t, j);
    }
  }
}
