/** What the vertex entries mean: applied in order, they keep every vertex label equal to the rows of the
    table it is mapped from, id for id and column for column. */
module VertexChanges {
  import opened Decimal
  import opened UnifiedLog
  import opened LogParser
  import opened RowChanges

  /** The vertices of a label: the property texts under every source id. */
  type Store = map<Oid, seq<string>>

  /** The source id a value of the id column gives. */
  predicate Names(oid: Oid, id: Value) {
    match id
    case VInt(i) => oid == Oid(Print(i), false)
    case VString(s) => oid == Oid(s, true)
    case _ => false
  }

  /** The text a column value is stored as; a null is stored as the empty text. */
  predicate Spells(text: string, v: Value) {
    match v
    case VString(s) => text == s
    case VInt(i) => text == Print(i)
    case VFloat(t) => text == t
    case VNull => text == ""
    case VOther => true
  }

  /** Every row has an id, and no two rows the same. */
  predicate Keyed(idColumn: string, rows: seq<Row>) {
    && (forall r :: 0 <= r < |rows| ==> Column(rows[r], idColumn).VInt? || Column(rows[r], idColumn).VString?)
    && (forall q, r :: 0 <= q < r < |rows| ==> Column(rows[q], idColumn) != Column(rows[r], idColumn))
  }

  /** The texts are those of the required columns of the row, in their order. */
  predicate RowTexts(columns: seq<string>, row: Row, texts: seq<string>) {
    |texts| == |columns| && forall k :: 0 <= k < |columns| ==> Spells(texts[k], Column(row, columns[k]))
  }

  /** There is exactly one vertex for each row, with the row's texts, and no other. */
  ghost predicate Mirrors(idColumn: string, columns: seq<string>, rows: seq<Row>, store: Store) {
    && (forall r, oid :: 0 <= r < |rows| && Names(oid, Column(rows[r], idColumn)) ==>
          oid in store && RowTexts(columns, rows[r], store[oid]))
    && (forall oid <- store :: exists r :: 0 <= r < |rows| && Names(oid, Column(rows[r], idColumn)))
  }

  /** The effect of one entry on the vertices of label `id`; an update or delete of an unknown vertex has
      none. */
  function ApplyVertex(id: int, e: Entry, store: Store): Store {
    if !(e.body.VertexBody? && e.body.vlabel == id) then store
    else match e.op
      case Insert => store[e.body.oid := e.properties]
      case Update => if e.body.oid in store then store[e.body.oid := e.properties] else store
      case Delete => store - {e.body.oid}
  }

  function ApplyVertices(id: int, entries: seq<Entry>, store: Store): Store {
    if entries == [] then store else ApplyVertices(id, entries[1..], ApplyVertex(id, entries[0], store))
  }

  /** The change the message captured, made to row `i` (for an insert, at the end).  Of an update the new
      image alone is needed. */
  ghost predicate Captured(msg: Message, rows: seq<Row>, i: nat, rows': seq<Row>) {
    match msg.op
    case Insert => rows' == rows + [msg.after]
    case Delete => i < |rows| && rows[i] == msg.before && rows' == rows[..i] + rows[i + 1..]
    case Update => i < |rows| && rows' == rows[i := msg.after]
  }

  /** An update does not touch the id. */
  predicate KeepsId(idColumn: string, msg: Message, rows: seq<Row>, i: nat) {
    msg.op.Update? ==> i < |rows| && Column(rows[i], idColumn) == Column(msg.after, idColumn)
  }

  // ---------------------------------------------------------------- ids and texts

  lemma PrintInjective(i: int, j: int)
    requires Print(i) == Print(j)
    ensures i == j
  {
    var lo, hi := if i < j then i else j, if i < j then j else i;
    ReadPrinted(i, [], lo, hi);
    ReadPrinted(j, [], lo, hi);
  }

  /** A source id names one value. */
  lemma NamesOne(oid: Oid, v: Value, w: Value)
    requires Names(oid, v) && Names(oid, w)
    ensures v == w
  {
    if v.VInt? && w.VInt? {
      PrintInjective(v.i, w.i);
    }
  }

  lemma EntryNames(v: Value, oid: Oid)
    requires v.VInt? || v.VString?
    ensures Names(OidOf(v), v)
    ensures Names(oid, v) <==> oid == OidOf(v)
  {
  }

  lemma EntryTexts(columns: seq<string>, row: Row)
    ensures RowTexts(columns, row, PropertyTexts(columns, row))
  {
  }

  // ---------------------------------------------------------------- one label, one message

  lemma ApplyLabel(glabel: GraphLabel, msg: Message, store: Store)
    requires glabel.kind.VertexLabel?
    ensures ApplyVertices(glabel.id, LabelEntries(glabel, msg), store) ==
            var row := if msg.op.Delete? then msg.before else msg.after;
            var oid := OidOf(Column(row, glabel.kind.idColumn));
            var texts := PropertyTexts(glabel.properties, msg.after);
            match msg.op
            case Insert => store[oid := texts]
            case Update => if oid in store then store[oid := texts] else store
            case Delete => store - {oid}
  {
    hide PropertyTexts, OidOf;
    var entries := LabelEntries(glabel, msg);
    assert entries == [EntryOf(glabel, msg, msg.op)];
    assert entries[1..] == [];
  }

  lemma InsertMirrors(idColumn: string, columns: seq<string>, rows: seq<Row>, row: Row, store: Store)
    requires Keyed(idColumn, rows + [row]) && Mirrors(idColumn, columns, rows, store)
    ensures Mirrors(idColumn, columns, rows + [row],
                    store[OidOf(Column(row, idColumn)) := PropertyTexts(columns, row)])
  {
    var rows', id := rows + [row], OidOf(Column(row, idColumn));
    var store' := store[id := PropertyTexts(columns, row)];
    EntryTexts(columns, row);
    assert rows'[|rows|] == row;
    forall r, oid | 0 <= r < |rows'| && Names(oid, Column(rows'[r], idColumn))
      ensures oid in store' && RowTexts(columns, rows'[r], store'[oid])
    {
      EntryNames(Column(row, idColumn), oid);
      if r < |rows| && oid == id {
        NamesOne(oid, Column(rows'[r], idColumn), Column(row, idColumn));
      }
    }
    forall oid | oid in store'
      ensures exists r :: 0 <= r < |rows'| && Names(oid, Column(rows'[r], idColumn))
    {
      if oid == id {
        EntryNames(Column(row, idColumn), id);
      } else {
        var r :| 0 <= r < |rows| && Names(oid, Column(rows[r], idColumn));
        assert rows'[r] == rows[r];
      }
    }
  }

  lemma DeleteMirrors(idColumn: string, columns: seq<string>, rows: seq<Row>, i: nat, store: Store)
    requires i < |rows| && Keyed(idColumn, rows) && Mirrors(idColumn, columns, rows, store)
    ensures Mirrors(idColumn, columns, rows[..i] + rows[i + 1..], store - {OidOf(Column(rows[i], idColumn))})
  {
    hide RowTexts, Names, OidOf;
    var rows', id := rows[..i] + rows[i + 1..], OidOf(Column(rows[i], idColumn));
    var store' := store - {id};
    forall r, oid | 0 <= r < |rows'| && Names(oid, Column(rows'[r], idColumn))
      ensures oid in store' && RowTexts(columns, rows'[r], store'[oid])
    {
      var q := if r < i then r else r + 1;
      assert rows'[r] == rows[q] && q != i;
      NamesApart(idColumn, rows, i, q, oid);
    }
    forall oid | oid in store'
      ensures exists r :: 0 <= r < |rows'| && Names(oid, Column(rows'[r], idColumn))
    {
      var q :| 0 <= q < |rows| && Names(oid, Column(rows[q], idColumn));
      EntryNames(Column(rows[i], idColumn), oid);
      var r := if q < i then q else q - 1;
      assert rows'[r] == rows[q];
    }
  }

  /** Different rows have different source ids. */
  lemma NamesApart(idColumn: string, rows: seq<Row>, i: nat, q: nat, oid: Oid)
    requires Keyed(idColumn, rows) && i < |rows| && q < |rows| && q != i && Names(oid, Column(rows[q], idColumn))
    ensures oid != OidOf(Column(rows[i], idColumn))
  {
    hide Print;
    var id := OidOf(Column(rows[i], idColumn));
    EntryNames(Column(rows[i], idColumn), id);
    if oid == id {
      NamesOne(oid, Column(rows[q], idColumn), Column(rows[i], idColumn));
    }
  }

  lemma UpdateMirrors(idColumn: string, columns: seq<string>, rows: seq<Row>, i: nat, row: Row, store: Store)
    requires i < |rows| && Keyed(idColumn, rows) && Mirrors(idColumn, columns, rows, store)
    requires Column(rows[i], idColumn) == Column(row, idColumn)
    ensures var id := OidOf(Column(row, idColumn));
            id in store && Mirrors(idColumn, columns, rows[i := row], store[id := PropertyTexts(columns, row)])
  {
    var rows', id := rows[i := row], OidOf(Column(row, idColumn));
    var store' := store[id := PropertyTexts(columns, row)];
    EntryNames(Column(row, idColumn), id);
    EntryTexts(columns, row);
    hide RowTexts, Print;
    forall r, oid | 0 <= r < |rows'| && Names(oid, Column(rows'[r], idColumn))
      ensures oid in store' && RowTexts(columns, rows'[r], store'[oid])
    {
      EntryNames(Column(row, idColumn), oid);
      assert Names(oid, Column(rows[r], idColumn));
      if r != i && oid == id {
        NamesOne(oid, Column(rows[r], idColumn), Column(row, idColumn));
      }
    }
    forall oid | oid in store'
      ensures exists r :: 0 <= r < |rows'| && Names(oid, Column(rows'[r], idColumn))
    {
      var r :| 0 <= r < |rows| && Names(oid, Column(rows[r], idColumn));
      assert Names(oid, Column(rows'[r], idColumn));
    }
  }

  /** An update that changes the id is an update of an unknown vertex: the old vertex stays. */
  lemma MovedIdStays(idColumn: string, columns: seq<string>, rows: seq<Row>, i: nat, row: Row, store: Store)
    requires i < |rows| && Keyed(idColumn, rows) && Keyed(idColumn, rows[i := row])
    requires Mirrors(idColumn, columns, rows, store) && Column(rows[i], idColumn) != Column(row, idColumn)
    ensures OidOf(Column(row, idColumn)) !in store && !Mirrors(idColumn, columns, rows[i := row], store)
  {
    hide RowTexts, Print;
    var rows' := rows[i := row];
    var was, now := OidOf(Column(rows[i], idColumn)), OidOf(Column(row, idColumn));
    assert rows'[i] == row;
    EntryNames(Column(rows[i], idColumn), was);
    EntryNames(Column(row, idColumn), now);
    forall r | 0 <= r < |rows|
      ensures !Names(now, Column(rows[r], idColumn))
      ensures !Names(was, Column(rows'[r], idColumn))
    {
      assert r != i ==> rows'[r] == rows[r];
      if Names(now, Column(rows[r], idColumn)) {
        NamesOne(now, Column(rows[r], idColumn), Column(row, idColumn));
      }
      if Names(was, Column(rows'[r], idColumn)) {
        NamesOne(was, Column(rows'[r], idColumn), Column(rows[i], idColumn));
      }
    }
  }

  /** One row change: the entry of a vertex label makes the vertices those of the changed table, if and only
      if an update leaves the id alone. */
  lemma LabelMirrorsIff(glabel: GraphLabel, msg: Message, rows: seq<Row>, i: nat, rows': seq<Row>, store: Store)
    requires glabel.kind.VertexLabel? && Captured(msg, rows, i, rows')
    requires Keyed(glabel.kind.idColumn, rows) && Keyed(glabel.kind.idColumn, rows')
    requires Mirrors(glabel.kind.idColumn, glabel.properties, rows, store)
    ensures Mirrors(glabel.kind.idColumn, glabel.properties, rows',
                    ApplyVertices(glabel.id, LabelEntries(glabel, msg), store))
            <==> KeepsId(glabel.kind.idColumn, msg, rows, i)
  {
    var idColumn := glabel.kind.idColumn;
    ApplyLabel(glabel, msg, store);
    hide Mirrors, Keyed, OidOf, PropertyTexts, ApplyVertices, LabelEntries;
    match msg.op
    case Insert =>
      InsertMirrors(idColumn, glabel.properties, rows, msg.after, store);
    case Delete =>
      DeleteMirrors(idColumn, glabel.properties, rows, i, store);
    case Update =>
      if Column(rows[i], idColumn) == Column(msg.after, idColumn) {
        UpdateMirrors(idColumn, glabel.properties, rows, i, msg.after, store);
      } else {
        MovedIdStays(idColumn, glabel.properties, rows, i, msg.after, store);
      }
  }

  // ---------------------------------------------------------------- whole databases, whole runs

  lemma {:induction false} ApplyVerticesConcat(id: int, a: seq<Entry>, b: seq<Entry>, store: Store)
    ensures ApplyVertices(id, a + b, store) == ApplyVertices(id, b, ApplyVertices(id, a, store))
  {
    hide ApplyVertex;
    if a == [] {
      assert a + b == b;
    } else {
      assert (a + b)[1..] == a[1..] + b;
      ApplyVerticesConcat(id, a[1..], b, ApplyVertex(id, a[0], store));
    }
  }

  /** Every vertex label has an id of its own. */
  ghost predicate DistinctVertexIds(schema: Schema) {
    forall t, j, t', j' ::
      (&& t in schema && t' in schema && 0 <= j < |schema[t]| && 0 <= j' < |schema[t']|
       && schema[t][j].kind.VertexLabel? && schema[t'][j'].kind.VertexLabel?
       && schema[t][j].id == schema[t'][j'].id) ==> t == t' && j == j'
  }

  lemma VertexBodies(glabel: GraphLabel, msg: Message)
    ensures forall e <- LabelEntries(glabel, msg) :: e.body.VertexBody? ==>
            glabel.kind.VertexLabel? && e.body.vlabel == glabel.id
  {
  }

  lemma {:induction false} OtherEntries(id: int, entries: seq<Entry>, store: Store)
    requires forall e <- entries :: !(e.body.VertexBody? && e.body.vlabel == id)
    ensures ApplyVertices(id, entries, store) == store
  {
    if entries != [] {
      assert entries[0] in entries;
      OtherEntries(id, entries[1..], store);
    }
  }

  /** Among the labels of a table, only the vertex label with this id matters. */
  lemma {:induction false} OtherLabels(labels: seq<GraphLabel>, msg: Message, id: int, store: Store)
    requires forall j :: 0 <= j < |labels| && labels[j].kind.VertexLabel? ==> labels[j].id != id
    ensures ApplyVertices(id, ExpandLabels(labels, msg), store) == store
  {
    hide LabelEntries, ApplyVertices;
    if labels == [] {
      OtherEntries(id, [], store);
    } else {
      VertexBodies(labels[0], msg);
      ApplyVerticesConcat(id, LabelEntries(labels[0], msg), ExpandLabels(labels[1..], msg), store);
      OtherEntries(id, LabelEntries(labels[0], msg), store);
      OtherLabels(labels[1..], msg, id, store);
    }
  }

  lemma {:induction false} OnlyLabel(labels: seq<GraphLabel>, msg: Message, j: nat, store: Store)
    requires j < |labels| && labels[j].kind.VertexLabel?
    requires forall k :: 0 <= k < |labels| && k != j && labels[k].kind.VertexLabel? ==> labels[k].id != labels[j].id
    ensures ApplyVertices(labels[j].id, ExpandLabels(labels, msg), store) ==
            ApplyVertices(labels[j].id, LabelEntries(labels[j], msg), store)
  {
    hide LabelEntries, ApplyVertices;
    var id := labels[j].id;
    VertexBodies(labels[0], msg);
    ApplyVerticesConcat(id, LabelEntries(labels[0], msg), ExpandLabels(labels[1..], msg), store);
    if j == 0 {
      OtherLabels(labels[1..], msg, id, ApplyVertices(id, LabelEntries(labels[0], msg), store));
    } else {
      OtherEntries(id, LabelEntries(labels[0], msg), store);
      OnlyLabel(labels[1..], msg, j - 1, store);
    }
  }

  /** The message captured a change of this database. */
  ghost predicate CapturedStep(db: Database, msg: Message, i: nat, db': Database) {
    && msg.table in db && msg.table in db'
    && Captured(msg, db[msg.table], i, db'[msg.table])
    && db' == db[msg.table := db'[msg.table]]
  }

  /** One message: the vertices of every label of every table stay those of the table, if and only if the
      message does not change an id of the table. */
  lemma MessageMirrorsIff(schema: Schema, msg: Message, i: nat, db: Database, db': Database, t: string, j: nat,
                          store: Store)
    requires DistinctVertexIds(schema) && CapturedStep(db, msg, i, db')
    requires t in schema && t in db && j < |schema[t]| && schema[t][j].kind.VertexLabel?
    requires Keyed(schema[t][j].kind.idColumn, db[t])
    requires t in db' && Keyed(schema[t][j].kind.idColumn, db'[t])
    requires Mirrors(schema[t][j].kind.idColumn, schema[t][j].properties, db[t], store)
    ensures Mirrors(schema[t][j].kind.idColumn, schema[t][j].properties, db'[t],
                    ApplyVertices(schema[t][j].id, Expand(schema, msg), store))
            <==> (msg.table == t ==> KeepsId(schema[t][j].kind.idColumn, msg, db[t], i))
  {
    hide Mirrors, Keyed, ApplyVertices, LabelEntries, KeepsId;
    if msg.table == t {
      OnlyLabel(schema[t], msg, j, store);
      LabelMirrorsIff(schema[t][j], msg, db[t], i, db'[t], store);
    } else if msg.table in schema {
      OtherLabels(schema[msg.table], msg, schema[t][j].id, store);
    } else {
      OtherEntries(schema[t][j].id, [], store);
    }
  }

  lemma {:induction false} ExpandAllStep(schema: Schema, msgs: seq<Message>, k: nat)
    requires k < |msgs|
    ensures ExpandAll(schema, msgs[..k + 1]) == ExpandAll(schema, msgs[..k]) + Expand(schema, msgs[k])
  {
    hide Expand;
    if k == 0 {
      assert msgs[..1] == [msgs[0]] && msgs[..0] == [] && [msgs[0]][1..] == [];
    } else {
      assert msgs[1..][..k] == msgs[..k + 1][1..] && msgs[1..][..k - 1] == msgs[..k][1..];
      ExpandAllStep(schema, msgs[1..], k - 1);
    }
  }

  /** The vertices of a label after the first `k` messages of a run. */
  function StoreAt(schema: Schema, id: int, msgs: seq<Message>, store: Store, k: nat): Store
    requires k <= |msgs|
  {
    ApplyVertices(id, ExpandAll(schema, msgs[..k]), store)
  }

  lemma StoreStep(schema: Schema, id: int, msgs: seq<Message>, store: Store, k: nat)
    requires k < |msgs|
    ensures StoreAt(schema, id, msgs, store, k + 1) ==
            ApplyVertices(id, Expand(schema, msgs[k]), StoreAt(schema, id, msgs, store, k))
  {
    ExpandAllStep(schema, msgs, k);
    ApplyVerticesConcat(id, ExpandAll(schema, msgs[..k]), Expand(schema, msgs[k]), store);
  }

  /** A whole run: the entries keep the vertices of a label those of its table, row for row and column for
      column, after every message, if and only if no update of the table changes an id. */
  lemma {:induction false} RunMirrorsIff(schema: Schema, msgs: seq<Message>, at: seq<nat>, dbs: seq<Database>,
                                         t: string, j: nat, store: Store, n: nat)
    requires DistinctVertexIds(schema) && |at| == |msgs| && |dbs| == |msgs| + 1 && n <= |msgs|
    requires forall k :: 0 <= k < |msgs| ==> CapturedStep(dbs[k], msgs[k], at[k], dbs[k + 1])
    requires t in schema && j < |schema[t]| && schema[t][j].kind.VertexLabel?
    requires forall k :: 0 <= k <= |msgs| ==> t in dbs[k] && Keyed(schema[t][j].kind.idColumn, dbs[k][t])
    requires Mirrors(schema[t][j].kind.idColumn, schema[t][j].properties, dbs[0][t], store)
    ensures (forall k :: 0 <= k <= n ==>
               Mirrors(schema[t][j].kind.idColumn, schema[t][j].properties, dbs[k][t],
                       StoreAt(schema, schema[t][j].id, msgs, store, k))) <==>
            (forall k :: 0 <= k < n && msgs[k].table == t ==>
               KeepsId(schema[t][j].kind.idColumn, msgs[k], dbs[k][t], at[k]))
  {
    hide Mirrors, Keyed, KeepsId, CapturedStep, ApplyVertices, DistinctVertexIds, Expand;
    if n == 0 {
      assert msgs[..0] == [];
      OtherEntries(schema[t][j].id, [], store);
    } else {
      RunMirrorsIff(schema, msgs, at, dbs, t, j, store, n - 1);
      StoreStep(schema, schema[t][j].id, msgs, store, n - 1);
      var before := StoreAt(schema, schema[t][j].id, msgs, store, n - 1);
      hide StoreAt;
      if Mirrors(schema[t][j].kind.idColumn, schema[t][j].properties, dbs[n - 1][t], before) {
        assert CapturedStep(dbs[n - 1], msgs[n - 1], at[n - 1], dbs[n - 1 + 1]);
        MessageMirrorsIff(schema, msgs[n - 1], at[n - 1], dbs[n - 1], dbs[n], t, j, before);
      }
    }
  }

  /** A vertex "a" renamed to "b": the update names a vertex nobody inserted, and the old one stays. */
  lemma RenamedVertexStays()
    ensures var glabel := GraphLabel(0, VertexLabel("id"), []);
            var was, now := map["id" := VString("a")], map["id" := VString("b")];
            var msg := Message("t", Update, was, now, 1, NotSnapshot);
            var store := map[Oid("a", true) := []];
            && Mirrors("id", [], [was], store)
            && ApplyVertices(0, LabelEntries(glabel, msg), store) == store
            && !Mirrors("id", [], [now], store)
  {
    var glabel := GraphLabel(0, VertexLabel("id"), []);
    var was, now: Row := map["id" := VString("a")], map["id" := VString("b")];
    var msg := Message("t", Update, was, now, 1, NotSnapshot);
    assert "a"[0] != "b"[0];
    assert [was][0] == was && Names(Oid("a", true), Column([was][0], "id"));
    assert [now][0] == now;
    ApplyLabel(glabel, msg, map[Oid("a", true) := []]);
  }
}
