/** The order in which database tables are captured: a table that feeds edges comes after the tables of
    the vertices at their ends.  Tables that feed vertices only come first, tables that feed both are
    placed pass by pass once their ends are there, tables that feed edges only come last. */
module TableOrder {

  datatype VertexType = VertexType(name: string, table: string)

  datatype EdgeType = EdgeType(src: string, dst: string, table: string)

  datatype Mapping = Mapping(vertexTypes: seq<VertexType>, edgeTypes: seq<EdgeType>)

  // ---------------------------------------------------------------- what the mapping says

  function VertexTables(vs: seq<VertexType>): (tables: seq<string>)
    ensures |tables| == |vs|
  {
    seq(|vs|, i requires 0 <= i < |vs| => vs[i].table)
  }

  function EdgeTables(es: seq<EdgeType>): (tables: seq<string>)
    ensures |tables| == |es|
  {
    seq(|es|, i requires 0 <= i < |es| => es[i].table)
  }

  predicate KnownType(vs: seq<VertexType>, name: string) {
    exists i :: 0 <= i < |vs| && vs[i].name == name
  }

  /** The table of a vertex type; of two types with one name the later one counts. */
  function TableOf(vs: seq<VertexType>, name: string): (table: string)
    requires KnownType(vs, name)
    ensures table in VertexTables(vs)
  {
    var last := vs[|vs| - 1];
    assert VertexTables(vs)[|vs| - 1] == last.table;
    if last.name == name then last.table
    else
      assert KnownType(vs[..|vs| - 1], name) by {
        var i :| 0 <= i < |vs| && vs[i].name == name;
        assert vs[..|vs| - 1][i] == vs[i];
      }
      var table := TableOf(vs[..|vs| - 1], name);
      assert table in VertexTables(vs) by {
        var i :| 0 <= i < |vs| - 1 && VertexTables(vs[..|vs| - 1])[i] == table;
        assert VertexTables(vs)[i] == table;
      }
      table
  }

  predicate KnownEnds(m: Mapping, e: EdgeType) {
    KnownType(m.vertexTypes, e.src) && KnownType(m.vertexTypes, e.dst)
  }

  /** The edge types of mixed tables name vertex types that exist; the script looks up no others. */
  predicate MixedKnown(m: Mapping) {
    forall e <- m.edgeTypes :: e.table in Mixed(m) ==> KnownEnds(m, e)
  }

  /** The tables of `names` that are, or are not, among `others`, in order. */
  function Keep(names: seq<string>, others: seq<string>, inside: bool): seq<string> {
    if names == [] then []
    else Keep(names[..|names| - 1], others, inside) +
         if (names[|names| - 1] in others) == inside then [names[|names| - 1]] else []
  }

  /** Tables that feed both vertices and edges. */
  function Mixed(m: Mapping): seq<string> {
    Keep(VertexTables(m.vertexTypes), EdgeTables(m.edgeTypes), true)
  }

  function VertexOnly(m: Mapping): seq<string> {
    Keep(VertexTables(m.vertexTypes), EdgeTables(m.edgeTypes), false)
  }

  /** The vertex type exists and lies in another table than `t`. */
  predicate IsForeign(m: Mapping, name: string, t: string) {
    KnownType(m.vertexTypes, name) && TableOf(m.vertexTypes, name) != t
  }

  /** The ends of the edge that lie in another table than the edge's own. */
  function ForeignEnds(m: Mapping, e: EdgeType): seq<string> {
    (if IsForeign(m, e.src, e.table) then [e.src] else []) +
    (if IsForeign(m, e.dst, e.table) then [e.dst] else [])
  }

  /** The foreign ends of all edges that come from table `t`. */
  function Foreign(m: Mapping, n: nat, t: string): seq<string>
    requires n <= |m.edgeTypes|
  {
    if n == 0 then []
    else Foreign(m, n - 1, t) + if m.edgeTypes[n - 1].table == t then ForeignEnds(m, m.edgeTypes[n - 1]) else []
  }

  /** Table `t` waits for table `u`. */
  ghost predicate DependsOn(m: Mapping, t: string, u: string)
  {
    exists e :: e in m.edgeTypes && e.table == t && u != t && EndIn(m, e, u)
  }

  predicate EndIn(m: Mapping, e: EdgeType, u: string)
  {
    || (KnownType(m.vertexTypes, e.src) && TableOf(m.vertexTypes, e.src) == u)
    || (KnownType(m.vertexTypes, e.dst) && TableOf(m.vertexTypes, e.dst) == u)
  }

  lemma {:induction false} ForeignNames(m: Mapping, n: nat, t: string, name: string)
    requires n <= |m.edgeTypes|
    ensures name in Foreign(m, n, t) <==>
              exists i :: 0 <= i < n && m.edgeTypes[i].table == t &&
                name in ForeignEnds(m, m.edgeTypes[i])
    decreases n
  {
    if n > 0 {
      ForeignNames(m, n - 1, t, name);
      assert m.edgeTypes[n - 1] in m.edgeTypes;
    }
  }

  lemma ForeignKnown(m: Mapping, t: string, name: string)
    requires name in Foreign(m, |m.edgeTypes|, t)
    ensures KnownType(m.vertexTypes, name) && DependsOn(m, t, TableOf(m.vertexTypes, name))
  {
    ForeignNames(m, |m.edgeTypes|, t, name);
    var i :| 0 <= i < |m.edgeTypes| && m.edgeTypes[i].table == t &&
             name in ForeignEnds(m, m.edgeTypes[i]);
    var e := m.edgeTypes[i];
    assert e in m.edgeTypes && EndIn(m, e, TableOf(m.vertexTypes, name));
  }

  lemma DependencyIsForeign(m: Mapping, t: string, u: string) returns (name: string)
    requires DependsOn(m, t, u)
    ensures name in Foreign(m, |m.edgeTypes|, t) && KnownType(m.vertexTypes, name) && TableOf(m.vertexTypes, name) == u
  {
    var e :| e in m.edgeTypes && e.table == t && u != t && EndIn(m, e, u);
    name := if KnownType(m.vertexTypes, e.src) && TableOf(m.vertexTypes, e.src) == u then e.src else e.dst;
    var i :| 0 <= i < |m.edgeTypes| && m.edgeTypes[i] == e;
    assert name in ForeignEnds(m, m.edgeTypes[i]);
    ForeignNames(m, |m.edgeTypes|, t, name);
  }

  // ---------------------------------------------------------------- the placement

  datatype Placement = Placement(list: seq<string>, placed: seq<bool>)

  /** All foreign ends of the table are listed. */
  predicate Ready(m: Mapping, list: seq<string>, t: string)
  {
    forall name <- Foreign(m, |m.edgeTypes|, t) ::
      (ForeignKnown(m, t, name); TableOf(m.vertexTypes, name) in list)
  }

  /** What one pass over the mixed tables makes of the placement, from table `idx` on. */
  function PassFrom(m: Mapping, mixed: seq<string>, st: Placement, idx: nat): (st': Placement)
    requires |st.placed| == |mixed| && idx <= |mixed|
    ensures |st'.placed| == |mixed|
    decreases |mixed| - idx
  {
    if idx == |mixed| then st
    else if st.placed[idx] || !Ready(m, st.list, mixed[idx]) then PassFrom(m, mixed, st, idx + 1)
    else PassFrom(m, mixed, Placement(st.list + [mixed[idx]], st.placed[idx := true]), idx + 1)
  }

  function Passes(m: Mapping, mixed: seq<string>, st: Placement, n: nat): (st': Placement)
    requires |st.placed| == |mixed|
    ensures |st'.placed| == |mixed|
    decreases n
  {
    if n == 0 then st else Passes(m, mixed, PassFrom(m, mixed, st, 0), n - 1)
  }

  function Sum(placed: seq<bool>): (n: nat)
    ensures n <= |placed|
  {
    if placed == [] then 0 else Sum(placed[1..]) + if placed[0] then 1 else 0
  }

  lemma {:induction false} SumFull(placed: seq<bool>)
    ensures Sum(placed) == |placed| <==> forall i :: 0 <= i < |placed| ==> placed[i]
  {
    if placed != [] {
      SumFull(placed[1..]);
      assert forall i :: 0 <= i < |placed| - 1 ==> placed[1..][i] == placed[i + 1];
    }
  }

  lemma {:induction false} SumSet(placed: seq<bool>, i: nat)
    requires i < |placed| && !placed[i]
    ensures Sum(placed[i := true]) == Sum(placed) + 1
  {
    if i > 0 {
      assert placed[i := true][1..] == placed[1..][i - 1 := true];
      SumSet(placed[1..], i - 1);
    } else {
      assert placed[i := true][1..] == placed[1..];
    }
  }

  /** A pass only adds tables; when it adds none it changes nothing. */
  lemma {:induction false} PassGrows(m: Mapping, mixed: seq<string>, st: Placement, idx: nat)
    requires |st.placed| == |mixed| && idx <= |mixed|
    ensures var st' := PassFrom(m, mixed, st, idx);
            Sum(st.placed) <= Sum(st'.placed) && (Sum(st'.placed) == Sum(st.placed) ==> st' == st)
    decreases |mixed| - idx
  {
    if idx < |mixed| {
      if st.placed[idx] || !Ready(m, st.list, mixed[idx]) {
        PassGrows(m, mixed, st, idx + 1);
      } else {
        SumSet(st.placed, idx);
        PassGrows(m, mixed, Placement(st.list + [mixed[idx]], st.placed[idx := true]), idx + 1);
      }
    }
  }

  // ---------------------------------------------------------------- the script

  datatype Outcome = Ordered(tables: seq<string>) | LookupError | LoopsForever(stuck: Placement)

  /** Splits the vertex tables. */
  method SplitTables(m: Mapping) returns (all: seq<string>, both: seq<string>)
    ensures all == VertexOnly(m) && both == Mixed(m)
  {
    var vertexTables, edgeTables := VertexTables(m.vertexTypes), EdgeTables(m.edgeTypes);
    all, both := [], [];
    for i := 0 to |vertexTables|
      invariant all == Keep(vertexTables[..i], edgeTables, false)
      invariant both == Keep(vertexTables[..i], edgeTables, true)
    {
      assert vertexTables[..i + 1][..i] == vertexTables[..i];
      if vertexTables[i] !in edgeTables {
        all := all + [vertexTables[i]];
      } else {
        both := both + [vertexTables[i]];
      }
    }
    assert vertexTables[..|vertexTables|] == vertexTables;
  }

  /** The dictionary holds the foreign ends of each mixed table that has any. */
  predicate DictIs(m: Mapping, both: seq<string>, n: nat, dict: map<string, seq<string>>)
    requires n <= |m.edgeTypes|
  {
    forall t: string :: t in both ==>
      (t in dict <==> Foreign(m, n, t) != []) && (t in dict ==> dict[t] == Foreign(m, n, t))
  }

  function Appended(dict: map<string, seq<string>>, t: string, name: string): map<string, seq<string>> {
    if t !in dict then dict[t := [name]] else dict[t := dict[t] + [name]]
  }

  /** The dictionary, unless an edge of one of these tables names an unknown vertex type. */
  method BuildDict(m: Mapping, both: seq<string>) returns (dict: map<string, seq<string>>, ok: bool)
    ensures ok <==> forall e <- m.edgeTypes :: e.table in both ==> KnownEnds(m, e)
    ensures ok ==> DictIs(m, both, |m.edgeTypes|, dict)
  {
    hide DictIs, Foreign, TableOf, KnownType;
    dict := map[];
    DictStart(m, both);
    for idx := 0 to |m.edgeTypes|
      invariant forall i :: 0 <= i < idx && m.edgeTypes[i].table in both ==> KnownEnds(m, m.edgeTypes[i])
      invariant DictIs(m, both, idx, dict)
    {
      var e := m.edgeTypes[idx];
      ghost var before := dict;
      if e.table in both {
        if !KnownType(m.vertexTypes, e.src) {
          return dict, false;
        }
        if TableOf(m.vertexTypes, e.src) != e.table {
          dict := Appended(dict, e.table, e.src);
        }
        if !KnownType(m.vertexTypes, e.dst) {
          return dict, false;
        }
        if TableOf(m.vertexTypes, e.dst) != e.table {
          dict := Appended(dict, e.table, e.dst);
        }
      }
      DictStep(m, both, idx, before, dict);
    }
    ok := true;
  }

  lemma DictStart(m: Mapping, both: seq<string>)
    ensures DictIs(m, both, 0, map[])
  {
  }

  lemma DictStep(m: Mapping, both: seq<string>, n: nat, dict: map<string, seq<string>>, dict': map<string, seq<string>>)
    requires n < |m.edgeTypes| && DictIs(m, both, n, dict)
    requires var e := m.edgeTypes[n];
             var d := if IsForeign(m, e.src, e.table) then Appended(dict, e.table, e.src) else dict;
             var d' := if IsForeign(m, e.dst, e.table) then Appended(d, e.table, e.dst) else d;
             dict' == if e.table in both then d' else dict
    ensures DictIs(m, both, n + 1, dict')
  {
    var e := m.edgeTypes[n];
    hide TableOf, KnownType;
    forall t: string | t in both
      ensures t in dict' <==> Foreign(m, n + 1, t) != []
      ensures t in dict' ==> dict'[t] == Foreign(m, n + 1, t)
    {
      var was := Foreign(m, n, t);
      assert was + [] == was;
      if e.table == t {
        assert Foreign(m, n + 1, t) == was + ForeignEnds(m, e);
        assert was + [e.src] + [e.dst] == was + ([e.src] + [e.dst]);
        assert [e.src] + [] == [e.src] && [] + [e.dst] == [e.dst];
      } else {
        assert Foreign(m, n + 1, t) == was;
      }
    }
  }

  /** One pass; `None`, as a negative result, is the lookup error. */
  method Pass(m: Mapping, both: seq<string>, dict: map<string, seq<string>>, st: Placement)
    returns (st': Placement, ok: bool)
    requires DictIs(m, both, |m.edgeTypes|, dict) && |st.placed| == |both|
    ensures |st'.placed| == |both|
    ensures ok <==> forall i :: 0 <= i < |both| && !st.placed[i] ==> Foreign(m, |m.edgeTypes|, both[i]) != []
    ensures ok ==> st' == PassFrom(m, both, st, 0)
  {
    st' := st;
    for idx := 0 to |both|
      invariant |st'.placed| == |both|
      invariant forall i :: 0 <= i < idx && !st.placed[i] ==> Foreign(m, |m.edgeTypes|, both[i]) != []
      invariant forall i :: idx <= i < |both| ==> st'.placed[i] == st.placed[i]
      invariant PassFrom(m, both, st, 0) == PassFrom(m, both, st', idx)
    {
      if st'.placed[idx] {
        continue;
      }
      var t := both[idx];
      assert t in both;
      if t !in dict {
        return st', false;
      }
      var ready := AllListed(m, dict[t], st'.list, t);
      if ready {
        st' := Placement(st'.list + [t], st'.placed[idx := true]);
      }
    }
    ok := true;
  }

  method AllListed(m: Mapping, names: seq<string>, list: seq<string>, ghost t: string) returns (ready: bool)
    requires names == Foreign(m, |m.edgeTypes|, t)
    ensures ready <==> Ready(m, list, t)
  {
    for i := 0 to |names|
      invariant forall j :: 0 <= j < i ==>
                KnownType(m.vertexTypes, names[j]) && TableOf(m.vertexTypes, names[j]) in list
    {
      assert names[i] in names;
      ForeignKnown(m, t, names[i]);
      if TableOf(m.vertexTypes, names[i]) !in list {
        return false;
      }
    }
    return true;
  }

  function StartPlacement(m: Mapping): Placement {
    Placement(VertexOnly(m), seq(|Mixed(m)|, _ => false))
  }

  /** A mixed table none of whose edges leaves the table has no entry in the dictionary. */
  predicate SelfContained(m: Mapping, t: string)
  {
    Foreign(m, |m.edgeTypes|, t) == []
  }

  /** Vertex type `v` is at an end of edge type `k`: it is the last one of that name. */
  ghost predicate IsEndOf(m: Mapping, k: nat, v: int)
    requires k < |m.edgeTypes|
  {
    && 0 <= v < |m.vertexTypes|
    && (m.vertexTypes[v].name == m.edgeTypes[k].src || m.vertexTypes[v].name == m.edgeTypes[k].dst)
    && forall w :: v < w < |m.vertexTypes| ==> m.vertexTypes[w].name != m.vertexTypes[v].name
  }

  /** All ends of all edges from table `t` lie in `t`. */
  ghost predicate EndsAtHome(m: Mapping, t: string) {
    forall k, v :: 0 <= k < |m.edgeTypes| && m.edgeTypes[k].table == t && IsEndOf(m, k, v) ==>
      m.vertexTypes[v].table == t
  }

  /** Of two types with one name the later one counts. */
  lemma {:induction false} LastTypeCounts(vs: seq<VertexType>, v: nat)
    requires v < |vs| && forall w :: v < w < |vs| ==> vs[w].name != vs[v].name
    ensures KnownType(vs, vs[v].name) && TableOf(vs, vs[v].name) == vs[v].table
  {
    if v < |vs| - 1 {
      LastTypeCounts(vs[..|vs| - 1], v);
    }
  }

  lemma {:induction false} LastOfName(vs: seq<VertexType>, name: string) returns (v: nat)
    requires KnownType(vs, name)
    ensures v < |vs| && vs[v].name == name && forall w :: v < w < |vs| ==> vs[w].name != name
  {
    if vs[|vs| - 1].name == name {
      v := |vs| - 1;
    } else {
      var i :| 0 <= i < |vs| && vs[i].name == name;
      assert vs[..|vs| - 1][i] == vs[i];
      v := LastOfName(vs[..|vs| - 1], name);
    }
  }

  lemma EndIsEnd(m: Mapping, k: nat, u: string)
    requires k < |m.edgeTypes|
    ensures EndIn(m, m.edgeTypes[k], u) <==> exists v :: IsEndOf(m, k, v) && m.vertexTypes[v].table == u
  {
    hide TableOf;
    var e := m.edgeTypes[k];
    if EndIn(m, e, u) {
      var name := if KnownType(m.vertexTypes, e.src) && TableOf(m.vertexTypes, e.src) == u then e.src else e.dst;
      var v := LastOfName(m.vertexTypes, name);
      LastTypeCounts(m.vertexTypes, v);
      assert IsEndOf(m, k, v);
    }
    if v :| IsEndOf(m, k, v) && m.vertexTypes[v].table == u {
      LastTypeCounts(m.vertexTypes, v);
    }
  }

  lemma OrderMeans(m: Mapping, tables: seq<string>)
    requires EndsFirst(m, tables)
    requires forall t :: t in tables <==> t in VertexTables(m.vertexTypes) || t in EdgeTables(m.edgeTypes)
    ensures forall v :: 0 <= v < |m.vertexTypes| ==> m.vertexTypes[v].table in tables
    ensures forall k :: 0 <= k < |m.edgeTypes| ==> m.edgeTypes[k].table in tables
    ensures forall k, v, j :: 0 <= k < |m.edgeTypes| && IsEndOf(m, k, v) && 0 <= j < |tables| ==>
              tables[j] == m.edgeTypes[k].table ==>
              m.vertexTypes[v].table == tables[j] || m.vertexTypes[v].table in tables[..j]
  {
    assert forall v :: 0 <= v < |m.vertexTypes| ==> VertexTables(m.vertexTypes)[v] == m.vertexTypes[v].table;
    assert forall k :: 0 <= k < |m.edgeTypes| ==> EdgeTables(m.edgeTypes)[k] == m.edgeTypes[k].table;
    forall k, v, j | 0 <= k < |m.edgeTypes| && IsEndOf(m, k, v) && 0 <= j < |tables|
      ensures tables[j] == m.edgeTypes[k].table ==>
              m.vertexTypes[v].table == tables[j] || m.vertexTypes[v].table in tables[..j]
    {
      var u := m.vertexTypes[v].table;
      EndIsEnd(m, k, u);
      hide EndIn, IsEndOf;
      if tables[j] == m.edgeTypes[k].table && u != tables[j] {
        assert m.edgeTypes[k] in m.edgeTypes && DependsOn(m, tables[j], u);
      }
    }
  }

  lemma HomeMeans(m: Mapping, t: string)
    ensures SelfContained(m, t) <==> EndsAtHome(m, t)
  {
    hide Foreign, IsEndOf, EndIn;
    if !SelfContained(m, t) {
      var name := Foreign(m, |m.edgeTypes|, t)[0];
      ForeignKnown(m, t, name);
      var u := TableOf(m.vertexTypes, name);
      var e :| e in m.edgeTypes && e.table == t && u != t && EndIn(m, e, u);
      var k :| 0 <= k < |m.edgeTypes| && m.edgeTypes[k] == e;
      EndIsEnd(m, k, u);
    }
    if k, v :| 0 <= k < |m.edgeTypes| && m.edgeTypes[k].table == t && IsEndOf(m, k, v) && EndTable(m, k, v) != t {
      EndIsEnd(m, k, EndTable(m, k, v));
      assert m.edgeTypes[k] in m.edgeTypes;
      var name := DependencyIsForeign(m, t, EndTable(m, k, v));
    }
  }

  ghost function EndTable(m: Mapping, k: nat, v: int): string
    requires k < |m.edgeTypes| && IsEndOf(m, k, v)
  {
    m.vertexTypes[v].table
  }

  lemma MixedIs(m: Mapping, t: string)
    ensures t in Mixed(m) <==>
              && (exists v :: 0 <= v < |m.vertexTypes| && m.vertexTypes[v].table == t)
              && (exists k :: 0 <= k < |m.edgeTypes| && m.edgeTypes[k].table == t)
  {
    var vs, es := VertexTables(m.vertexTypes), EdgeTables(m.edgeTypes);
    KeepMembers(vs, es, true);
    assert forall v :: 0 <= v < |vs| ==> vs[v] == m.vertexTypes[v].table;
    assert forall k :: 0 <= k < |es| ==> es[k] == m.edgeTypes[k].table;
    if v :| 0 <= v < |m.vertexTypes| && m.vertexTypes[v].table == t {
      assert vs[v] == t;
    }
    if k :| 0 <= k < |m.edgeTypes| && m.edgeTypes[k].table == t {
      assert es[k] == t;
    }
  }

  /** The table of edge type `k` feeds vertices too, and the edge names a vertex type that does not exist. */
  predicate EndUnknown(m: Mapping, k: int) {
    && 0 <= k < |m.edgeTypes|
    && (exists v :: 0 <= v < |m.vertexTypes| && m.vertexTypes[v].table == m.edgeTypes[k].table)
    && !(KnownType(m.vertexTypes, m.edgeTypes[k].src) && KnownType(m.vertexTypes, m.edgeTypes[k].dst))
  }

  /** The table of edge type `k` feeds vertices too, and no edge leaves it for another table. */
  ghost predicate NothingForeign(m: Mapping, k: int) {
    && 0 <= k < |m.edgeTypes|
    && (exists v :: 0 <= v < |m.vertexTypes| && m.vertexTypes[v].table == m.edgeTypes[k].table)
    && EndsAtHome(m, m.edgeTypes[k].table)
  }

  lemma UnknownMeans(m: Mapping)
    ensures !MixedKnown(m) <==> exists k :: EndUnknown(m, k)
  {
    hide Mixed;
    forall k | 0 <= k < |m.edgeTypes|
      ensures m.edgeTypes[k].table in Mixed(m) && !KnownEnds(m, m.edgeTypes[k]) <==> EndUnknown(m, k)
      ensures m.edgeTypes[k] in m.edgeTypes
    {
      MixedIs(m, m.edgeTypes[k].table);
    }
    hide EndUnknown, KnownEnds;
    if !MixedKnown(m) {
      var e :| e in m.edgeTypes && e.table in Mixed(m) && !KnownEnds(m, e);
      var k :| 0 <= k < |m.edgeTypes| && m.edgeTypes[k] == e;
      assert EndUnknown(m, k);
    }
    if k :| EndUnknown(m, k) {
      UnknownInRange(m, k);
      assert m.edgeTypes[k] in m.edgeTypes;
    }
  }

  lemma UnknownInRange(m: Mapping, k: int)
    requires EndUnknown(m, k)
    ensures 0 <= k < |m.edgeTypes|
  {
  }

  lemma LookupFails(m: Mapping)
    ensures (!MixedKnown(m) || exists t <- Mixed(m) :: SelfContained(m, t)) <==>
              (exists k :: EndUnknown(m, k)) || (exists k :: NothingForeign(m, k))
  {
    UnknownMeans(m);
    hide Mixed, SelfContained, EndsAtHome, EndUnknown, MixedKnown;
    if t :| t in Mixed(m) && SelfContained(m, t) {
      MixedIs(m, t);
      HomeMeans(m, t);
      var k :| 0 <= k < |m.edgeTypes| && m.edgeTypes[k].table == t;
      assert NothingForeign(m, k);
    }
    if k :| NothingForeign(m, k) {
      MixedIs(m, m.edgeTypes[k].table);
      HomeMeans(m, m.edgeTypes[k].table);
    }
  }

  /** The whole script.  The source's loop has no exit but success; a pass that changes nothing is followed
      by passes that change nothing. */
  method OrderTables(m: Mapping) returns (r: Outcome)
    ensures r.LookupError? <==> !MixedKnown(m) || exists t <- Mixed(m) :: SelfContained(m, t)
    ensures r.LoopsForever? ==>
              && |r.stuck.placed| == |Mixed(m)| && Sum(r.stuck.placed) < |Mixed(m)|
              && PassFrom(m, Mixed(m), r.stuck, 0) == r.stuck
              && exists n: nat :: r.stuck == Passes(m, Mixed(m), StartPlacement(m), n)
    ensures r.Ordered? ==>
              exists n: nat ::
                var st := Passes(m, Mixed(m), StartPlacement(m), n);
                Sum(st.placed) == |Mixed(m)| && r.tables == AddRest(st.list, EdgeTables(m.edgeTypes))
    ensures !r.LookupError? ==> (r.LoopsForever? <==> HasCycle(m))
    ensures r.LookupError? <==> (exists k :: EndUnknown(m, k)) || (exists k :: NothingForeign(m, k))
    ensures r.Ordered? ==>
              && (forall v :: 0 <= v < |m.vertexTypes| ==> m.vertexTypes[v].table in r.tables)
              && (forall k :: 0 <= k < |m.edgeTypes| ==> m.edgeTypes[k].table in r.tables)
              && (forall k, v, j :: 0 <= k < |m.edgeTypes| && IsEndOf(m, k, v) && 0 <= j < |r.tables| ==>
                    r.tables[j] == m.edgeTypes[k].table ==>
                    m.vertexTypes[v].table == r.tables[j] || m.vertexTypes[v].table in r.tables[..j])
  {
    hide IsEndOf, EndUnknown, NothingForeign, EndsAtHome, EndsFirst, Foreign, KnownType, TableOf, PassFrom, Mixed,
      VertexOnly, Ready, DictIs, KnownEnds, DependsOn, ListedOnce, IsCycle, VertexTables, Sum;
    LookupFails(m);
    var all, both := SplitTables(m);
    var dict, known := BuildDict(m, both);
    if !known {
      return LookupError;
    }
    var st := Placement(all, seq(|both|, _ => false));
    NothingPlaced(st.placed);
    ghost var n: nat := 0;
    while true
      invariant |st.placed| == |both| && st == Passes(m, both, StartPlacement(m), n)
      invariant n > 0 ==> forall t <- both :: !SelfContained(m, t)
      invariant n == 0 ==> st == StartPlacement(m)
      decreases |both| - Sum(st.placed)
    {
      if Sum(st.placed) == |both| {
        break;
      }
      var next, ok := Pass(m, both, dict, st);
      if !ok {
        var i :| 0 <= i < |both| && !st.placed[i] && Foreign(m, |m.edgeTypes|, both[i]) == [];
        assert both[i] in both && SelfContained(m, both[i]);
        return LookupError;
      }
      assert n == 0 ==> forall t <- both :: !SelfContained(m, t);
      PassGrows(m, both, st, 0);
      if next == st {
        StuckHasCycle(m, n);
        return LoopsForever(st);
      }
      PassesStep(m, both, StartPlacement(m), n);
      n := n + 1;
      st := next;
    }
    var tables := st.list;
    var edgeTables := EdgeTables(m.edgeTypes);
    for i := 0 to |edgeTables|
      invariant tables == AddRest(st.list, edgeTables[..i])
    {
      assert edgeTables[..i + 1][..i] == edgeTables[..i];
      if edgeTables[i] !in tables {
        tables := tables + [edgeTables[i]];
      }
    }
    assert edgeTables[..|edgeTables|] == edgeTables;
    r := Ordered(tables);
    OrderIsRight(m, n);
    OrderMeans(m, tables);
    if n == 0 {
      assert |both| == 0 by {
        SumFull(st.placed);
      }
    }
    if c :| IsCycle(m, c) {
      CycleNeverPlaced(m, c, n);
    }
  }

  /** Appends the tables that are not listed yet. */
  function AddRest(list: seq<string>, tables: seq<string>): seq<string> {
    if tables == [] then list
    else
      var before := AddRest(list, tables[..|tables| - 1]);
      if tables[|tables| - 1] in before then before else before + [tables[|tables| - 1]]
  }

  lemma {:induction false} NothingPlaced(placed: seq<bool>)
    requires forall i :: 0 <= i < |placed| ==> !placed[i]
    ensures Sum(placed) == 0
  {
    if placed != [] {
      NothingPlaced(placed[1..]);
    }
  }

  lemma {:induction false} PassesStep(m: Mapping, mixed: seq<string>, st: Placement, n: nat)
    requires |st.placed| == |mixed|
    ensures Passes(m, mixed, st, n + 1) == PassFrom(m, mixed, Passes(m, mixed, st, n), 0)
    decreases n
  {
    if n > 0 {
      PassesStep(m, mixed, PassFrom(m, mixed, st, 0), n - 1);
    }
  }

  // ---------------------------------------------------------------- what an ordered list satisfies

  /** Everything a listed table depends on is listed before it. */
  ghost predicate EndsFirst(m: Mapping, list: seq<string>)
  {
    forall j, u :: 0 <= j < |list| && DependsOn(m, list[j], u) ==> u in list[..j]
  }

  lemma EndsFirstAppend(m: Mapping, list: seq<string>, t: string)
    requires EndsFirst(m, list)
    requires forall u :: DependsOn(m, t, u) ==> u in list
    ensures EndsFirst(m, list + [t])
  {
    hide DependsOn;
    var list' := list + [t];
    forall j, u | 0 <= j < |list'| && DependsOn(m, list'[j], u)
      ensures u in list'[..j]
    {
      assert j < |list| ==> list'[..j] == list[..j];
      assert list'[..|list|] == list;
    }
  }

  lemma ReadyMeans(m: Mapping, list: seq<string>, t: string)
    ensures Ready(m, list, t) <==> forall u :: DependsOn(m, t, u) ==> u in list
  {
    if Ready(m, list, t) {
      forall u | DependsOn(m, t, u)
        ensures u in list
      {
        var name := DependencyIsForeign(m, t, u);
      }
    }
    if forall u :: DependsOn(m, t, u) ==> u in list {
      forall name | name in Foreign(m, |m.edgeTypes|, t)
        ensures KnownType(m.vertexTypes, name) && TableOf(m.vertexTypes, name) in list
      {
        ForeignKnown(m, t, name);
      }
    }
  }

  /** The mixed tables not placed yet. */
  function Unplaced(mixed: seq<string>, placed: seq<bool>): multiset<string>
    requires |mixed| == |placed|
  {
    if mixed == [] then multiset{}
    else (if placed[0] then multiset{} else multiset{mixed[0]}) + Unplaced(mixed[1..], placed[1..])
  }

  lemma {:induction false} UnplacedSet(mixed: seq<string>, placed: seq<bool>, i: nat)
    requires i < |mixed| == |placed| && !placed[i]
    ensures Unplaced(mixed, placed) == Unplaced(mixed, placed[i := true]) + multiset{mixed[i]}
  {
    if i > 0 {
      assert placed[i := true][1..] == placed[1..][i - 1 := true];
      UnplacedSet(mixed[1..], placed[1..], i - 1);
    } else {
      assert placed[i := true][1..] == placed[1..];
    }
  }

  lemma {:induction false} UnplacedNone(mixed: seq<string>, placed: seq<bool>)
    requires |mixed| == |placed| && Sum(placed) == |placed|
    ensures Unplaced(mixed, placed) == multiset{}
  {
    if mixed != [] {
      UnplacedNone(mixed[1..], placed[1..]);
    }
  }

  lemma {:induction false} UnplacedAll(mixed: seq<string>, placed: seq<bool>)
    requires |mixed| == |placed| && forall i :: 0 <= i < |placed| ==> !placed[i]
    ensures Unplaced(mixed, placed) == multiset(mixed)
  {
    if mixed != [] {
      UnplacedAll(mixed[1..], placed[1..]);
      assert mixed == [mixed[0]] + mixed[1..];
    }
  }

  lemma {:induction false} KeepMembers(names: seq<string>, others: seq<string>, inside: bool)
    ensures forall t :: t in Keep(names, others, inside) <==> t in names && (t in others) == inside
  {
    if names != [] {
      KeepMembers(names[..|names| - 1], others, inside);
      assert names == names[..|names| - 1] + [names[|names| - 1]];
    }
  }

  lemma {:induction false} KeepCounts(names: seq<string>, others: seq<string>)
    ensures multiset(Keep(names, others, true)) + multiset(Keep(names, others, false)) == multiset(names)
  {
    if names != [] {
      KeepCounts(names[..|names| - 1], others);
      assert names == names[..|names| - 1] + [names[|names| - 1]];
    }
  }

  lemma KeepParts(names: seq<string>, others: seq<string>)
    ensures multiset(Keep(names, others, true)) + multiset(Keep(names, others, false)) == multiset(names)
    ensures forall t :: t in Keep(names, others, true) <==> t in names && t in others
    ensures forall t :: t in Keep(names, others, false) <==> t in names && t !in others
  {
    KeepMembers(names, others, true);
    KeepMembers(names, others, false);
    KeepCounts(names, others);
  }

  /** What every pass keeps: nothing is lost or listed twice over, placed tables are listed, the tables that
      feed vertices only are listed, and ends come first. */
  ghost predicate PlacementOk(m: Mapping, st: Placement)
  {
    && |st.placed| == |Mixed(m)|
    && multiset(st.list) + Unplaced(Mixed(m), st.placed) == multiset(VertexTables(m.vertexTypes))
    && (forall i :: 0 <= i < |st.placed| && st.placed[i] ==> Mixed(m)[i] in st.list)
    && (forall t <- VertexOnly(m) :: t in st.list)
    && EndsFirst(m, st.list)
  }

  lemma StartOk(m: Mapping)
    ensures PlacementOk(m, StartPlacement(m))
  {
    var st := StartPlacement(m);
    KeepParts(VertexTables(m.vertexTypes), EdgeTables(m.edgeTypes));
    UnplacedAll(Mixed(m), st.placed);
    forall e | e in m.edgeTypes
      ensures e.table in EdgeTables(m.edgeTypes)
    {
      var i :| 0 <= i < |m.edgeTypes| && m.edgeTypes[i] == e;
      assert EdgeTables(m.edgeTypes)[i] == e.table;
    }
  }

  lemma PlaceOne(m: Mapping, st: Placement, idx: nat)
    requires PlacementOk(m, st) && idx < |st.placed| && !st.placed[idx]
    requires Ready(m, st.list, Mixed(m)[idx])
    ensures PlacementOk(m, Placement(st.list + [Mixed(m)[idx]], st.placed[idx := true]))
  {
    ReadyMeans(m, st.list, Mixed(m)[idx]);
    hide DependsOn, Mixed, VertexOnly, VertexTables, Unplaced, Ready;
    UnplacedSet(Mixed(m), st.placed, idx);
    EndsFirstAppend(m, st.list, Mixed(m)[idx]);
    hide EndsFirst;
  }

  lemma {:induction false} PassOk(m: Mapping, st: Placement, idx: nat)
    requires PlacementOk(m, st) && idx <= |st.placed|
    ensures PlacementOk(m, PassFrom(m, Mixed(m), st, idx))
    decreases |st.placed| - idx
  {
    var length := |st.placed| == |Mixed(m)|;
    assert length;
    hide PlacementOk, Ready, Mixed;
    if idx < |st.placed| {
      if st.placed[idx] || !Ready(m, st.list, Mixed(m)[idx]) {
        PassOk(m, st, idx + 1);
      } else {
        PlaceOne(m, st, idx);
        PassOk(m, Placement(st.list + [Mixed(m)[idx]], st.placed[idx := true]), idx + 1);
      }
    }
  }

  lemma {:induction false} PassesOk(m: Mapping, n: nat)
    ensures PlacementOk(m, Passes(m, Mixed(m), StartPlacement(m), n))
    decreases n
  {
    hide PlacementOk;
    if n == 0 {
      StartOk(m);
    } else {
      PassesOk(m, n - 1);
      PassesStep(m, Mixed(m), StartPlacement(m), n - 1);
      PassOk(m, Passes(m, Mixed(m), StartPlacement(m), n - 1), 0);
    }
  }

  predicate ListedOnce(list: seq<string>) {
    forall t <- list :: multiset(list)[t] == 1
  }

  /** The tables that feed edges only are added once each, after everything they depend on. */
  lemma {:induction false} RestAdded(m: Mapping, list: seq<string>, n: nat)
    requires n <= |m.edgeTypes| && EndsFirst(m, list)
    requires forall t <- VertexTables(m.vertexTypes) :: t in list
    ensures var tables := AddRest(list, EdgeTables(m.edgeTypes)[..n]);
            && list <= tables && EndsFirst(m, tables)
            && (forall t :: t in tables <==> t in list || t in EdgeTables(m.edgeTypes)[..n])
            && (ListedOnce(tables) <==> ListedOnce(list))
    decreases n
  {
    if n > 0 {
      RestAdded(m, list, n - 1);
      var all := EdgeTables(m.edgeTypes);
      assert all[..n][..n - 1] == all[..n - 1] && all[..n][n - 1] == all[n - 1];
      var before, t := AddRest(list, all[..n - 1]), all[n - 1];
      assert all[..n] == all[..n - 1] + [t];
      if t !in before {
        forall u | DependsOn(m, t, u)
          ensures u in before
        {
          DependencyIsVertexTable(m, t, u);
        }
        EndsFirstAppend(m, before, t);
        AddedOnce(before, t);
      }
    }
  }

  lemma AddedOnce(list: seq<string>, t: string)
    requires t !in list
    ensures ListedOnce(list + [t]) <==> ListedOnce(list)
  {
    assert multiset(list)[t] == 0;
    forall x | x in list
      ensures multiset(list + [t])[x] == multiset(list)[x]
    {
    }
    if ListedOnce(list + [t]) {
      assert forall x <- list :: x in list + [t];
    }
  }

  lemma DependencyIsVertexTable(m: Mapping, t: string, u: string)
    requires DependsOn(m, t, u)
    ensures u in VertexTables(m.vertexTypes)
  {
    var name := DependencyIsForeign(m, t, u);
  }

  /** The finished order: it lists exactly the tables of the mapping, every edge type's ends come before the
      table of the edge, and no table is listed twice if and only if no two vertex types share a table. */
  lemma OrderIsRight(m: Mapping, n: nat)
    requires Sum(Passes(m, Mixed(m), StartPlacement(m), n).placed) == |Mixed(m)|
    ensures var tables := AddRest(Passes(m, Mixed(m), StartPlacement(m), n).list, EdgeTables(m.edgeTypes));
            && EndsFirst(m, tables)
            && (forall t :: t in tables <==> t in VertexTables(m.vertexTypes) || t in EdgeTables(m.edgeTypes))
            && (ListedOnce(tables) <==> ListedOnce(VertexTables(m.vertexTypes)))
  {
    PassesOk(m, n);
    var st := Passes(m, Mixed(m), StartPlacement(m), n);
    UnplacedNone(Mixed(m), st.placed);
    SameTables(st.list, VertexTables(m.vertexTypes));
    var all := EdgeTables(m.edgeTypes);
    hide *;
    RestAdded(m, st.list, |m.edgeTypes|);
    assert all[..|all|] == all;
  }

  lemma SameTables(a: seq<string>, b: seq<string>)
    requires multiset(a) == multiset(b)
    ensures forall t :: t in a <==> t in b
    ensures ListedOnce(a) <==> ListedOnce(b)
  {
    forall t
      ensures t in a <==> t in b
    {
      assert t in a <==> t in multiset(a);
      assert t in b <==> t in multiset(b);
    }
  }

  // ---------------------------------------------------------------- when the loop ends

  /** Mixed tables that wait for each other in a circle. */
  ghost predicate IsCycle(m: Mapping, c: seq<string>)
  {
    && c != []
    && (forall i :: 0 <= i < |c| ==> c[i] in Mixed(m) && DependsOn(m, c[i], Following(c, i)))
  }

  function Following(c: seq<string>, i: nat): string
    requires i < |c|
  {
    if i + 1 < |c| then c[i + 1] else c[0]
  }

  ghost predicate HasCycle(m: Mapping)
  {
    exists c :: IsCycle(m, c)
  }

  ghost predicate NoneOf(list: seq<string>, c: seq<string>) {
    forall t <- c :: t !in list
  }

  /** While no table of a circle is listed, none of them is ready. */
  lemma CycleNotReady(m: Mapping, c: seq<string>, list: seq<string>, t: string)
    requires IsCycle(m, c) && NoneOf(list, c) && t in c
    ensures !Ready(m, list, t)
  {
    var i :| 0 <= i < |c| && c[i] == t;
    assert Following(c, i) in c;
    ReadyMeans(m, list, t);
  }

  lemma CycleIsMixed(m: Mapping, c: seq<string>)
    requires IsCycle(m, c)
    ensures NoneOf(VertexOnly(m), c)
  {
    KeepParts(VertexTables(m.vertexTypes), EdgeTables(m.edgeTypes));
    hide DependsOn, Keep;
    forall t | t in c
      ensures t in Mixed(m)
    {
      var i :| 0 <= i < |c| && c[i] == t;
    }
  }

  /** No table of a circle is ever placed. */
  lemma {:induction false} CycleNotPlaced(m: Mapping, c: seq<string>, st: Placement, idx: nat)
    requires IsCycle(m, c) && |st.placed| == |Mixed(m)| && idx <= |Mixed(m)|
    requires NoneOf(st.list, c)
    ensures NoneOf(PassFrom(m, Mixed(m), st, idx).list, c)
    decreases |Mixed(m)| - idx
  {
    if idx < |Mixed(m)| {
      var t := Mixed(m)[idx];
      if t in c {
        CycleNotReady(m, c, st.list, t);
      }
      hide IsCycle, Ready, Mixed;
      if st.placed[idx] || !Ready(m, st.list, t) {
        CycleNotPlaced(m, c, st, idx + 1);
      } else {
        CycleNotPlaced(m, c, Placement(st.list + [t], st.placed[idx := true]), idx + 1);
      }
    }
  }

  lemma {:induction false} CycleStaysOut(m: Mapping, c: seq<string>, n: nat)
    requires IsCycle(m, c)
    ensures NoneOf(Passes(m, Mixed(m), StartPlacement(m), n).list, c)
    decreases n
  {
    hide IsCycle, Mixed, VertexOnly, NoneOf;
    if n == 0 {
      CycleIsMixed(m, c);
    } else {
      CycleStaysOut(m, c, n - 1);
      PassesStep(m, Mixed(m), StartPlacement(m), n - 1);
      CycleNotPlaced(m, c, Passes(m, Mixed(m), StartPlacement(m), n - 1), 0);
    }
  }

  lemma CycleNeverPlaced(m: Mapping, c: seq<string>, n: nat)
    requires IsCycle(m, c)
    ensures Sum(Passes(m, Mixed(m), StartPlacement(m), n).placed) < |Mixed(m)|
  {
    CycleStaysOut(m, c, n);
    PassesOk(m, n);
    var st := Passes(m, Mixed(m), StartPlacement(m), n);
    SumFull(st.placed);
    assert c[0] in Mixed(m) && c[0] in c;
    var i :| 0 <= i < |Mixed(m)| && Mixed(m)[i] == c[0];
    assert !st.placed[i];
  }

  /** The mixed tables that are not listed. */
  function Missing(m: Mapping, list: seq<string>): set<string> {
    set t | t in Mixed(m) && t !in list
  }

  /** When a pass changes nothing, every missing table waits for a missing one. */
  lemma StuckWaits(m: Mapping, st: Placement, t: string) returns (u: string)
    requires PlacementOk(m, st) && PassFrom(m, Mixed(m), st, 0) == st
    requires t in Mixed(m) && exists i :: 0 <= i < |Mixed(m)| && Mixed(m)[i] == t && !st.placed[i]
    ensures u in Missing(m, st.list) && DependsOn(m, t, u)
  {
    var i :| 0 <= i < |Mixed(m)| && Mixed(m)[i] == t && !st.placed[i];
    NothingReady(m, st, 0, i);
    ReadyMeans(m, st.list, t);
    u :| DependsOn(m, t, u) && u !in st.list;
    DependencyIsVertexTable(m, t, u);
    KeepParts(VertexTables(m.vertexTypes), EdgeTables(m.edgeTypes));
  }

  lemma {:induction false} NothingReady(m: Mapping, st: Placement, idx: nat, i: nat)
    requires |st.placed| == |Mixed(m)| && idx <= i < |Mixed(m)| && !st.placed[i]
    requires PassFrom(m, Mixed(m), st, idx) == st
    ensures !Ready(m, st.list, Mixed(m)[i])
    decreases i - idx
  {
    hide Ready, Mixed;
    if st.placed[idx] || !Ready(m, st.list, Mixed(m)[idx]) {
      if idx < i {
        NothingReady(m, st, idx + 1, i);
      }
    } else {
      SumSet(st.placed, idx);
      PassGrows(m, Mixed(m), Placement(st.list + [Mixed(m)[idx]], st.placed[idx := true]), idx + 1);
      assert false;
    }
  }

  /** Each table of the walk waits for the next one. */
  ghost predicate Waits(m: Mapping, w: seq<string>)
  {
    forall i :: 0 <= i < |w| - 1 ==> DependsOn(m, w[i], NextIn(w, i))
  }

  function NextIn(w: seq<string>, i: nat): string
    requires i + 1 < |w|
  {
    w[i + 1]
  }

  lemma {:induction false} LongWalk(m: Mapping, st: Placement, t: string, n: nat) returns (w: seq<string>)
    requires PlacementOk(m, st) && PassFrom(m, Mixed(m), st, 0) == st && t in Missing(m, st.list)
    ensures |w| == n + 1 && w[0] == t && Waits(m, w) && forall x <- w :: x in Missing(m, st.list)
    decreases n
  {
    if n == 0 {
      w := [t];
    } else {
      var i :| 0 <= i < |Mixed(m)| && Mixed(m)[i] == t;
      assert !st.placed[i];
      var u := StuckWaits(m, st, t);
      var rest := LongWalk(m, st, u, n - 1);
      w := [t] + rest;
      hide PlacementOk, PassFrom, Missing, DependsOn;
      forall k | 0 <= k < |w| - 1
        ensures DependsOn(m, w[k], NextIn(w, k))
      {
        assert k > 0 ==> DependsOn(m, rest[k - 1], NextIn(rest, k - 1));
      }
    }
  }

  /** A walk longer than the number of tables it can visit comes back to one of them. */
  lemma {:induction false} ComesBack(w: seq<string>, places: set<string>) returns (i: nat, j: nat)
    requires |w| > |places| && forall x <- w :: x in places
    ensures i < j < |w| && w[i] == w[j]
    decreases |w|
  {
    assert w[0] in w;
    if w[0] in w[1..] {
      var k :| 0 <= k < |w| - 1 && w[1..][k] == w[0];
      i, j := 0, k + 1;
    } else {
      forall x | x in w[1..]
        ensures x in places - {w[0]}
      {
        assert x in w;
      }
      i, j := ComesBack(w[1..], places - {w[0]});
      i, j := i + 1, j + 1;
    }
  }

  lemma StuckHasCycle(m: Mapping, n: nat)
    requires var st := Passes(m, Mixed(m), StartPlacement(m), n);
             Sum(st.placed) < |Mixed(m)| && PassFrom(m, Mixed(m), st, 0) == st
    ensures HasCycle(m)
  {
    var st := Passes(m, Mixed(m), StartPlacement(m), n);
    PassesOk(m, n);
    SumFull(st.placed);
    var i :| 0 <= i < |st.placed| && !st.placed[i];
    var t := StuckWaits(m, st, Mixed(m)[i]);
    var w := LongWalk(m, st, t, |Missing(m, st.list)|);
    var a, b := ComesBack(w, Missing(m, st.list));
    CycleOf(m, st.list, w, a, b);
  }

  lemma CycleOf(m: Mapping, list: seq<string>, w: seq<string>, a: nat, b: nat)
    requires Waits(m, w) && a < b < |w| && w[a] == w[b]
    requires forall x <- w :: x in Missing(m, list)
    ensures HasCycle(m)
  {
    hide DependsOn, Mixed;
    assert forall t :: t in Missing(m, list) ==> t in Mixed(m);
    hide Missing;
    var c := w[a..b];
    forall i | 0 <= i < |c|
      ensures c[i] in Mixed(m) && DependsOn(m, c[i], Following(c, i))
    {
      assert c[i] == w[a + i] && w[a + i] in w;
      assert DependsOn(m, w[a + i], NextIn(w, a + i));
    }
    assert IsCycle(m, c);
  }

  /** The placement loop ends if and only if no mixed tables wait for each other in a circle. */
  lemma EndsIffAcyclic(m: Mapping)
    ensures (exists n: nat :: Sum(Passes(m, Mixed(m), StartPlacement(m), n).placed) == |Mixed(m)|) <==> !HasCycle(m)
  {
    if c :| IsCycle(m, c) {
      forall n: nat
        ensures Sum(Passes(m, Mixed(m), StartPlacement(m), n).placed) < |Mixed(m)|
      {
        CycleNeverPlaced(m, c, n);
      }
    } else {
      var n := RunToEnd(m, 0);
    }
  }

  /** Some pass is the last that changes anything. */
  lemma {:induction false} RunToEnd(m: Mapping, n: nat) returns (last: nat)
    requires !HasCycle(m)
    ensures Sum(Passes(m, Mixed(m), StartPlacement(m), last).placed) == |Mixed(m)|
    decreases |Mixed(m)| - Sum(Passes(m, Mixed(m), StartPlacement(m), n).placed)
  {
    var st := Passes(m, Mixed(m), StartPlacement(m), n);
    if Sum(st.placed) == |Mixed(m)| {
      last := n;
    } else {
      PassGrows(m, Mixed(m), st, 0);
      PassesStep(m, Mixed(m), StartPlacement(m), n);
      if PassFrom(m, Mixed(m), st, 0) == st {
        StuckHasCycle(m, n);
      }
      last := RunToEnd(m, n + 1);
    }
  }

  // ---------------------------------------------------------------- mappings the script cannot order

  /** One table of persons with a column for the boss: its only edge leaves it for no other table, and the
      lookup of its ends fails. */
  lemma OwnEndsOnly()
    ensures var m := Mapping([VertexType("person", "person")], [EdgeType("person", "person", "person")]);
            MixedKnown(m) && Mixed(m) == ["person"] && SelfContained(m, "person")
  {
    var m := Mapping([VertexType("person", "person")], [EdgeType("person", "person", "person")]);
    assert VertexTables(m.vertexTypes) == ["person"] && EdgeTables(m.edgeTypes) == ["person"];
    assert ["person"][..0] == [];
    assert m.vertexTypes[0].name == "person";
    assert Foreign(m, 0, "person") == [];
  }

  /** Each of two tables refers to the other: the placement loop never ends. */
  lemma TablesWaitForEachOther()
    ensures var m := Mapping([VertexType("a", "a"), VertexType("b", "b")],
                             [EdgeType("a", "b", "a"), EdgeType("b", "a", "b")]);
            MixedKnown(m) && (forall t <- Mixed(m) :: !SelfContained(m, t)) && HasCycle(m)
  {
    var m := Mapping([VertexType("a", "a"), VertexType("b", "b")], [EdgeType("a", "b", "a"), EdgeType("b", "a", "b")]);
    TwoTables();
    hide Mixed, TableOf, KnownType, Foreign;
    assert "a"[0] != "b"[0];
    var e, f := EdgeType("a", "b", "a"), EdgeType("b", "a", "b");
    assert m.edgeTypes[0] == e && m.edgeTypes[1] == f;
    assert EndIn(m, e, "b") && EndIn(m, f, "a");
    assert DependsOn(m, "a", "b") && DependsOn(m, "b", "a");
    assert IsCycle(m, ["a", "b"]) by {
      assert Following(["a", "b"], 0) == "b" && Following(["a", "b"], 1) == "a";
    }
    forall t | t in Mixed(m)
      ensures !SelfContained(m, t)
    {
      var _ := DependencyIsForeign(m, t, if t == "a" then "b" else "a");
    }
  }

  lemma TwoTables()
    ensures var m := Mapping([VertexType("a", "a"), VertexType("b", "b")],
                             [EdgeType("a", "b", "a"), EdgeType("b", "a", "b")]);
            && Mixed(m) == ["a", "b"]
            && KnownType(m.vertexTypes, "a") && TableOf(m.vertexTypes, "a") == "a"
            && KnownType(m.vertexTypes, "b") && TableOf(m.vertexTypes, "b") == "b"
  {
    var m := Mapping([VertexType("a", "a"), VertexType("b", "b")], [EdgeType("a", "b", "a"), EdgeType("b", "a", "b")]);
    assert "a"[0] != "b"[0];
    assert m.vertexTypes[0].name == "a" && m.vertexTypes[1].name == "b";
    assert VertexTables(m.vertexTypes) == ["a", "b"] && EdgeTables(m.edgeTypes) == ["a", "b"];
    assert ["a", "b"][..1] == ["a"] && ["a"][..0] == [];
    assert m.vertexTypes[..1] == [VertexType("a", "a")];
  }
}
