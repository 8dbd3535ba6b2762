/** Vertex ids inside a fragment: its own vertices keep their offset, vertices of other fragments get
    offsets counted down from the top of the range. */
module FragmentIds {
  import opened Decimal
  import opened Powers
  import opened IdParser

  /** What a fragment knows of one label: how many vertices of its own, and the outer vertices it met, by
      number (`ovl2g`) and by global id (`ovg2l`). */
  datatype LabelIds = LabelIds(maxInner: nat, ovl2g: seq<nat>, ovg2l: map<nat, nat>)

  /** The local id of the `ov`-th outer vertex; the subtraction is on 64-bit words. */
  function OuterLid(p: Parser, vlabel: nat, ov: nat): nat
    requires p.Valid()
  {
    p.GenerateId(0, vlabel, (p.MaxOuterOffset() - ov) % 0x1_0000_0000_0000_0000)
  }

  /** The two outer tables describe the same numbering of vertices of other fragments under this label, and
      no vertex is numbered twice. */
  ghost predicate OuterOk(p: Parser, fid: nat, vlabel: nat, ids: LabelIds)
    requires p.Valid()
  {
    && (forall k :: 0 <= k < |ids.ovl2g| ==> IsForeign(p, fid, vlabel, ids.ovl2g[k]))
    && (forall k :: 0 <= k < |ids.ovl2g| ==>
          ids.ovl2g[k] in ids.ovg2l && ids.ovg2l[ids.ovl2g[k]] == OuterLid(p, vlabel, k))
    && (forall g :: g in ids.ovg2l ==> g in ids.ovl2g)
    && (forall i, j :: 0 <= i < j < |ids.ovl2g| ==> ids.ovl2g[i] != ids.ovl2g[j])
  }

  lemma KnownOuter(p: Parser, fid: nat, vlabel: nat, ids: LabelIds, gid: nat)
    requires p.Valid() && OuterOk(p, fid, vlabel, ids)
    ensures gid in ids.ovl2g <==> gid in ids.ovg2l
  {
  }

  lemma NumbersGrow(keyLid: map<nat, nat>, ovl2g: seq<nat>, gid: nat)
    requires forall g :: g in keyLid ==> keyLid[g] < |ovl2g| && ovl2g[keyLid[g]] == g
    ensures var after := keyLid[gid := |ovl2g|];
            forall g :: g in after ==> after[g] < |ovl2g + [gid]| && (ovl2g + [gid])[after[g]] == g
  {
  }

  /** One more outer vertex. */
  lemma OuterGrows(p: Parser, fid: nat, vlabel: nat, ids: LabelIds, gid: nat)
    requires p.Valid() && OuterOk(p, fid, vlabel, ids) && gid !in ids.ovg2l && IsForeign(p, fid, vlabel, gid)
    ensures gid !in ids.ovl2g
    ensures var lid := OuterLid(p, vlabel, |ids.ovl2g|);
            OuterOk(p, fid, vlabel, LabelIds(ids.maxInner, ids.ovl2g + [gid], ids.ovg2l[gid := lid]))
  {
    hide OuterLid, IsForeign;
  }

  /** A vertex of this label that lives in another fragment. */
  predicate IsForeign(p: Parser, fid: nat, vlabel: nat, gid: nat) {
    p.GetFid(gid) != fid && p.GetLabelId(gid) == vlabel
  }

  /** The writer's side of one label, in fragment `fid`. */
  class OuterVertices {
    const p: Parser
    const fid: nat
    const vlabel: nat
    var keyLid: map<nat, nat>
    var ovl2g: seq<nat>
    var ovg2l: map<nat, nat>

    ghost predicate Valid()
      reads this
    {
      && p.Valid() && OuterOk(p, fid, vlabel, LabelIds(0, ovl2g, ovg2l))
      && keyLid.Keys == ovg2l.Keys
      && forall g :: g in keyLid ==> keyLid[g] < |ovl2g| && ovl2g[keyLid[g]] == g
    }

    constructor (p: Parser, fid: nat, vlabel: nat)
      requires p.Valid()
      ensures Valid() && ovl2g == [] && this.p == p && this.fid == fid && this.vlabel == vlabel
    {
      this.p, this.fid, this.vlabel := p, fid, vlabel;
      keyLid, ovl2g, ovg2l := map[], [], map[];
    }

    /** The number of an outer vertex, given out when its first edge arrives; the new local id goes to the
        vertex table.  The caller has taken the branch for vertices of other fragments, and picked the
        tables by the vertex's own label. */
    method Meet(gid: nat) returns (ov: nat, added: Option<nat>)
      requires Valid() && IsForeign(p, fid, vlabel, gid)
      modifies this
      ensures Valid() && ov < |ovl2g| && ovl2g[ov] == gid
      ensures gid in old(ovl2g) ==> added.None? && ovl2g == old(ovl2g) && ovg2l == old(ovg2l)
      ensures gid !in old(ovl2g) ==>
                added == Some(OuterLid(p, vlabel, |old(ovl2g)|)) && ovl2g == old(ovl2g) + [gid] &&
                ovg2l == old(ovg2l)[gid := added.value]
    {
      hide OuterLid, IsForeign, OuterOk;
      KnownOuter(p, fid, vlabel, LabelIds(0, ovl2g, ovg2l), gid);
      assert gid in keyLid <==> gid in ovg2l;
      if gid in keyLid {
        return keyLid[gid], None;
      }
      OuterGrows(p, fid, vlabel, LabelIds(0, ovl2g, ovg2l), gid);
      NumbersGrow(keyLid, ovl2g, gid);
      assert keyLid[gid := |ovl2g|].Keys == keyLid.Keys + {gid};
      ov := |ovl2g|;
      var lid := OuterLid(p, vlabel, ov);
      keyLid := keyLid[gid := ov];
      ovg2l := ovg2l[gid := lid];
      ovl2g := ovl2g + [gid];
      added := Some(lid);
    }
  }

  // ---------------------------------------------------------------- the fragment

  datatype Fragment = Fragment(p: Parser, fid: nat, labels: seq<LabelIds>)
  {
    /** The tables are consistent, and own and outer vertices of each label fit the offset range. */
    ghost predicate Valid() {
      && p.Valid() && fid < p.FidUnit() && |labels| <= MAX_VLABELS
      && forall l :: 0 <= l < |labels| ==>
           OuterOk(p, fid, l, labels[l]) && labels[l].maxInner + |labels[l].ovl2g| <= p.OffsetUnit()
    }

    function MaxInnerOffset(vlabel: nat): int
      requires vlabel < |labels|
    {
      labels[vlabel].maxInner - 1
    }

    function MinOuterOffset(vlabel: nat): int
      requires p.Valid() && vlabel < |labels|
    {
      p.MaxOuterOffset() + 1 - |labels[vlabel].ovl2g|
    }

    predicate IsInnerVertex(v: nat)
      requires p.Valid() && p.GetLabelId(v) < |labels|
    {
      p.GetOffset(v) <= MaxInnerOffset(p.GetLabelId(v))
    }

    predicate IsOuterVertex(v: nat)
      requires p.Valid() && p.GetLabelId(v) < |labels|
    {
      p.GetOffset(v) >= MinOuterOffset(p.GetLabelId(v))
    }

    function Gid2Vertex(gid: nat): Option<nat>
      requires p.Valid() && p.GetLabelId(gid) < |labels|
    {
      if p.GetFid(gid) == fid then Some(p.GetLid(gid))
      else if gid in labels[p.GetLabelId(gid)].ovg2l then Some(labels[p.GetLabelId(gid)].ovg2l[gid])
      else None
    }

    /** The number of an outer vertex; the source reads whatever `ovl2g` holds there. */
    function OuterNumber(v: nat): int
      requires p.Valid()
    {
      p.MaxOuterOffset() - p.GetOffset(v)
    }

    function Vertex2Gid(v: nat): nat
      requires p.Valid() && p.GetLabelId(v) < |labels|
      requires !IsInnerVertex(v) ==> 0 <= OuterNumber(v) < |labels[p.GetLabelId(v)].ovl2g|
    {
      if IsInnerVertex(v) then p.GenerateId(fid, p.GetLabelId(v), p.GetOffset(v))
      else labels[p.GetLabelId(v)].ovl2g[OuterNumber(v)]
    }

    function GetOffset(v: nat): int
      requires p.Valid() && p.GetLabelId(v) < |labels|
    {
      if IsInnerVertex(v) then p.GetOffset(v) else OuterNumber(v)
    }

    /** A vertex of the fragment, or one it met; ids are below the top bit. */
    ghost predicate KnownGid(gid: nat)
      requires p.Valid()
    {
      && p.GetLabelId(gid) < |labels| && gid < LABEL_UNIT * MAX_VLABELS
      && if p.GetFid(gid) == fid then p.GetOffset(gid) < labels[p.GetLabelId(gid)].maxInner
         else gid in labels[p.GetLabelId(gid)].ovg2l
    }
  }

  /** The fields of an outer local id. */
  lemma OuterLidFields(p: Parser, vlabel: nat, ov: nat)
    requires p.Valid() && vlabel < MAX_VLABELS && ov < p.OffsetUnit()
    ensures var v := OuterLid(p, vlabel, ov);
            && v < LABEL_UNIT * MAX_VLABELS && p.GetFid(v) == 0 && p.GetLabelId(v) == vlabel
            && p.GetOffset(v) == p.MaxOuterOffset() - ov
  {
    hide Parser.GenerateId, Parser.GetOffset, Parser.GetLabelId, Parser.GetFid, Pow2;
    OffsetBelowWord(p);
    LocalIdFields(p, vlabel, p.OffsetUnit() - 1 - ov);
  }

  lemma OffsetBelowWord(p: Parser)
    requires p.Valid()
    ensures p.OffsetUnit() <= LABEL_UNIT && p.MaxOuterOffset() == p.OffsetUnit() - 1
    ensures forall l: nat, ov: nat :: ov < p.OffsetUnit() ==>
              OuterLid(p, l, ov) == p.GenerateId(0, l, p.OffsetUnit() - 1 - ov)
  {
    Units(p);
    MulMonotone(1, p.FidUnit(), p.OffsetUnit());
    hide Pow2, Parser.GenerateId;
    forall l: nat, ov: nat | ov < p.OffsetUnit()
      ensures OuterLid(p, l, ov) == p.GenerateId(0, l, p.OffsetUnit() - 1 - ov)
    {
      SmallMod(p.OffsetUnit() - 1 - ov, 0x1_0000_0000_0000_0000);
    }
  }

  /** Own vertices count up from 0 and outer vertices down from the top; some local id is classified as
      both if and only if there are vertices of both kinds and together they are more than the offset width
      can tell apart. */
  lemma RangesMeetIff(f: Fragment, l: nat)
    requires f.p.Valid() && l < |f.labels| <= MAX_VLABELS
    ensures (exists v: nat :: IsBoth(f, l, v)) <==>
              f.labels[l].maxInner > 0 && f.labels[l].ovl2g != [] &&
              f.labels[l].maxInner + |f.labels[l].ovl2g| > f.p.OffsetUnit()
  {
    var inner, outer, unit := f.labels[l].maxInner, |f.labels[l].ovl2g|, f.p.OffsetUnit();
    OffsetBelowWord(f.p);
    if inner > 0 && outer > 0 && inner + outer > unit {
      var o: nat := (if inner < unit then inner else unit) - 1;
      LocalIdFields(f.p, l, o);
      assert IsBoth(f, l, f.p.GenerateId(0, l, o));
    }
    if v: nat :| IsBoth(f, l, v) {
      OffsetInRange(f.p, v);
    }
  }

  /** A local id of label `l` that counts as an own vertex and as an outer one. */
  predicate IsBoth(f: Fragment, l: nat, v: nat)
    requires f.p.Valid() && l < |f.labels|
  {
    && v < LABEL_UNIT * MAX_VLABELS && f.p.GetFid(v) == 0 && f.p.GetLabelId(v) == l
    && f.IsInnerVertex(v) && f.IsOuterVertex(v)
  }

  lemma OffsetInRange(p: Parser, v: nat)
    requires p.Valid()
    ensures 0 <= p.GetOffset(v) < p.OffsetUnit()
  {
  }

  /** The fields of a local id. */
  lemma LocalIdFields(p: Parser, vlabel: nat, o: nat)
    requires p.Valid() && vlabel < MAX_VLABELS && o < p.OffsetUnit()
    ensures var v := p.GenerateId(0, vlabel, o);
            v < LABEL_UNIT * MAX_VLABELS && p.GetFid(v) == 0 && p.GetLabelId(v) == vlabel && p.GetOffset(v) == o
  {
    GeneratedFields(p, 0, vlabel, o);
    hide *;
    SmallMod(o, p.OffsetUnit());
    SmallMod(vlabel, MAX_VLABELS);
    SmallMod(0, p.FidUnit());
  }

  /** Translating a known global id to a vertex and back gives the id, and the vertex is classified as what
      it is. */
  lemma GidRoundTrip(f: Fragment, gid: nat)
    requires f.Valid() && f.KnownGid(gid)
    ensures var v := f.Gid2Vertex(gid);
            && v.Some? && f.p.GetLabelId(v.value) < |f.labels|
            && (f.IsInnerVertex(v.value) <==> f.p.GetFid(gid) == f.fid)
            && (f.IsOuterVertex(v.value) <==> f.p.GetFid(gid) != f.fid)
            && (!f.IsInnerVertex(v.value) ==> 0 <= f.OuterNumber(v.value) < |f.labels[f.p.GetLabelId(v.value)].ovl2g|)
            && f.Vertex2Gid(v.value) == gid
  {
    var p, l := f.p, f.p.GetLabelId(gid);
    if p.GetFid(gid) == f.fid {
      LidFields(p, gid);
      RegenerateId(p, gid);
    } else {
      var ids := f.labels[l];
      var k :| 0 <= k < |ids.ovl2g| && ids.ovl2g[k] == gid;
      OuterLidFields(p, l, k);
      hide *;
      OuterFacts(f, l, k);
    }
  }

  /** What the `k`-th outer vertex of a label looks like to the fragment. */
  lemma OuterFacts(f: Fragment, l: nat, k: nat)
    requires f.Valid() && l < |f.labels| && k < |f.labels[l].ovl2g|
    ensures var v := OuterLid(f.p, l, k);
            && f.p.GetLabelId(v) == l && f.OuterNumber(v) == k
            && !f.IsInnerVertex(v) && f.IsOuterVertex(v) && f.Vertex2Gid(v) == f.labels[l].ovl2g[k]
            && f.labels[l].ovl2g[k] in f.labels[l].ovg2l && f.labels[l].ovg2l[f.labels[l].ovl2g[k]] == v
  {
    assert OuterOk(f.p, f.fid, l, f.labels[l]);
    OuterLidFields(f.p, l, k);
    hide Parser.GetOffset, Parser.GetLabelId, Parser.GetFid, OuterLid;
  }

  /** The local id of an own vertex keeps label and offset. */
  lemma LidFields(p: Parser, gid: nat)
    requires p.Valid() && gid < LABEL_UNIT * MAX_VLABELS
    ensures var v := p.GetLid(gid);
            p.GetLabelId(v) == p.GetLabelId(gid) && p.GetOffset(v) == p.GetOffset(gid) && p.GetFid(v) == 0
  {
    RegenerateId(p, gid);
    GeneratedFields(p, p.GetFid(gid), p.GetLabelId(gid), p.GetOffset(gid));
    OffsetInRange(p, gid);
    LocalIdFields(p, p.GetLabelId(gid), p.GetOffset(gid));
    hide Parser.GetLid, Parser.GetOffset, Parser.GetFid, Parser.GenerateId, Pow2;
  }

  lemma ModTwice(x: nat, m: nat)
    requires m > 0
    ensures x % m % m == x % m
  {
    SmallMod(x % m, m);
  }

  /** The vertices the fragment hands out: local ids of own vertices and of the outer vertices it met. */
  ghost predicate IsVertex(f: Fragment, v: nat)
    requires f.Valid()
  {
    var l := f.p.GetLabelId(v);
    && l < |f.labels| && v < LABEL_UNIT * MAX_VLABELS && f.p.GetFid(v) == 0
    && (f.p.GetOffset(v) < f.labels[l].maxInner || 0 <= f.OuterNumber(v) < |f.labels[l].ovl2g|)
  }

  /** The other way round: a vertex determines a global id that leads back to it, provided no outer vertex
      carries this fragment's number. */
  lemma VertexRoundTrip(f: Fragment, v: nat)
    requires f.Valid() && IsVertex(f, v)
    ensures !f.IsInnerVertex(v) ==> 0 <= f.OuterNumber(v) < |f.labels[f.p.GetLabelId(v)].ovl2g|
    ensures f.p.GetLabelId(f.Vertex2Gid(v)) < |f.labels| && f.Gid2Vertex(f.Vertex2Gid(v)) == Some(v)
  {
    var p, l := f.p, f.p.GetLabelId(v);
    RegenerateId(p, v);
    if f.IsInnerVertex(v) {
      OwnGid(f, v);
    } else {
      var k := f.OuterNumber(v);
      OuterFacts(f, l, k);
      OuterLidFields(p, l, k);
      RegenerateId(p, OuterLid(p, l, k));
    }
  }

  lemma OwnGid(f: Fragment, v: nat)
    requires f.Valid() && v < LABEL_UNIT * MAX_VLABELS && f.p.GetFid(v) == 0
    ensures var gid := f.p.GenerateId(f.fid, f.p.GetLabelId(v), f.p.GetOffset(v));
            f.p.GetFid(gid) == f.fid && f.p.GetLabelId(gid) == f.p.GetLabelId(v) && f.p.GetLid(gid) == v
  {
    var p := f.p;
    RegenerateId(p, v);
    GeneratedFields(p, f.fid, p.GetLabelId(v), p.GetOffset(v));
    hide Parser.GetLid, Parser.GenerateId, Pow2;
    ModTwice(v / LABEL_UNIT, MAX_VLABELS);
    SmallMod(f.fid, p.FidUnit());
  }

  /** Offsets are dense: own vertices use 0 .. count-1 by their own offset, outer ones 0 .. count-1 by
      their number, although their stored offsets go down. */
  lemma OffsetsDense(f: Fragment, l: nat, k: nat)
    requires f.Valid() && l < |f.labels|
    ensures k < |f.labels[l].ovl2g| ==>
              f.p.GetLabelId(OuterLid(f.p, l, k)) == l && f.GetOffset(OuterLid(f.p, l, k)) == k
    ensures k < f.labels[l].maxInner ==>
              f.p.GetLabelId(f.p.GenerateId(0, l, k)) == l && f.IsInnerVertex(f.p.GenerateId(0, l, k)) &&
              f.GetOffset(f.p.GenerateId(0, l, k)) == k
  {
    if k < |f.labels[l].ovl2g| {
      OuterFacts(f, l, k);
    }
    if k < f.labels[l].maxInner {
      GeneratedFields(f.p, 0, l, k);
      hide Parser.GenerateId, Pow2, Parser.GetOffset, Parser.GetLabelId;
      SmallMod(l, MAX_VLABELS);
      SmallMod(k, f.p.OffsetUnit());
    }
  }
}
