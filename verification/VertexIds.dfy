/** Assigning global ids to vertices, and finding them again by the ids of the data source. */
module VertexIds {
  import opened Decimal
  import opened LogParser
  import opened Powers
  import opened IdParser

  // ---------------------------------------------------------------- round-robin numbering

  /** How many of the first `n` vertices went to fragment `f` of `fnum`. */
  function PerFragment(n: nat, fnum: nat, f: nat): nat
    requires fnum > 0
  {
    n / fnum + if f < n % fnum then 1 else 0
  }

  /** The id of the `k`-th vertex inserted under a label. */
  function KthGid(p: Parser, fnum: nat, vlabel: nat, k: nat): (gid: nat)
    requires p.Valid() && fnum > 0
  {
    p.GenerateId(k % fnum, vlabel, k / fnum)
  }

  lemma NextQuotient(n: nat, m: nat, q: nat, r: nat)
    requires n == q * m + r && r < m
    ensures if r + 1 == m then (n + 1) / m == q + 1 && (n + 1) % m == 0
            else (n + 1) / m == q && (n + 1) % m == r + 1
  {
    if r + 1 == m {
      assert n + 1 == (q + 1) * m + 0;
      PackedLow(n + 1, q + 1, m, 0);
    } else {
      PackedLow(n + 1, q, m, r + 1);
    }
  }

  /** Inserting one more vertex bumps exactly the counter of the fragment it goes to. */
  lemma PerFragmentStep(n: nat, fnum: nat, f: nat)
    requires f < fnum
    ensures PerFragment(n + 1, fnum, f) == PerFragment(n, fnum, f) + if f == n % fnum then 1 else 0
    ensures PerFragment(n, fnum, n % fnum) == n / fnum
  {
    Divide(n, fnum);
    NextQuotient(n, fnum, n / fnum, n % fnum);
  }

  function SumBelow(counters: seq<nat>): nat {
    if counters == [] then 0 else counters[|counters| - 1] + SumBelow(counters[..|counters| - 1])
  }

  /** The counters of a label add up to the number of its vertices and differ by at most one. */
  lemma CountersBalanced(counters: seq<nat>, n: nat)
    requires |counters| > 0
    requires forall f :: 0 <= f < |counters| ==> counters[f] == PerFragment(n, |counters|, f)
    ensures SumBelow(counters) == n
    ensures forall f, g :: 0 <= f < |counters| && 0 <= g < |counters| ==> counters[f] <= counters[g] + 1
  {
    var fnum := |counters|;
    SumOfFirst(counters, n / fnum, n % fnum, fnum);
    assert counters[..fnum] == counters;
    Divide(n, fnum);
  }

  lemma {:induction false} SumOfFirst(counters: seq<nat>, q: nat, r: nat, m: nat)
    requires m <= |counters| && r <= |counters|
    requires forall f :: 0 <= f < |counters| ==> counters[f] == q + if f < r then 1 else 0
    ensures SumBelow(counters[..m]) == m * q + if m < r then m else r
  {
    if m > 0 {
      SumOfFirst(counters, q, r, m - 1);
      assert counters[..m][..m - 1] == counters[..m - 1];
      assert m * q == (m - 1) * q + q;
    }
  }

  /** Offsets inside a fragment are handed out densely: the `k`-th vertex gets the number of vertices
      its fragment already has. */
  lemma OffsetIsCount(p: Parser, fnum: nat, vlabel: nat, k: nat)
    requires p.Valid() && 0 < fnum <= p.FidUnit() && vlabel < MAX_VLABELS && k / fnum < p.OffsetUnit()
    ensures var gid := KthGid(p, fnum, vlabel, k);
            && p.GetFid(gid) == k % fnum
            && p.GetLabelId(gid) == vlabel
            && p.GetOffset(gid) == PerFragment(k, fnum, k % fnum)
  {
    hide Pow2;
    PerFragmentStep(k, fnum, k % fnum);
    var f, q := k % fnum, k / fnum;
    GeneratedFields(p, f, vlabel, q);
    hide Parser.GenerateId, Parser.GetFid, Parser.GetLabelId, Parser.GetOffset, PerFragment;
    SmallMod(f, p.FidUnit());
    SmallMod(q, p.OffsetUnit());
    SmallMod(vlabel, MAX_VLABELS);
  }

  ghost predicate GidsDistinct(p: Parser, fnum: nat, vlabel: nat, n: nat)
    requires p.Valid() && fnum > 0
  {
    forall i: nat, j: nat :: i < j < n ==> KthGid(p, fnum, vlabel, i) != KthGid(p, fnum, vlabel, j)
  }

  /** No id is issued twice if and only if the vertices of the label fit the offset width. */
  lemma GidsDistinctIff(p: Parser, fnum: nat, vlabel: nat, n: nat)
    requires p.Valid() && 0 < fnum <= p.FidUnit()
    ensures GidsDistinct(p, fnum, vlabel, n) <==> n <= fnum * p.OffsetUnit()
  {
    var room := fnum * p.OffsetUnit();
    if n <= room {
      forall i: nat, j: nat | i < j < n
        ensures KthGid(p, fnum, vlabel, i) != KthGid(p, fnum, vlabel, j)
      {
        DifferentGids(p, fnum, vlabel, i, j);
      }
    } else {
      WrappedGid(p, fnum, vlabel);
      assert KthGid(p, fnum, vlabel, 0) == KthGid(p, fnum, vlabel, room);
    }
  }

  lemma DifferentGids(p: Parser, fnum: nat, vlabel: nat, i: nat, j: nat)
    requires p.Valid() && 0 < fnum <= p.FidUnit() && i < j < fnum * p.OffsetUnit()
    ensures KthGid(p, fnum, vlabel, i) != KthGid(p, fnum, vlabel, j)
  {
    Parts(i, fnum, p.OffsetUnit(), p.FidUnit());
    Parts(j, fnum, p.OffsetUnit(), p.FidUnit());
    DifferentParts(i, j, fnum);
    var f, q, f', q' := i % fnum, i / fnum, j % fnum, j / fnum;
    assert KthGid(p, fnum, vlabel, i) == p.GenerateId(f, vlabel, q);
    assert KthGid(p, fnum, vlabel, j) == p.GenerateId(f', vlabel, q');
    hide *;
    DifferentFields(p, vlabel, f, q, f', q');
  }

  lemma Parts(i: nat, m: nat, bound: nat, unit: nat)
    requires 0 < m <= unit && i < m * bound
    ensures 0 <= i % m < unit && 0 <= i / m < bound
  {
    Divide(i, m);
  }

  lemma DifferentParts(i: nat, j: nat, m: nat)
    requires m > 0 && i != j
    ensures i % m != j % m || i / m != j / m
  {
    Divide(i, m);
    Divide(j, m);
  }

  lemma DifferentFields(p: Parser, vlabel: nat, f: nat, q: nat, f': nat, q': nat)
    requires p.Valid() && f < p.FidUnit() && f' < p.FidUnit() && q < p.OffsetUnit() && q' < p.OffsetUnit()
    requires f != f' || q != q'
    ensures p.GenerateId(f, vlabel, q) != p.GenerateId(f', vlabel, q')
  {
    GenerateIdInjective(p, f, vlabel, q, f', vlabel, q');
    hide *;
    SmallMod(f, p.FidUnit());
    SmallMod(f', p.FidUnit());
    SmallMod(q, p.OffsetUnit());
    SmallMod(q', p.OffsetUnit());
  }

  /** The first vertex past the room of a label gets the id of the very first one. */
  lemma WrappedGid(p: Parser, fnum: nat, vlabel: nat)
    requires p.Valid() && 0 < fnum <= p.FidUnit()
    ensures KthGid(p, fnum, vlabel, 0) == KthGid(p, fnum, vlabel, fnum * p.OffsetUnit())
  {
    var offsets := p.OffsetUnit();
    PackedLow(fnum * offsets, offsets, fnum, 0);
    PackedLow(0, 0, fnum, 0);
    PackedLow(offsets, 1, offsets, 0);
    PackedLow(0, 0, offsets, 0);
    GenerateIdInjective(p, 0, vlabel, 0, 0, vlabel, offsets);
  }

  // ---------------------------------------------------------------- the oid maps

  datatype Key = StringKey(s: string) | IntKey(i: int)

  /** `stoll` can read the id; otherwise the source throws. */
  predicate Readable(oid: Oid) {
    oid.isString || Stoll(oid.text).Some?
  }

  function KeyOf(oid: Oid): Key
    requires Readable(oid)
  {
    if oid.isString then StringKey(oid.text) else IntKey(Stoll(oid.text).value)
  }

  /** A 64-bit integer id of the data source is its own key, however it was printed in between. */
  lemma KeyOfInteger(i: int)
    ensures INT64_MIN <= i <= INT64_MAX <==> Readable(OidOf(VInt(i)))
    ensures Readable(OidOf(VInt(i))) ==> KeyOf(OidOf(VInt(i))) == IntKey(i)
  {
    StollPrintIff(i);
  }

  predicate EntryReadable(e: Entry, vlabels: nat) {
    match e.body
    case VertexBody(v, oid) => 0 <= v < vlabels && Readable(oid)
    case EdgeBody(_, s, d, src, dst) => 0 <= s < vlabels && 0 <= d < vlabels && Readable(src) && Readable(dst)
  }

  predicate AllReadable(entries: seq<Entry>, vlabels: nat) {
    forall e <- entries :: EntryReadable(e, vlabels)
  }

  predicate InsertsUnder(e: Entry, vlabel: int) {
    e.op.Insert? && e.body.VertexBody? && e.body.vlabel == vlabel
  }

  /** How many vertices were inserted under a label. */
  function Inserts(history: seq<Entry>, vlabel: int): nat {
    if history == [] then 0
    else Inserts(history[..|history| - 1], vlabel) + if InsertsUnder(history[|history| - 1], vlabel) then 1 else 0
  }

  /** The id given to the latest insert of this key under this label. */
  function LatestGid(p: Parser, fnum: nat, history: seq<Entry>, vlabel: nat, key: Key): (known: Option<int>)
    requires p.Valid() && fnum > 0
    ensures known.Some? ==> known.value >= 0
  {
    if history == [] then None
    else
      var e, front := history[|history| - 1], history[..|history| - 1];
      if InsertsUnder(e, vlabel) && Readable(e.body.oid) && KeyOf(e.body.oid) == key then
        Some(KthGid(p, fnum, vlabel, Inserts(front, vlabel)))
      else LatestGid(p, fnum, front, vlabel, key)
  }

  /** The ids an entry is given: its own, or those of its two ends; none when one is unknown. */
  datatype Gids = VertexGid(gid: int) | EdgeGids(src: int, dst: int) | Unresolved

  function Resolve(p: Parser, fnum: nat, history: seq<Entry>, e: Entry, vlabels: nat): Gids
    requires p.Valid() && fnum > 0 && EntryReadable(e, vlabels)
  {
    match e.body
    case VertexBody(v, oid) =>
      if e.op.Insert? then VertexGid(KthGid(p, fnum, v, Inserts(history, v)))
      else
        var known := LatestGid(p, fnum, history, v, KeyOf(oid));
        if known.Some? then VertexGid(known.value) else Unresolved
    case EdgeBody(_, s, d, src, dst) =>
      var a := LatestGid(p, fnum, history, s, KeyOf(src));
      var b := LatestGid(p, fnum, history, d, KeyOf(dst));
      if a.Some? && b.Some? then EdgeGids(a.value, b.value) else Unresolved
  }

  /** Entry `e` inserts the vertex with this source id under this label; integer ids are compared as numbers. */
  predicate InsertsOid(e: Entry, vlabel: int, oid: Oid) {
    && e.op.Insert? && e.body.VertexBody? && e.body.vlabel == vlabel && e.body.oid.isString == oid.isString
    && if oid.isString then e.body.oid.text == oid.text else Stoll(e.body.oid.text) == Stoll(oid.text)
  }

  /** Entry `i` of the history is the latest one that inserts this vertex. */
  ghost predicate LatestInsert(history: seq<Entry>, i: nat, vlabel: int, oid: Oid) {
    i < |history| && InsertsOid(history[i], vlabel, oid) &&
    forall k :: i < k < |history| ==> !InsertsOid(history[k], vlabel, oid)
  }

  /** `n` and the counters below are those of label `v`. */
  predicate CountersFit(counters: seq<nat>, n: nat, fnum: nat)
    requires fnum > 0
  {
    |counters| == fnum && forall f :: 0 <= f < fnum ==> counters[f] == PerFragment(n, fnum, f)
  }

  ghost predicate StringsFit(m: map<string, int>, p: Parser, fnum: nat, history: seq<Entry>, v: nat)
    requires p.Valid() && fnum > 0
  {
    forall s: string :: LatestGid(p, fnum, history, v, StringKey(s)) == if s in m then Some(m[s]) else None
  }

  ghost predicate IntsFit(m: map<int, int>, p: Parser, fnum: nat, history: seq<Entry>, v: nat)
    requires p.Valid() && fnum > 0
  {
    forall i: int :: LatestGid(p, fnum, history, v, IntKey(i)) == if i in m then Some(m[i]) else None
  }

  /** The counters and maps kept for label `v` are right for this history. */
  ghost predicate TablesFit(p: Parser, fnum: nat, history: seq<Entry>, v: nat,
                            n: nat, counters: seq<nat>, strings: map<string, int>, ints: map<int, int>)
    requires p.Valid() && fnum > 0
  {
    && n == Inserts(history, v)
    && CountersFit(counters, n, fnum)
    && StringsFit(strings, p, fnum, history, v)
    && IntsFit(ints, p, fnum, history, v)
  }

  class GidTable {
    const subgraphNum: nat
    const idParser: Parser
    const vlabels: nat
    var vertexNums: seq<nat>
    var vertexNumsPerFragment: seq<seq<nat>>
    var stringOid2gid: seq<map<string, int>>
    var int64Oid2gid: seq<map<int, int>>
    ghost var history: seq<Entry>       // the entries resolved so far

    ghost predicate Valid()
      reads this
    {
      && idParser.Valid() && subgraphNum > 0
      && |vertexNums| == |vertexNumsPerFragment| == |stringOid2gid| == |int64Oid2gid| == vlabels
      && (forall v :: 0 <= v < vlabels ==>
            TablesFit(idParser, subgraphNum, history, v,
                      vertexNums[v], vertexNumsPerFragment[v], stringOid2gid[v], int64Oid2gid[v]))
    }

    constructor (subgraphNum: nat, idParser: Parser, vlabels: nat)
      requires idParser.Valid() && subgraphNum > 0
      ensures Valid() && history == []
      ensures this.subgraphNum == subgraphNum && this.idParser == idParser && this.vlabels == vlabels
    {
      this.subgraphNum, this.idParser, this.vlabels := subgraphNum, idParser, vlabels;
      vertexNums := seq(vlabels, _ => 0);
      vertexNumsPerFragment := seq(vlabels, _ => seq(subgraphNum, _ => 0));
      stringOid2gid := seq(vlabels, _ => map[]);
      int64Oid2gid := seq(vlabels, _ => map[]);
      history := [];
      new;
      assert 0 / subgraphNum == 0 && 0 % subgraphNum == 0 by {
        PackedLow(0, 0, subgraphNum, 0);
      }
    }

    method GetGid(oid: Oid, vlabel: nat) returns (gid: int)
      requires Valid() && vlabel < vlabels && Readable(oid)
      ensures var known := LatestGid(idParser, subgraphNum, history, vlabel, KeyOf(oid));
              gid == if known.Some? then known.value else -1
    {
      assert TablesFit(idParser, subgraphNum, history, vlabel, vertexNums[vlabel], vertexNumsPerFragment[vlabel],
                       stringOid2gid[vlabel], int64Oid2gid[vlabel]);
      gid := -1;
      if !oid.isString {
        var key := Stoll(oid.text).value;
        if key in int64Oid2gid[vlabel] {
          gid := int64Oid2gid[vlabel][key];
        }
      } else {
        if oid.text in stringOid2gid[vlabel] {
          gid := stringOid2gid[vlabel][oid.text];
        }
      }
    }

    /** The insert branch of `parse_again`: count, number, remember. */
    method InsertVertex(e: Entry) returns (gid: nat)
      requires Valid() && EntryReadable(e, vlabels) && e.op.Insert? && e.body.VertexBody?
      modifies this
      ensures Valid() && history == old(history) + [e]
      ensures gid == KthGid(idParser, subgraphNum, e.body.vlabel, Inserts(old(history), e.body.vlabel))
    {
      hide TablesFit, CountersFit, Inserts, KthGid, PerFragment, Parser.GenerateId, Pow2, Stoll;
      var v: nat, oid := e.body.vlabel, e.body.oid;
      var n := vertexNums[v];
      ghost var p, f, was := idParser, subgraphNum, history;
      ghost var nums, counters, strings, ints := vertexNums, vertexNumsPerFragment, stringOid2gid, int64Oid2gid;
      NextIdOf(p, f, was, v, n, counters[v], strings[v], ints[v]);
      var fid := n % subgraphNum;
      var offset := vertexNumsPerFragment[v][fid];
      vertexNums := vertexNums[v := n + 1];
      vertexNumsPerFragment := vertexNumsPerFragment[v := vertexNumsPerFragment[v][fid := offset + 1]];
      gid := idParser.GenerateId(fid, v, offset);
      if !oid.isString {
        int64Oid2gid := int64Oid2gid[v := int64Oid2gid[v][Stoll(oid.text).value := gid]];
      } else {
        stringOid2gid := stringOid2gid[v := stringOid2gid[v][oid.text := gid]];
      }
      history := history + [e];
      LabelStep(p, f, was, e, v, n, counters[v], strings[v], ints[v]);
      forall u | 0 <= u < vlabels && u != v
        ensures TablesFit(p, f, history, u, nums[u], counters[u], strings[u], ints[u])
      {
        LabelStep(p, f, was, e, u, nums[u], counters[u], strings[u], ints[u]);
      }
    }

    /** The other entries leave the maps and counters alone. */
    ghost method Pass(e: Entry)
      requires Valid() && EntryReadable(e, vlabels) && !(e.op.Insert? && e.body.VertexBody?)
      modifies this`history
      ensures Valid() && history == old(history) + [e]
    {
      hide TablesFit;
      ghost var was := history;
      history := history + [e];
      forall u | 0 <= u < vlabels
        ensures TablesFit(idParser, subgraphNum, history, u, vertexNums[u], vertexNumsPerFragment[u],
                          stringOid2gid[u], int64Oid2gid[u])
      {
        LabelStep(idParser, subgraphNum, was, e, u, vertexNums[u], vertexNumsPerFragment[u],
                  stringOid2gid[u], int64Oid2gid[u]);
      }
    }

    /** `parse_again`, and the flag it leaves in `complete`. */
    method ParseAgain(e: Entry) returns (gids: Gids, complete: bool)
      requires Valid() && EntryReadable(e, vlabels)
      modifies this
      ensures Valid() && history == old(history) + [e]
      ensures gids == Resolve(idParser, subgraphNum, old(history), e, vlabels)
      ensures complete <==> !gids.Unresolved?
      ensures e.body.VertexBody? && e.op.Insert? ==>
                gids == VertexGid(KthGid(idParser, subgraphNum, e.body.vlabel, Inserts(old(history), e.body.vlabel)))
      ensures forall i: nat ::
                e.body.VertexBody? && !e.op.Insert? && LatestInsert(old(history), i, e.body.vlabel, e.body.oid) ==>
                gids == VertexGid(KthGid(idParser, subgraphNum, e.body.vlabel,
                                         Inserts(old(history)[..i], e.body.vlabel)))
      ensures forall i: nat, j: nat ::
                e.body.EdgeBody? && LatestInsert(old(history), i, e.body.srcLabel, e.body.src) &&
                LatestInsert(old(history), j, e.body.dstLabel, e.body.dst) ==>
                gids == EdgeGids(
                          KthGid(idParser, subgraphNum, e.body.srcLabel, Inserts(old(history)[..i], e.body.srcLabel)),
                          KthGid(idParser, subgraphNum, e.body.dstLabel, Inserts(old(history)[..j], e.body.dstLabel)))
    {
      ResolvedIds(idParser, subgraphNum, history, e, vlabels);
      complete, gids := true, Unresolved;
      match e.body {
        case VertexBody(v, oid) =>
          if e.op.Insert? {
            var gid := InsertVertex(e);
            gids := VertexGid(gid);
            return;
          }
          var gid := GetGid(oid, v);
          if gid == -1 {
            complete := false;
          } else {
            gids := VertexGid(gid);
          }
        case EdgeBody(_, s, d, src, dst) =>
          var srcGid := GetGid(src, s);
          var dstGid := GetGid(dst, d);
          if srcGid == -1 || dstGid == -1 {
            complete := false;
          } else {
            gids := EdgeGids(srcGid, dstGid);
          }
      }
      Pass(e);
    }
  }

  lemma CountersStep(counters: seq<nat>, n: nat, fnum: nat)
    requires fnum > 0 && CountersFit(counters, n, fnum)
    ensures n % fnum < |counters| == fnum && counters[n % fnum] == n / fnum
    ensures CountersFit(counters[n % fnum := counters[n % fnum] + 1], n + 1, fnum)
  {
    forall f | 0 <= f < fnum
      ensures PerFragment(n + 1, fnum, f) == PerFragment(n, fnum, f) + if f == n % fnum then 1 else 0
    {
      PerFragmentStep(n, fnum, f);
    }
    PerFragmentStep(n, fnum, n % fnum);
  }

  lemma NextIdOf(p: Parser, fnum: nat, history: seq<Entry>, v: nat,
                 n: nat, counters: seq<nat>, strings: map<string, int>, ints: map<int, int>)
    requires p.Valid() && fnum > 0 && TablesFit(p, fnum, history, v, n, counters, strings, ints)
    ensures n == Inserts(history, v) && n % fnum < |counters| && counters[n % fnum] == n / fnum
    ensures KthGid(p, fnum, v, n) == p.GenerateId(n % fnum, v, n / fnum)
  {
    CountersStep(counters, n, fnum);
  }

  /** What one more entry does to the counters and maps of label `u`. */
  lemma LabelStep(p: Parser, fnum: nat, history: seq<Entry>, e: Entry, u: nat,
                  n: nat, counters: seq<nat>, strings: map<string, int>, ints: map<int, int>)
    requires p.Valid() && fnum > 0 && (e.body.VertexBody? ==> Readable(e.body.oid))
    requires TablesFit(p, fnum, history, u, n, counters, strings, ints)
    ensures !InsertsUnder(e, u) ==> TablesFit(p, fnum, history + [e], u, n, counters, strings, ints)
    ensures n % fnum < |counters| && counters[n % fnum] == n / fnum
    ensures
      var gid := KthGid(p, fnum, u, n);
      InsertsUnder(e, u) ==>
        TablesFit(p, fnum, history + [e], u, n + 1, counters[n % fnum := n / fnum + 1],
                  if e.body.oid.isString then strings[e.body.oid.text := gid] else strings,
                  if e.body.oid.isString then ints else ints[Stoll(e.body.oid.text).value := gid])
  {
    CountersStep(counters, n, fnum);
    hide CountersFit, StringsFit, IntsFit, Inserts, KthGid;
  }

  /** After any run a lookup finds the id of the latest insert of that label and source id: the ids of
      later inserts of other keys, deletes, updates and edges do not disturb it. */
  lemma {:induction false} LookupIsLatest(p: Parser, fnum: nat, before: seq<Entry>, e: Entry, after: seq<Entry>)
    requires p.Valid() && fnum > 0
    requires e.op.Insert? && e.body.VertexBody? && e.body.vlabel >= 0 && Readable(e.body.oid)
    requires forall x <- after :: InsertsUnder(x, e.body.vlabel) && Readable(x.body.oid) ==>
             KeyOf(x.body.oid) != KeyOf(e.body.oid)
    ensures LatestGid(p, fnum, before + [e] + after, e.body.vlabel, KeyOf(e.body.oid)) ==
            Some(KthGid(p, fnum, e.body.vlabel, Inserts(before, e.body.vlabel)))
    decreases |after|
  {
    var all := before + [e] + after;
    if after == [] {
      assert all == before + [e];
      assert all[..|all| - 1] == before;
    } else {
      var rest := after[..|after| - 1];
      assert all[..|all| - 1] == before + [e] + rest;
      assert all[|all| - 1] == after[|after| - 1];
      LookupIsLatest(p, fnum, before, e, rest);
    }
  }

  /** The id of the latest insert, by its rank among the inserts of its label. */
  lemma LatestInsertGid(p: Parser, fnum: nat, history: seq<Entry>, i: nat, vlabel: nat, oid: Oid)
    requires p.Valid() && fnum > 0 && Readable(oid) && LatestInsert(history, i, vlabel, oid)
    ensures LatestGid(p, fnum, history, vlabel, KeyOf(oid)) ==
            Some(KthGid(p, fnum, vlabel, Inserts(history[..i], vlabel)))
  {
    var e, after := history[i], history[i + 1..];
    assert history == history[..i] + [e] + after;
    assert Readable(e.body.oid) && KeyOf(e.body.oid) == KeyOf(oid);
    forall x | x in after && InsertsUnder(x, vlabel) && Readable(x.body.oid)
      ensures KeyOf(x.body.oid) != KeyOf(oid)
    {
      var k :| 0 <= k < |after| && after[k] == x;
      assert history[i + 1 + k] == x;
    }
    hide LatestGid, KthGid, Inserts, Stoll;
    LookupIsLatest(p, fnum, history[..i], e, after);
  }

  /** The ids an entry is given: an inserted vertex the one of its own rank, a deleted or updated vertex the
      one of its latest insert, an edge first the one of its source and then the one of its destination. */
  lemma ResolvedIds(p: Parser, fnum: nat, history: seq<Entry>, e: Entry, vlabels: nat)
    requires p.Valid() && fnum > 0 && EntryReadable(e, vlabels)
    ensures e.body.VertexBody? && e.op.Insert? ==>
              Resolve(p, fnum, history, e, vlabels) ==
              VertexGid(KthGid(p, fnum, e.body.vlabel, Inserts(history, e.body.vlabel)))
    ensures forall i: nat ::
              e.body.VertexBody? && !e.op.Insert? && LatestInsert(history, i, e.body.vlabel, e.body.oid) ==>
              Resolve(p, fnum, history, e, vlabels) ==
              VertexGid(KthGid(p, fnum, e.body.vlabel, Inserts(history[..i], e.body.vlabel)))
    ensures forall i: nat, j: nat ::
              e.body.EdgeBody? && LatestInsert(history, i, e.body.srcLabel, e.body.src) &&
              LatestInsert(history, j, e.body.dstLabel, e.body.dst) ==>
              Resolve(p, fnum, history, e, vlabels) ==
              EdgeGids(KthGid(p, fnum, e.body.srcLabel, Inserts(history[..i], e.body.srcLabel)),
                       KthGid(p, fnum, e.body.dstLabel, Inserts(history[..j], e.body.dstLabel)))
  {
    hide InsertsOid, LatestGid, KthGid, Inserts;
    if e.body.VertexBody? {
      forall i: nat | !e.op.Insert? && LatestInsert(history, i, e.body.vlabel, e.body.oid)
        ensures Resolve(p, fnum, history, e, vlabels) ==
                VertexGid(KthGid(p, fnum, e.body.vlabel, Inserts(history[..i], e.body.vlabel)))
      {
        LatestInsertGid(p, fnum, history, i, e.body.vlabel, e.body.oid);
      }
    } else {
      forall i: nat, j: nat | LatestInsert(history, i, e.body.srcLabel, e.body.src) &&
                    LatestInsert(history, j, e.body.dstLabel, e.body.dst)
        ensures Resolve(p, fnum, history, e, vlabels) ==
                EdgeGids(KthGid(p, fnum, e.body.srcLabel, Inserts(history[..i], e.body.srcLabel)),
                         KthGid(p, fnum, e.body.dstLabel, Inserts(history[..j], e.body.dstLabel)))
      {
        LatestInsertGid(p, fnum, history, i, e.body.srcLabel, e.body.src);
        LatestInsertGid(p, fnum, history, j, e.body.dstLabel, e.body.dst);
      }
    }
  }

  // ---------------------------------------------------------------- entries that cannot be resolved

  /** Some vertex with this key was inserted under this label; later deletes do not matter. */
  predicate EverInserted(history: seq<Entry>, vlabel: nat, key: Key) {
    exists e <- history :: InsertsUnder(e, vlabel) && Readable(e.body.oid) && KeyOf(e.body.oid) == key
  }

  /** A key is unknown if and only if it was never inserted. */
  lemma {:induction false} KnownIffInserted(p: Parser, fnum: nat, history: seq<Entry>, vlabel: nat, key: Key)
    requires p.Valid() && fnum > 0
    ensures LatestGid(p, fnum, history, vlabel, key).Some? <==> EverInserted(history, vlabel, key)
  {
    if history != [] {
      var front, last := history[..|history| - 1], history[|history| - 1];
      KnownIffInserted(p, fnum, front, vlabel, key);
      assert history == front + [last];
      assert forall e :: e in history <==> e in front || e == last;
    }
  }

  /** An entry is left without ids if and only if it is an edge one of whose ends was never inserted under
      that end's label, or a delete or update of a vertex that never was. */
  lemma UnresolvedIff(p: Parser, fnum: nat, history: seq<Entry>, e: Entry, vlabels: nat)
    requires p.Valid() && fnum > 0 && EntryReadable(e, vlabels)
    ensures Resolve(p, fnum, history, e, vlabels).Unresolved? <==>
              match e.body
              case VertexBody(v, oid) => !e.op.Insert? && !EverInserted(history, v, KeyOf(oid))
              case EdgeBody(_, s, d, src, dst) =>
                !EverInserted(history, s, KeyOf(src)) || !EverInserted(history, d, KeyOf(dst))
  {
    hide EverInserted, LatestGid;
    match e.body
    case VertexBody(v, oid) =>
      KnownIffInserted(p, fnum, history, v, KeyOf(oid));
    case EdgeBody(_, s, d, src, dst) =>
      KnownIffInserted(p, fnum, history, s, KeyOf(src));
      KnownIffInserted(p, fnum, history, d, KeyOf(dst));
  }

  // ---------------------------------------------------------------- all labels together

  /** The id given to the insert at position `i` of the history. */
  function IssuedGid(p: Parser, fnum: nat, history: seq<Entry>, i: nat): int
    requires p.Valid() && fnum > 0 && i < |history| && IsInsert(history[i])
  {
    KthGid(p, fnum, history[i].body.vlabel, Inserts(history[..i], history[i].body.vlabel))
  }

  /** An insert of a vertex under one of the labels ids have room for. */
  predicate IsInsert(e: Entry) {
    e.op.Insert? && e.body.VertexBody? && 0 <= e.body.vlabel < MAX_VLABELS
  }

  predicate SameGid(p: Parser, fnum: nat, history: seq<Entry>, i: nat, j: nat)
    requires p.Valid() && fnum > 0 && i < |history| && IsInsert(history[i]) && j < |history| && IsInsert(history[j])
  {
    IssuedGid(p, fnum, history, i) == IssuedGid(p, fnum, history, j)
  }

  /** Over a whole history, whatever its labels, no id is issued twice if and only if the vertices of each
      label fit the offset width. */
  lemma AllGidsDistinctIff(p: Parser, fnum: nat, history: seq<Entry>)
    requires p.Valid() && 0 < fnum <= p.FidUnit()
    ensures (forall i, j :: 0 <= i < j < |history| && IsInsert(history[i]) && IsInsert(history[j]) ==>
               !SameGid(p, fnum, history, i, j)) <==>
            (forall v :: 0 <= v < MAX_VLABELS ==> Inserts(history, v) <= fnum * p.OffsetUnit())
  {
    hide KthGid, Inserts;
    if forall v :: 0 <= v < MAX_VLABELS ==> Inserts(history, v) <= fnum * p.OffsetUnit() {
      forall i, j | 0 <= i < j < |history| && IsInsert(history[i]) && IsInsert(history[j])
        ensures !SameGid(p, fnum, history, i, j)
      {
        FittingGidsDiffer(p, fnum, history, i, j);
      }
    } else {
      var v: nat :| v < MAX_VLABELS && Inserts(history, v) > fnum * p.OffsetUnit();
      var i := KthInsert(history, v, 0);
      var j := KthInsert(history, v, fnum * p.OffsetUnit());
      WrappedGid(p, fnum, v);
      MulMonotone(1, fnum, p.OffsetUnit());
      if j < i {
        InsertsGrow(history, v, j, i);
      }
      assert SameGid(p, fnum, history, i, j);
    }
  }

  lemma FittingGidsDiffer(p: Parser, fnum: nat, history: seq<Entry>, i: nat, j: nat)
    requires p.Valid() && 0 < fnum <= p.FidUnit()
    requires i < j < |history| && IsInsert(history[i]) && IsInsert(history[j])
    requires Inserts(history, history[j].body.vlabel) <= fnum * p.OffsetUnit()
    ensures !SameGid(p, fnum, history, i, j)
  {
    var v, u := history[i].body.vlabel, history[j].body.vlabel;
    hide KthGid;
    if v == u {
      assert history[..|history|] == history;
      InsertsGrow(history, v, i, j);
      InsertsGrow(history, v, j, |history|);
      hide Inserts;
      GidsDistinctIff(p, fnum, v, Inserts(history, v));
      assert GidsDistinct(p, fnum, v, Inserts(history, v));
    } else {
      hide Inserts;
      LabelOfGid(p, fnum, v, Inserts(history[..i], v));
      LabelOfGid(p, fnum, u, Inserts(history[..j], u));
    }
  }

  /** An id shows its label, even past the room of the offset field. */
  lemma LabelOfGid(p: Parser, fnum: nat, vlabel: nat, k: nat)
    requires p.Valid() && fnum > 0 && vlabel < MAX_VLABELS
    ensures p.GetLabelId(KthGid(p, fnum, vlabel, k)) == vlabel
  {
    GeneratedFields(p, k % fnum, vlabel, k / fnum);
    SmallMod(vlabel, MAX_VLABELS);
    hide Parser.GenerateId, Parser.GetLabelId, Pow2;
  }

  /** The count of inserts under a label never falls, and an insert raises it. */
  lemma {:induction false} InsertsGrow(history: seq<Entry>, vlabel: nat, i: nat, j: nat)
    requires i <= j <= |history|
    ensures Inserts(history[..i], vlabel) <= Inserts(history[..j], vlabel)
    ensures i < j && InsertsUnder(history[i], vlabel) ==> Inserts(history[..i], vlabel) < Inserts(history[..j], vlabel)
    decreases j - i
  {
    if i < j {
      InsertsGrow(history, vlabel, i, j - 1);
      assert history[..j][..j - 1] == history[..j - 1];
    }
  }

  /** The position of the `k`-th insert under a label. */
  lemma {:induction false} KthInsert(history: seq<Entry>, vlabel: nat, k: nat) returns (i: nat)
    requires k < Inserts(history, vlabel)
    ensures i < |history| && InsertsUnder(history[i], vlabel) && Inserts(history[..i], vlabel) == k
  {
    var front := history[..|history| - 1];
    if k < Inserts(front, vlabel) {
      i := KthInsert(front, vlabel, k);
      assert front[..i] == history[..i];
    } else {
      i := |history| - 1;
    }
  }
}
