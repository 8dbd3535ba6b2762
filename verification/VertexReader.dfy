/** Enumerating the vertices of a label. */
module VertexReader {
  import opened TombstoneLog
  import opened VertexTable

  /** What a blob says about a label: no table at all, or a table of words. */
  datatype TableAddr = NoTable | TableAt(words: seq<Word>)

  /** Addresses are positions in the table; `end` is the first position not to be visited. */
  datatype Range = Range(begin: int, end: int, highToLow: bool)

  /** `cur` is a place a cursor of range `r` can be at. */
  predicate InRange(table: seq<Word>, r: Range, cur: int) {
    cur == r.end || (0 <= cur < |table| && r.end == if r.highToLow then -1 else |table|)
  }

  /** The positions still to be yielded by range `r` from `cur` on. */
  ghost function RangeRest(table: seq<Word>, r: Range, cur: int, heap: multiset<nat>): seq<nat>
    requires InRange(table, r, cur)
  {
    if cur == r.end then []
    else if r.highToLow then Walk(table, cur + 1, heap)
    else WalkUp(table, cur, heap)
  }

  /** The cursor is at the end of its range or on a vertex to be yielded. */
  ghost predicate Settled(table: seq<Word>, r: Range, cur: int, heap: multiset<nat>) {
    && InRange(table, r, cur)
    && (cur != r.end ==> !IsTomb(table[cur]) && if r.highToLow then !AtTop(heap, cur) else !AtBottom(heap, cur))
  }

  lemma BottomExists(heap: multiset<nat>)
    requires heap != multiset{}
    ensures exists b: nat :: AtBottom(heap, b)
    decreases |heap|
  {
    var a: nat :| a in heap;
    var rest := heap - multiset{a};
    assert forall x: nat :: x in heap ==> x in rest || x == a;
    if rest == multiset{} {
      assert AtBottom(heap, a);
    } else {
      BottomExists(rest);
      var b: nat :| AtBottom(rest, b);
      var m := if a <= b then a else b;
      assert AtBottom(heap, m);
    }
  }

  method BottomOf(heap: multiset<nat>) returns (b: nat)
    requires heap != multiset{}
    ensures AtBottom(heap, b)
  {
    BottomExists(heap);
    b :| b in heap && forall x :: x in heap ==> b <= x;
  }

  /** The downward loop of `find_next_valid_cursor`. */
  method FindDown(table: seq<Word>, start: int, heap: multiset<nat>) returns (cur: int, deleteOffsets: multiset<nat>)
    requires -1 <= start < |table|
    ensures Settled(table, Range(start, -1, true), cur, deleteOffsets)
    ensures RangeRest(table, Range(start, -1, true), cur, deleteOffsets) == Walk(table, start + 1, heap)
  {
    hide Walk;
    cur, deleteOffsets := start, heap;
    while cur != -1
      invariant -1 <= cur < |table|
      invariant Walk(table, cur + 1, deleteOffsets) == Walk(table, start + 1, heap)
      decreases cur
    {
      var v := table[cur];
      if IsTomb(v) {
        WalkTomb(table, cur + 1, deleteOffsets);
        deleteOffsets := deleteOffsets + multiset{Target(v)};
      } else {
        if deleteOffsets == multiset{} {
          return;
        }
        var top := TopOf(deleteOffsets);
        if cur != top {
          return;
        }
        WalkSkip(table, cur + 1, deleteOffsets);
        deleteOffsets := deleteOffsets - multiset{top};
      }
      cur := cur - 1;
    }
    WalkEnd(table, deleteOffsets);
  }

  /** The upward loop of `find_next_valid_cursor`. */
  method FindUp(table: seq<Word>, start: int, heap: multiset<nat>) returns (cur: int, deleteOffsets: multiset<nat>)
    requires 0 <= start <= |table|
    ensures Settled(table, Range(start, |table|, false), cur, deleteOffsets)
    ensures RangeRest(table, Range(start, |table|, false), cur, deleteOffsets) == WalkUp(table, start, heap)
  {
    cur, deleteOffsets := start, heap;
    while cur != |table|
      invariant 0 <= cur <= |table|
      invariant WalkUp(table, cur, deleteOffsets) == WalkUp(table, start, heap)
      decreases |table| - cur
    {
      var v := table[cur];
      if IsTomb(v) {
        deleteOffsets := deleteOffsets + multiset{Target(v)};
      } else {
        if deleteOffsets == multiset{} {
          return;
        }
        var bottom := BottomOf(deleteOffsets);
        if cur != bottom {
          return;
        }
        deleteOffsets := deleteOffsets - multiset{bottom};
      }
      cur := cur + 1;
    }
  }

  /** `find_next_valid_cursor`, from any place of the range. */
  method FindInRange(table: seq<Word>, r: Range, start: int, heap: multiset<nat>)
    returns (cur: int, deleteOffsets: multiset<nat>)
    requires InRange(table, r, start)
    ensures Settled(table, r, cur, deleteOffsets)
    ensures RangeRest(table, r, cur, deleteOffsets) == RangeRest(table, r, start, heap)
  {
    if start == r.end {
      cur, deleteOffsets := start, heap;
    } else if r.highToLow {
      cur, deleteOffsets := FindDown(table, start, heap);
    } else {
      cur, deleteOffsets := FindUp(table, start, heap);
    }
  }

  class VertexIterator {
    const table: seq<Word>
    const addrs: seq<Range>
    var cur: int
    var loc: nat
    var innerDeleteOffset: multiset<nat>
    var outerDeleteOffset: multiset<nat>

    predicate Shape() {
      && 1 <= |addrs| <= 2
      && InRange(table, addrs[0], addrs[0].begin)
      && (|addrs| == 2 ==> addrs[0].highToLow && !addrs[1].highToLow && InRange(table, addrs[1], addrs[1].begin))
    }

    ghost predicate Valid()
      reads this
      ensures Valid() ==> loc < |addrs|
    {
      && Shape() && loc < |addrs|
      && Settled(table, addrs[loc], cur, Heap(addrs[loc].highToLow))
      && (loc == 0 ==> Heap(!addrs[0].highToLow) == multiset{})
    }

    ghost function Heap(highToLow: bool): multiset<nat>
      reads this
    {
      if highToLow then innerDeleteOffset else outerDeleteOffset
    }

    /** The positions still to be yielded. */
    ghost function Remaining(): seq<nat>
      requires Valid()
      reads this
    {
      RangeRest(table, addrs[loc], cur, Heap(addrs[loc].highToLow)) +
      if loc == 0 && |addrs| == 2 then RangeRest(table, addrs[1], addrs[1].begin, multiset{}) else []
    }

    /** The cursor stands on a vertex. */
    predicate OnVertex()
      requires loc < |addrs|
      reads this
    {
      cur != addrs[loc].end
    }

    constructor (table: seq<Word>, addrs: seq<Range>)
      requires 1 <= |addrs| <= 2
      requires forall i :: 0 <= i < |addrs| ==> InRange(table, addrs[i], addrs[i].begin)
      requires |addrs| == 2 ==> addrs[0].highToLow && !addrs[1].highToLow
      ensures Valid() && this.table == table
      ensures Remaining() == RangeRest(table, addrs[0], addrs[0].begin, multiset{}) +
                             if |addrs| == 2 then RangeRest(table, addrs[1], addrs[1].begin, multiset{}) else []
    {
      this.table, this.addrs := table, addrs;
      loc, innerDeleteOffset, outerDeleteOffset := 0, multiset{}, multiset{};
      var c, d := FindInRange(table, addrs[0], addrs[0].begin, multiset{});
      cur := c;
      if addrs[0].highToLow {
        innerDeleteOffset := d;
      } else {
        outerDeleteOffset := d;
      }
    }

    /** `valid`: may move on to the next range, but never changes what is still to come; once it has
        answered, asking again changes nothing. */
    method HasNext() returns (valid: bool)
      requires Valid()
      modifies this
      ensures Valid() && Remaining() == old(Remaining())
      ensures valid <==> Remaining() != []
      ensures valid <==> OnVertex()
      ensures old(OnVertex()) || old(loc) + 1 == |addrs| ==>
                cur == old(cur) && loc == old(loc) &&
                innerDeleteOffset == old(innerDeleteOffset) && outerDeleteOffset == old(outerDeleteOffset)
      ensures OnVertex() || loc + 1 == |addrs|
    {
      RestNonempty(table, addrs[loc], cur, if addrs[loc].highToLow then innerDeleteOffset else outerDeleteOffset);
      hide RangeRest;
      if cur == addrs[loc].end {
        valid := SwitchNextRange();
      } else {
        valid := true;
      }
    }

    method SwitchNextRange() returns (valid: bool)
      requires Valid() && !OnVertex()
      modifies this
      ensures Valid() && Remaining() == old(Remaining())
      ensures valid <==> Remaining() != []
      ensures valid <==> OnVertex()
      ensures old(loc) + 1 == |addrs| ==>
                cur == old(cur) && loc == old(loc) &&
                innerDeleteOffset == old(innerDeleteOffset) && outerDeleteOffset == old(outerDeleteOffset)
      ensures loc + 1 == |addrs|
    {
      if !(loc == 0 && |addrs| == 2) {
        return false;
      }
      loc := loc + 1;
      cur, outerDeleteOffset := FindInRange(table, addrs[loc], addrs[loc].begin, outerDeleteOffset);
      RestNonempty(table, addrs[loc], cur, outerDeleteOffset);
      valid := cur != addrs[loc].end;
    }

    method Next()
      requires Valid() && OnVertex()
      modifies this
      ensures Valid() && Remaining() == old(Remaining())[1..]
    {
      var r := addrs[loc];
      RestStep(table, r, cur, if r.highToLow then innerDeleteOffset else outerDeleteOffset);
      ghost var now := RangeRest(table, r, cur, Heap(r.highToLow));
      ghost var later :=
        if loc == 0 && |addrs| == 2 then RangeRest(table, addrs[1], addrs[1].begin, multiset{}) else [];
      assert (now + later)[1..] == now[1..] + later;
      hide RangeRest, Settled;
      if r.highToLow {
        cur, innerDeleteOffset := FindInRange(table, r, cur - 1, innerDeleteOffset);
      } else {
        cur, outerDeleteOffset := FindInRange(table, r, cur + 1, outerDeleteOffset);
      }
      assert RangeRest(table, r, cur, Heap(r.highToLow)) == now[1..];
    }

    /** `vertex`. */
    method Vertex() returns (v: Word)
      requires Valid() && OnVertex()
      ensures Remaining() != [] && Remaining()[0] < |table| && v == table[Remaining()[0]]
    {
      RestStep(table, addrs[loc], cur, if addrs[loc].highToLow then innerDeleteOffset else outerDeleteOffset);
      v := table[cur];
    }
  }

  lemma RestStep(table: seq<Word>, r: Range, cur: int, heap: multiset<nat>)
    requires Settled(table, r, cur, heap) && cur != r.end
    ensures var cur' := if r.highToLow then cur - 1 else cur + 1;
            InRange(table, r, cur') &&
            RangeRest(table, r, cur, heap) == [cur] + RangeRest(table, r, cur', heap)
  {
    if r.highToLow {
      WalkYield(table, cur + 1, heap);
      WalkEnd(table, heap);
    }
  }

  lemma RestNonempty(table: seq<Word>, r: Range, cur: int, heap: multiset<nat>)
    requires Settled(table, r, cur, heap)
    ensures RangeRest(table, r, cur, heap) != [] <==> cur != r.end
  {
    if cur != r.end {
      RestStep(table, r, cur, heap);
    }
  }

  /** The range of inner vertices a label's blob describes. */
  function InnerRange(t: TableAddr, innerOffset: int): Range {
    match t
    case NoTable => Range(0, 0, true)
    case TableAt(words) => Range(innerOffset, -1, true)
  }

  function OuterRange(t: TableAddr, outerOffset: int): Range {
    match t
    case NoTable => Range(0, 0, false)
    case TableAt(words) => Range(outerOffset, |words|, false)
  }

  function WordsOf(t: TableAddr): seq<Word> {
    if t.NoTable? then [] else t.words
  }

  /** What the blob's two offsets satisfy. */
  predicate OffsetsFit(t: TableAddr, innerOffset: int, outerOffset: int) {
    t.TableAt? ==> -1 <= innerOffset < outerOffset <= |t.words|
  }

  method Vertices(t: TableAddr, innerOffset: int, outerOffset: int) returns (it: VertexIterator)
    requires OffsetsFit(t, innerOffset, outerOffset)
    ensures fresh(it) && it.Valid() && it.table == WordsOf(t)
    ensures it.Remaining() == if t.NoTable? then [] else Enumeration(t.words, innerOffset + 1, outerOffset)
  {
    if t.TableAt? {
      WalkEnd(t.words, multiset{});
    }
    it := new VertexIterator(WordsOf(t), [InnerRange(t, innerOffset), OuterRange(t, outerOffset)]);
  }

  method InnerVertices(t: TableAddr, innerOffset: int, ghost outerOffset: int) returns (it: VertexIterator)
    requires OffsetsFit(t, innerOffset, outerOffset)
    ensures fresh(it) && it.Valid() && it.table == WordsOf(t)
    ensures it.Remaining() == if t.NoTable? then [] else Walk(t.words, innerOffset + 1, multiset{})
  {
    if t.TableAt? {
      WalkEnd(t.words, multiset{});
    }
    it := new VertexIterator(WordsOf(t), [InnerRange(t, innerOffset)]);
  }

  method OuterVertices(t: TableAddr, ghost innerOffset: int, outerOffset: int) returns (it: VertexIterator)
    requires OffsetsFit(t, innerOffset, outerOffset)
    ensures fresh(it) && it.Valid() && it.table == WordsOf(t)
    ensures it.Remaining() == if t.NoTable? then [] else WalkUp(t.words, outerOffset, multiset{})
  {
    it := new VertexIterator(WordsOf(t), [OuterRange(t, outerOffset)]);
  }

  /** One of the counting loops of `computeVertexNum`. */
  method CountVertices(it: VertexIterator) returns (num: nat)
    requires it.Valid()
    modifies it
    ensures num == |old(it.Remaining())|
  {
    num := 0;
    var valid := it.HasNext();
    while valid
      invariant it.Valid() && num + |it.Remaining()| == |old(it.Remaining())|
      invariant valid <==> it.Remaining() != []
      invariant valid <==> it.OnVertex()
      decreases |it.Remaining()|
    {
      num := num + 1;
      it.Next();
      valid := it.HasNext();
    }
  }

  /** `computeVertexNum` for one label: how many live inner and outer vertices there are. */
  method ComputeVertexNum(t: TableAddr, innerOffset: int, outerOffset: int) returns (ivnum: nat, ovnum: nat)
    requires OffsetsFit(t, innerOffset, outerOffset)
    ensures t.NoTable? ==> ivnum == ovnum == 0
    ensures t.TableAt? ==> ivnum == |Walk(t.words, innerOffset + 1, multiset{})|
    ensures t.TableAt? ==> ovnum == |WalkUp(t.words, outerOffset, multiset{})|
  {
    var inner := InnerVertices(t, innerOffset, outerOffset);
    ivnum := CountVertices(inner);
    var outer := OuterVertices(t, innerOffset, outerOffset);
    ovnum := CountVertices(outer);
  }
}
