/** The destination lists: for every vertex of a fragment, the other fragments that hold neighbours of it,
    all lists in one array with an array of starts beside it. */
module DestLists {
  import opened TombstoneLog
  import opened VertexReader
  import opened Sequences
  import opened IdParser
  import opened Powers

  /** The fragments of a vertex's neighbours, one per edge, as the two edge iterators yield them. */
  datatype Neighbors = Neighbors(inFids: seq<nat>, outFids: seq<nat>)

  function Elements(s: seq<nat>): set<nat> {
    set x | x in s
  }

  /** The other fragments adjacent to a vertex. */
  function Remote(fid: nat, inEdge: bool, outEdge: bool, n: Neighbors): set<nat> {
    (if inEdge then Elements(n.inFids) - {fid} else {}) + (if outEdge then Elements(n.outFids) - {fid} else {})
  }

  // ---------------------------------------------------------------- ordered sets

  predicate IsMin(s: set<nat>, m: nat) {
    m in s && forall x :: x in s ==> m <= x
  }

  lemma MinExists(s: set<nat>)
    requires s != {}
    ensures exists m: nat :: IsMin(s, m)
  {
    var a: nat :| a in s;
    var rest := s - {a};
    if rest == {} {
      assert s == {a};
      assert IsMin(s, a);
    } else {
      MinExists(rest);
      var b: nat :| IsMin(rest, b);
      var m := if a <= b then a else b;
      assert forall x :: x in s ==> x == a || x in rest;
      assert IsMin(s, m);
    }
  }

  predicate StrictlyAscending(s: seq<nat>) {
    forall i, j :: 0 <= i < j < |s| ==> s[i] < s[j]
  }

  /** `s` lists the set in ascending order, each element once; this is how a `std::set` is traversed. */
  predicate Lists(s: seq<nat>, elements: set<nat>) {
    StrictlyAscending(s) && Elements(s) == elements
  }

  /** A set has only one such list. */
  lemma {:induction false} ListsUnique(a: seq<nat>, b: seq<nat>, elements: set<nat>)
    requires Lists(a, elements) && Lists(b, elements)
    ensures a == b
  {
    ListsEmpty(a, elements);
    ListsEmpty(b, elements);
    if a != [] {
      assert a[0] in Elements(a);
      var i :| 0 <= i < |b| && b[i] == a[0];
      assert b[0] in Elements(b);
      var j :| 0 <= j < |a| && a[j] == b[0];
      assert a[0] == b[0];
      ListsTail(a, elements);
      ListsTail(b, elements);
      ListsUnique(a[1..], b[1..], elements - {a[0]});
    }
  }

  lemma ListsEmpty(a: seq<nat>, elements: set<nat>)
    requires Lists(a, elements)
    ensures a == [] <==> elements == {}
  {
    if a != [] {
      assert a[0] in Elements(a);
    }
  }

  lemma ListsTail(a: seq<nat>, elements: set<nat>)
    requires Lists(a, elements) && a != []
    ensures Lists(a[1..], elements - {a[0]})
  {
    forall x
      ensures x in Elements(a[1..]) <==> x in elements - {a[0]}
    {
      if x in elements && x != a[0] {
        assert x in Elements(a);
        var i :| 0 <= i < |a| && a[i] == x;
        assert a[1..][i - 1] == x;
      }
      if x in Elements(a[1..]) {
        var i :| 0 <= i < |a[1..]| && a[1..][i] == x;
        assert a[i + 1] == x && a[i + 1] in Elements(a);
      }
    }
  }

  /** Appends the elements of a set, smallest first. */
  method AppendAscending(before: seq<nat>, elements: set<nat>) returns (after: seq<nat>, ghost listed: seq<nat>)
    ensures after == before + listed && Lists(listed, elements) && |listed| == |elements|
  {
    after, listed := before, [];
    var rest := elements;
    while rest != {}
      invariant after == before + listed
      invariant PartlyListed(elements, listed, rest)
      decreases |rest|
    {
      MinExists(rest);
      var m: nat :| m in rest && forall x :: x in rest ==> m <= x;
      ListOneMore(elements, listed, rest, m);
      hide PartlyListed;
      after, listed, rest := after + [m], listed + [m], rest - {m};
    }
  }

  /** `listed` holds the elements below those that are left. */
  ghost predicate PartlyListed(elements: set<nat>, listed: seq<nat>, rest: set<nat>) {
    && StrictlyAscending(listed) && rest <= elements
    && Elements(listed) == elements - rest && |listed| + |rest| == |elements|
    && forall x, y :: x in listed && y in rest ==> x < y
  }

  lemma ListOneMore(elements: set<nat>, listed: seq<nat>, rest: set<nat>, m: nat)
    requires PartlyListed(elements, listed, rest) && IsMin(rest, m)
    ensures PartlyListed(elements, listed + [m], rest - {m})
  {
    var listed' := listed + [m];
    assert Elements(listed') == Elements(listed) + {m} by {
      assert forall x :: x in listed' <==> x in listed || x == m;
    }
    assert StrictlyAscending(listed') by {
      forall i | 0 <= i < |listed|
        ensures listed[i] < m
      {
        assert listed[i] in listed;
      }
    }
  }

  // ---------------------------------------------------------------- building the lists

  /** The vertices in the order the iterator visits them. */
  ghost function Visited(t: TableAddr, innerOffset: int): (positions: seq<nat>)
    requires t.TableAt? ==> -1 <= innerOffset < |t.words|
    ensures forall k :: 0 <= k < |positions| ==> t.TableAt? && positions[k] < |t.words|
  {
    if t.NoTable? then []
    else
      WalkInRange(t.words, innerOffset + 1, multiset{});
      Walk(t.words, innerOffset + 1, multiset{})
  }

  /** Slice `k` of the list. */
  function Slice(fidList: seq<nat>, offsets: seq<nat>, k: nat): seq<nat>
    requires k + 1 < |offsets| && offsets[k] <= offsets[k + 1] <= |fidList|
  {
    fidList[offsets[k]..offsets[k + 1]]
  }

  /** The starts cut the list into consecutive slices. */
  predicate Tiles(fidList: seq<nat>, offsets: seq<nat>) {
    && offsets != [] && offsets[0] == 0 && offsets[|offsets| - 1] == |fidList|
    && forall j, k :: 0 <= j <= k < |offsets| ==> offsets[j] <= offsets[k] <= |fidList|
  }

  function SumTo(nums: seq<nat>, n: nat): nat
    requires n <= |nums|
  {
    if n == 0 then 0 else SumTo(nums, n - 1) + nums[n - 1]
  }

  /** The filling pass put the lists of the first `n` vertices one after the other. */
  ghost predicate Filled(fidList: seq<nat>, nums: seq<nat>, remotes: seq<set<nat>>, n: nat)
    requires n <= |nums| && n <= |remotes|
  {
    && |fidList| == SumTo(nums, n)
    && forall k :: 0 <= k < n ==>
         SumTo(nums, k) + nums[k] <= |fidList| &&
         Lists(fidList[SumTo(nums, k)..SumTo(nums, k) + nums[k]], remotes[k])
  }

  lemma {:induction false} SumToGrows(nums: seq<nat>, k: nat, n: nat)
    requires k < n <= |nums|
    ensures SumTo(nums, k) + nums[k] <= SumTo(nums, n)
    decreases n
  {
    if k + 1 < n {
      SumToGrows(nums, k, n - 1);
    }
  }

  lemma {:induction false} SumToSame(nums: seq<nat>, nums': seq<nat>, n: nat)
    requires n <= |nums| && n <= |nums'| && forall k :: 0 <= k < n ==> nums[k] == nums'[k]
    ensures SumTo(nums, n) == SumTo(nums', n)
  {
    if n > 0 {
      SumToSame(nums, nums', n - 1);
    }
  }

  lemma FilledStep(fidList: seq<nat>, nums: seq<nat>, remotes: seq<set<nat>>, n: nat, listed: seq<nat>)
    requires n < |nums| && n < |remotes| && Filled(fidList, nums, remotes, n)
    requires Lists(listed, remotes[n])
    ensures Filled(fidList + listed, nums[n := |listed|], remotes, n + 1)
  {
    hide Lists;
    SumToSame(nums, nums[n := |listed|], n);
    forall k | 0 <= k < n + 1
      ensures SumTo(nums[n := |listed|], k) + nums[n := |listed|][k] <= |fidList + listed|
      ensures Lists((fidList + listed)[SumTo(nums[n := |listed|], k)..
                                       SumTo(nums[n := |listed|], k) +
                                       nums[n := |listed|][k]],
                    remotes[k])
    {
      FilledSlice(fidList, nums, remotes, n, listed, k);
    }
  }

  lemma FilledSlice(fidList: seq<nat>, nums: seq<nat>, remotes: seq<set<nat>>, n: nat, listed: seq<nat>, k: nat)
    requires k <= n < |nums| && n < |remotes| && Filled(fidList, nums, remotes, n)
    requires Lists(listed, remotes[n])
    ensures var nums', list' := nums[n := |listed|], fidList + listed;
            SumTo(nums', k) + nums'[k] <= |list'| &&
            Lists(list'[SumTo(nums', k)..SumTo(nums', k) + nums'[k]], remotes[k])
  {
    hide Lists;
    SumToSame(nums, nums[n := |listed|], k);
    var start := SumTo(nums, k);
    if k < n {
      SumToGrows(nums, k, n);
      SliceOfConcat(fidList, listed, start, start + nums[k]);
    } else {
      SliceOfRest(fidList, listed, start);
    }
  }

  /** The remote fragments of the visited vertices, in the order of the visit. */
  ghost function Remotes(fid: nat, inEdge: bool, outEdge: bool, words: seq<Word>, adjacency: Word -> Neighbors,
                         positions: seq<nat>): (remotes: seq<set<nat>>)
    requires forall k :: 0 <= k < |positions| ==> positions[k] < |words|
    ensures |remotes| == |positions|
  {
    seq(|positions|, k requires 0 <= k < |positions| => Remote(fid, inEdge, outEdge, adjacency(words[positions[k]])))
  }

  /** The fragments adjacent to one vertex, gathered edge by edge. */
  method Gather(fid: nat, inEdge: bool, outEdge: bool, n: Neighbors) returns (dstset: set<nat>)
    ensures dstset == Remote(fid, inEdge, outEdge, n)
    ensures forall f: nat :: f in dstset <==>
              f != fid && ((inEdge && f in n.inFids) || (outEdge && f in n.outFids))
  {
    dstset := {};
    if inEdge {
      dstset := Insert(fid, dstset, n.inFids);
    }
    if outEdge {
      dstset := Insert(fid, dstset, n.outFids);
    }
  }

  method Insert(fid: nat, before: set<nat>, fids: seq<nat>) returns (after: set<nat>)
    ensures after == before + (Elements(fids) - {fid})
  {
    after := before;
    for i := 0 to |fids|
      invariant after == before + (Elements(fids[..i]) - {fid})
    {
      assert fids[..i + 1] == fids[..i] + [fids[i]];
      assert Elements(fids[..i + 1]) == Elements(fids[..i]) + {fids[i]};
      if fids[i] != fid {
        after := after + {fids[i]};
      }
    }
    assert fids[..|fids|] == fids;
  }

  /** `initDestFidList` for one vertex label and one edge label: a counting pass over the vertices, a
      filling pass, and the starts.  With out-edges, slice `k` holds exactly the other fragments of the
      neighbours of the `k`-th vertex visited, in ascending order. */
  method InitDestFidList(fid: nat, inEdge: bool, outEdge: bool, t: TableAddr, innerOffset: int, ghost outerOffset: int,
                         adjacency: Word -> Neighbors)
    returns (fidList: seq<nat>, offsets: seq<nat>)
    requires OffsetsFit(t, innerOffset, outerOffset)
    ensures |offsets| == |Visited(t, innerOffset)| + 1 && Tiles(fidList, offsets)
    ensures outEdge ==>
              forall k, i :: 0 <= k < |Visited(t, innerOffset)| && offsets[k] <= i < offsets[k + 1] ==>
                var n := adjacency(WordsOf(t)[Visited(t, innerOffset)[k]]);
                fidList[i] != fid && (fidList[i] in n.outFids || (inEdge && fidList[i] in n.inFids))
    ensures outEdge ==>
              forall k, f: nat :: 0 <= k < |Visited(t, innerOffset)| && f != fid ==>
                f in adjacency(WordsOf(t)[Visited(t, innerOffset)[k]]).outFids ==>
                f in fidList[offsets[k]..offsets[k + 1]]
    ensures outEdge && inEdge ==>
              forall k, f: nat :: 0 <= k < |Visited(t, innerOffset)| && f != fid ==>
                f in adjacency(WordsOf(t)[Visited(t, innerOffset)[k]]).inFids ==>
                f in fidList[offsets[k]..offsets[k + 1]]
    ensures outEdge ==>
              forall k, i, j :: 0 <= k < |Visited(t, innerOffset)| && offsets[k] <= i < j < offsets[k + 1] ==>
                fidList[i] < fidList[j]
    ensures !outEdge ==> fidList == []
  {
    fidList, offsets := BuildLists(fid, inEdge, outEdge, t, innerOffset, outerOffset, adjacency);
    ghost var visited := Visited(t, innerOffset);
    assert forall k :: 0 <= k < |visited| ==> visited[k] < |WordsOf(t)|;
    hide *;
    if outEdge {
      SlicesMean(fid, inEdge, WordsOf(t), adjacency, visited, fidList, offsets);
    }
  }

  /** The passes themselves: the slices list the remote fragments of the vertices visited. */
  method BuildLists(fid: nat, inEdge: bool, outEdge: bool, t: TableAddr, innerOffset: int, ghost outerOffset: int,
                    adjacency: Word -> Neighbors)
    returns (fidList: seq<nat>, offsets: seq<nat>)
    requires OffsetsFit(t, innerOffset, outerOffset)
    ensures |offsets| == |Visited(t, innerOffset)| + 1 && Tiles(fidList, offsets)
    ensures outEdge ==>
              var remotes := Remotes(fid, inEdge, true, WordsOf(t), adjacency, Visited(t, innerOffset));
              forall k :: 0 <= k < |remotes| ==> Lists(Slice(fidList, offsets, k), remotes[k])
    ensures !outEdge ==> fidList == []
  {
    ghost var visited := Visited(t, innerOffset);
    ghost var remotes := Remotes(fid, inEdge, outEdge, WordsOf(t), adjacency, visited);
    var counting := InnerVertices(t, innerOffset, outerOffset);
    var ivnum := CountVertices(counting);
    assert ivnum == |visited|;
    var it := InnerVertices(t, innerOffset, outerOffset);
    assert it.Remaining() == visited;
    hide *;
    var idNum;
    fidList, idNum := Fill(fid, inEdge, outEdge, it, ivnum, adjacency, visited, remotes);
    offsets := Starts(idNum);
    StartsTile(fidList, idNum, offsets);
    if outEdge {
      SlicesFilled(fidList, idNum, offsets, remotes);
    }
  }

  /** The slices as the source describes them. */
  lemma SlicesMean(fid: nat, inEdge: bool, words: seq<Word>, adjacency: Word -> Neighbors, positions: seq<nat>,
                   fidList: seq<nat>, offsets: seq<nat>)
    requires forall k :: 0 <= k < |positions| ==> positions[k] < |words|
    requires |offsets| == |positions| + 1 && Tiles(fidList, offsets)
    requires forall k :: 0 <= k < |positions| ==>
               Lists(Slice(fidList, offsets, k), Remotes(fid, inEdge, true, words, adjacency, positions)[k])
    ensures forall k, i :: 0 <= k < |positions| && offsets[k] <= i < offsets[k + 1] ==>
              var n := adjacency(words[positions[k]]);
              fidList[i] != fid && (fidList[i] in n.outFids || (inEdge && fidList[i] in n.inFids))
    ensures forall k, f: nat :: 0 <= k < |positions| && f != fid ==>
              f in adjacency(words[positions[k]]).outFids ==> f in fidList[offsets[k]..offsets[k + 1]]
    ensures inEdge ==>
              forall k, f: nat :: 0 <= k < |positions| && f != fid ==>
                f in adjacency(words[positions[k]]).inFids ==> f in fidList[offsets[k]..offsets[k + 1]]
    ensures forall k, i, j :: 0 <= k < |positions| && offsets[k] <= i < j < offsets[k + 1] ==> fidList[i] < fidList[j]
  {
    hide Lists, Remote;
    forall k | 0 <= k < |positions|
      ensures Lists(Slice(fidList, offsets, k), Remote(fid, inEdge, true, adjacency(words[positions[k]])))
    {
    }
    hide Remotes;
    forall k, i | 0 <= k < |positions| && offsets[k] <= i < offsets[k + 1]
      ensures var n := adjacency(words[positions[k]]);
              fidList[i] != fid && (fidList[i] in n.outFids || (inEdge && fidList[i] in n.inFids))
    {
      SliceHas(fid, inEdge, adjacency(words[positions[k]]), fidList, offsets, k, fidList[i]);
      assert fidList[i] == Slice(fidList, offsets, k)[i - offsets[k]];
    }
    forall k, f: nat | 0 <= k < |positions| && f != fid
      ensures f in adjacency(words[positions[k]]).outFids ==> f in fidList[offsets[k]..offsets[k + 1]]
      ensures inEdge && f in adjacency(words[positions[k]]).inFids ==> f in fidList[offsets[k]..offsets[k + 1]]
    {
      SliceHas(fid, inEdge, adjacency(words[positions[k]]), fidList, offsets, k, f);
    }
    forall k, i, j | 0 <= k < |positions| && offsets[k] <= i < j < offsets[k + 1]
      ensures fidList[i] < fidList[j]
    {
      SliceAscends(fidList, offsets, k, Remote(fid, inEdge, true, adjacency(words[positions[k]])), i, j);
    }
  }

  lemma SliceHas(fid: nat, inEdge: bool, n: Neighbors, fidList: seq<nat>, offsets: seq<nat>, k: nat, f: nat)
    requires k + 1 < |offsets| && offsets[k] <= offsets[k + 1] <= |fidList|
    requires Lists(Slice(fidList, offsets, k), Remote(fid, inEdge, true, n))
    ensures f in Slice(fidList, offsets, k) <==> f != fid && (f in n.outFids || (inEdge && f in n.inFids))
  {
    assert f in Slice(fidList, offsets, k) <==> f in Elements(Slice(fidList, offsets, k));
  }

  lemma SliceAscends(fidList: seq<nat>, offsets: seq<nat>, k: nat, remote: set<nat>, i: int, j: int)
    requires k + 1 < |offsets| && offsets[k] <= i < j < offsets[k + 1] <= |fidList|
    requires Lists(Slice(fidList, offsets, k), remote)
    ensures fidList[i] < fidList[j]
  {
    var slice := Slice(fidList, offsets, k);
    assert fidList[i] == slice[i - offsets[k]] && fidList[j] == slice[j - offsets[k]];
  }

  /** The filling pass: the numbers per vertex and the lists one after the other. */
  method Fill(fid: nat, inEdge: bool, outEdge: bool, it: VertexIterator, ivnum: nat, adjacency: Word -> Neighbors,
              ghost visited: seq<nat>, ghost remotes: seq<set<nat>>)
    returns (fidList: seq<nat>, idNum: seq<nat>)
    requires it.Valid() && it.Remaining() == visited && ivnum == |visited| == |remotes|
    requires forall k :: 0 <= k < ivnum ==>
               visited[k] < |it.table| && remotes[k] == Remote(fid, inEdge, outEdge, adjacency(it.table[visited[k]]))
    modifies it
    ensures |idNum| == ivnum && |fidList| == SumTo(idNum, ivnum)
    ensures outEdge ==> Filled(fidList, idNum, remotes, ivnum)
    ensures !outEdge ==> fidList == []
  {
    hide *;
    ghost var table := it.table;
    idNum := seq(ivnum, _ => 0);
    fidList := [];
    var idx := 0;
    SumOfZeros(idNum, ivnum);
    FilledStart(idNum, remotes);
    assert visited[0..] == visited;
    var valid := it.HasNext();
    while valid
      invariant it.Valid() && it.table == table && 0 <= idx <= ivnum && |idNum| == ivnum
      invariant valid <==> it.OnVertex()
      invariant valid <==> it.Remaining() != []
      invariant it.Remaining() == visited[idx..]
      invariant outEdge ==> Filled(fidList, idNum, remotes, idx)
      invariant !outEdge ==> fidList == [] && SumTo(idNum, ivnum) == 0
      decreases ivnum - idx
    {
      var v := it.Vertex();
      assert it.Remaining()[0] == visited[idx];
      var dstset := Gather(fid, inEdge, outEdge, adjacency(v));
      if outEdge {
        fidList, idNum := FillOne(fidList, idNum, remotes, idx, dstset);
      }
      it.Next();
      valid := it.HasNext();
      idx := idx + 1;
    }
    if outEdge {
      FilledLength(fidList, idNum, remotes, ivnum);
    }
  }

  lemma FilledStart(nums: seq<nat>, remotes: seq<set<nat>>)
    ensures Filled([], nums, remotes, 0)
  {
  }

  lemma FilledLength(fidList: seq<nat>, nums: seq<nat>, remotes: seq<set<nat>>, n: nat)
    requires n <= |nums| && n <= |remotes| && Filled(fidList, nums, remotes, n)
    ensures |fidList| == SumTo(nums, n)
  {
  }

  method FillOne(before: seq<nat>, nums: seq<nat>, ghost remotes: seq<set<nat>>, idx: nat, dstset: set<nat>)
    returns (fidList: seq<nat>, idNum: seq<nat>)
    requires idx < |nums| && idx < |remotes| && remotes[idx] == dstset && Filled(before, nums, remotes, idx)
    ensures |idNum| == |nums| && Filled(fidList, idNum, remotes, idx + 1)
  {
    ghost var listed;
    fidList, listed := AppendAscending(before, dstset);
    FilledStep(before, nums, remotes, idx, listed);
    idNum := nums[idx := |dstset|];
  }

  lemma StartsTile(fidList: seq<nat>, nums: seq<nat>, offsets: seq<nat>)
    requires |offsets| == |nums| + 1 && |fidList| == SumTo(nums, |nums|)
    requires forall k :: 0 <= k <= |nums| ==> offsets[k] == SumTo(nums, k)
    ensures Tiles(fidList, offsets)
  {
    forall j, k | 0 <= j <= k < |offsets|
      ensures offsets[j] <= offsets[k] <= |fidList|
    {
      SumToOrder(nums, j, k);
      SumToOrder(nums, k, |nums|);
    }
  }

  lemma SumToOrder(nums: seq<nat>, j: nat, k: nat)
    requires j <= k <= |nums|
    ensures SumTo(nums, j) <= SumTo(nums, k)
  {
    if j < k {
      SumToGrows(nums, j, k);
    }
  }

  lemma SlicesFilled(fidList: seq<nat>, nums: seq<nat>, offsets: seq<nat>, remotes: seq<set<nat>>)
    requires |remotes| == |nums| && Filled(fidList, nums, remotes, |nums|)
    requires |offsets| == |nums| + 1 && Tiles(fidList, offsets)
    requires forall k :: 0 <= k <= |nums| ==> offsets[k] == SumTo(nums, k)
    ensures forall k :: 0 <= k < |nums| ==> Lists(Slice(fidList, offsets, k), remotes[k])
  {
    hide Lists;
    forall k | 0 <= k < |nums|
      ensures Lists(Slice(fidList, offsets, k), remotes[k])
    {
      assert offsets[k + 1] == SumTo(nums, k + 1) == SumTo(nums, k) + nums[k];
    }
  }

  lemma {:induction false} SumOfZeros(nums: seq<nat>, n: nat)
    requires n <= |nums| && forall k :: 0 <= k < n ==> nums[k] == 0
    ensures SumTo(nums, n) == 0
  {
    if n > 0 {
      SumOfZeros(nums, n - 1);
    }
  }

  method Starts(idNum: seq<nat>) returns (offsets: seq<nat>)
    ensures |offsets| == |idNum| + 1 && forall k :: 0 <= k <= |idNum| ==> offsets[k] == SumTo(idNum, k)
  {
    offsets := [0];
    for i := 0 to |idNum|
      invariant |offsets| == i + 1 && forall k :: 0 <= k <= i ==> offsets[k] == SumTo(idNum, k)
    {
      offsets := offsets + [offsets[i] + idNum[i]];
    }
  }

  // ---------------------------------------------------------------- where the lists are not what they should be

  /** With in-edges only, nothing is filled: the (empty) lists are right if and only if no vertex has an
      in-neighbour in another fragment. */
  lemma InEdgesOnlyIff(fid: nat, words: seq<Word>, adjacency: Word -> Neighbors, positions: seq<nat>)
    requires forall k :: 0 <= k < |positions| ==> positions[k] < |words|
    ensures var remotes := Remotes(fid, true, false, words, adjacency, positions);
            (forall k :: 0 <= k < |remotes| ==> Lists([], remotes[k])) <==>
            forall k :: 0 <= k < |positions| ==> forall f :: f in adjacency(words[positions[k]]).inFids ==> f == fid
  {
    var remotes := Remotes(fid, true, false, words, adjacency, positions);
    forall k | 0 <= k < |positions|
      ensures Lists([], remotes[k]) <==> forall f :: f in adjacency(words[positions[k]]).inFids ==> f == fid
    {
      var fids := adjacency(words[positions[k]]).inFids;
      assert remotes[k] == Elements(fids) - {fid};
      assert Elements([]) == {};
      if f :| f in fids && f != fid {
        assert f in remotes[k];
      }
    }
  }

  /** One vertex with an in-neighbour in fragment 1: its list should name the fragment and is empty. */
  lemma InEdgesOnlyMissesFragment()
    ensures var adjacency := (w: Word) => Neighbors([1], []);
            var remotes := Remotes(0, true, false, [4], adjacency, [0]);
            |remotes| == 1 && remotes[0] == {1} && !Lists([], remotes[0])
  {
    var adjacency := (w: Word) => Neighbors([1], []);
    assert Elements([1]) == {1} by {
      assert 1 in [1];
    }
    assert Remote(0, true, false, adjacency(4)) == {1};
    assert Elements([]) == {};
    assert 1 in {1} && 1 !in Elements([]);
  }

  /** Without deletions the iterator visits the newest vertex first. */
  lemma {:induction false} WalkWithoutTombs(words: seq<Word>, n: nat)
    requires n <= |words| && forall p :: 0 <= p < n ==> !IsTomb(words[p])
    ensures |Walk(words, n, multiset{})| == n
    ensures forall k :: 0 <= k < n ==> Walk(words, n, multiset{})[k] == n - 1 - k
  {
    if n > 0 {
      WalkYield(words, n, multiset{});
      WalkWithoutTombs(words, n - 1);
    }
  }

  /** `OEDests` for vertex `w`: the slice at the vertex's offset; there may be no such slice. */
  ghost predicate LookupRight(p: Parser, fid: nat, inEdge: bool, w: Word, adjacency: Word -> Neighbors,
                              fidList: seq<nat>, offsets: seq<nat>)
    requires p.Valid() && offsets != [] && Tiles(fidList, offsets)
  {
    && p.GetOffset(w) + 1 < |offsets|
    && Lists(Slice(fidList, offsets, p.GetOffset(w)), Remote(fid, inEdge, true, adjacency(w)))
  }

  /** The vertex at the place `o` of the visit touches the same fragments as `w`. */
  ghost predicate TouchesLike(fid: nat, inEdge: bool, words: seq<Word>, visited: seq<nat>, adjacency: Word -> Neighbors,
                              o: int, w: Word)
    requires forall k :: 0 <= k < |visited| ==> visited[k] < |words|
  {
    && 0 <= o < |visited|
    && Remote(fid, inEdge, true, adjacency(words[visited[o]])) == Remote(fid, inEdge, true, adjacency(w))
  }

  /** The lists are stored in the order of the visit but looked up by vertex offset.  For any table and any
      visit, the lookup is right for every vertex visited if and only if each one's offset is a place of the
      visit, and the vertex visited there touches the same fragments. */
  lemma LookupByOffsetIff(p: Parser, fid: nat, inEdge: bool, words: seq<Word>, visited: seq<nat>,
                          adjacency: Word -> Neighbors, fidList: seq<nat>, offsets: seq<nat>)
    requires p.Valid() && forall k :: 0 <= k < |visited| ==> visited[k] < |words|
    requires |offsets| == |visited| + 1 && Tiles(fidList, offsets)
    requires var remotes := Remotes(fid, inEdge, true, words, adjacency, visited);
             forall k :: 0 <= k < |remotes| ==> Lists(Slice(fidList, offsets, k), remotes[k])
    ensures (forall k :: 0 <= k < |visited| ==>
               LookupRight(p, fid, inEdge, words[visited[k]], adjacency, fidList, offsets)) <==>
            (forall k :: 0 <= k < |visited| ==>
               TouchesLike(fid, inEdge, words, visited, adjacency, p.GetOffset(words[visited[k]]), words[visited[k]]))
  {
    hide Slice, Remote;
    var remotes := Remotes(fid, inEdge, true, words, adjacency, visited);
    forall k | 0 <= k < |visited|
      ensures LookupRight(p, fid, inEdge, words[visited[k]], adjacency, fidList, offsets) <==>
              TouchesLike(fid, inEdge, words, visited, adjacency, p.GetOffset(words[visited[k]]), words[visited[k]])
    {
      var o := p.GetOffset(words[visited[k]]);
      if o < |visited| {
        assert Lists(Slice(fidList, offsets, o), remotes[o]);
        assert remotes[o] == Remote(fid, inEdge, true, adjacency(words[visited[o]]));
      }
    }
  }

  /** The vertices at places `o` and `n-1-o` touch the same fragments. */
  ghost predicate MirrorsAgree(fid: nat, inEdge: bool, words: seq<Word>, n: nat, adjacency: Word -> Neighbors, o: nat)
    requires o < n <= |words|
  {
    Remote(fid, inEdge, true, adjacency(words[o])) == Remote(fid, inEdge, true, adjacency(words[n - 1 - o]))
  }

  /** With `n` vertices at offsets 0 .. n-1, none deleted, the slice looked up for offset `o` is the one of
      offset `n-1-o`: the lookup is right if and only if mirrored vertices touch the same fragments. */
  lemma LookupWithoutDeletesIff(p: Parser, fid: nat, inEdge: bool, words: seq<Word>, n: nat,
                                adjacency: Word -> Neighbors,
                                fidList: seq<nat>, offsets: seq<nat>)
    requires p.Valid() && n <= |words| && forall o :: 0 <= o < n ==> !IsTomb(words[o]) && p.GetOffset(words[o]) == o
    requires |offsets| == n + 1 && Tiles(fidList, offsets)
    requires var visited := Walk(words, n, multiset{});
             && (forall k :: 0 <= k < |visited| ==> visited[k] < |words|)
             && var remotes := Remotes(fid, inEdge, true, words, adjacency, visited);
                |remotes| <= n && forall k :: 0 <= k < |remotes| ==> Lists(Slice(fidList, offsets, k), remotes[k])
    ensures (forall o :: 0 <= o < n ==> LookupRight(p, fid, inEdge, words[o], adjacency, fidList, offsets)) <==>
            (forall o :: 0 <= o < n ==> MirrorsAgree(fid, inEdge, words, n, adjacency, o))
  {
    WalkWithoutTombs(words, n);
    var visited := Walk(words, n, multiset{});
    hide *;
    LookupByOffsetIff(p, fid, inEdge, words, visited, adjacency, fidList, offsets);
    MirrorAllIff(p, fid, inEdge, words, visited, adjacency, fidList, offsets);
  }

  lemma MirrorAllIff(p: Parser, fid: nat, inEdge: bool, words: seq<Word>, visited: seq<nat>,
                     adjacency: Word -> Neighbors,
                     fidList: seq<nat>, offsets: seq<nat>)
    requires p.Valid() && |visited| <= |words| && offsets != [] && Tiles(fidList, offsets)
    requires forall k :: 0 <= k < |visited| ==> visited[k] == |visited| - 1 - k
    requires forall o :: 0 <= o < |visited| ==> p.GetOffset(words[o]) == o
    ensures var n := |visited|;
            (forall k :: 0 <= k < n ==>
               LookupRight(p, fid, inEdge, words[visited[k]], adjacency, fidList, offsets)) <==>
            forall o :: 0 <= o < n ==> LookupRight(p, fid, inEdge, words[o], adjacency, fidList, offsets)
    ensures var n := |visited|;
            (forall k :: 0 <= k < n ==>
               TouchesLike(fid, inEdge, words, visited, adjacency, p.GetOffset(words[visited[k]]),
                           words[visited[k]])) <==>
            forall o :: 0 <= o < n ==> MirrorsAgree(fid, inEdge, words, n, adjacency, o)
  {
    hide LookupRight, TouchesLike, MirrorsAgree, Tiles, Parser.GetOffset;
    var n := |visited|;
    var right := seq(n, o requires 0 <= o < n => LookupRight(p, fid, inEdge, words[o], adjacency, fidList, offsets));
    var alike := seq(n, o requires 0 <= o < n => MirrorsAgree(fid, inEdge, words, n, adjacency, o));
    AllVisited(right, visited);
    AllVisited(alike, visited);
    forall k | 0 <= k < n
      ensures TouchesLike(fid, inEdge, words, visited, adjacency, p.GetOffset(words[visited[k]]),
                          words[visited[k]]) <==>
              alike[visited[k]]
      ensures right[visited[k]] <==> LookupRight(p, fid, inEdge, words[visited[k]], adjacency, fidList, offsets)
    {
      TouchesMirror(p, fid, inEdge, words, visited, adjacency, k);
    }
    assert forall o :: 0 <= o < n ==>
      (right[o] <==> LookupRight(p, fid, inEdge, words[o], adjacency, fidList, offsets));
    assert forall o :: 0 <= o < n ==> (alike[o] <==> MirrorsAgree(fid, inEdge, words, n, adjacency, o));
  }

  lemma TouchesMirror(p: Parser, fid: nat, inEdge: bool, words: seq<Word>, visited: seq<nat>,
                      adjacency: Word -> Neighbors, k: nat)
    requires p.Valid() && k < |visited| <= |words|
    requires forall k :: 0 <= k < |visited| ==> visited[k] == |visited| - 1 - k
    requires forall o :: 0 <= o < |visited| ==> p.GetOffset(words[o]) == o
    ensures var o := visited[k];
            TouchesLike(fid, inEdge, words, visited, adjacency, p.GetOffset(words[o]), words[o]) <==>
            MirrorsAgree(fid, inEdge, words, |visited|, adjacency, o)
  {
    hide Remote;
    var o := visited[k];
    assert p.GetOffset(words[o]) == o && visited[o] == |visited| - 1 - o;
    hide Parser.GetOffset;
  }

  /** The visit reaches every place. */
  lemma AllVisited(holds: seq<bool>, visited: seq<nat>)
    requires |holds| == |visited| && forall k :: 0 <= k < |visited| ==> visited[k] == |visited| - 1 - k
    ensures (forall k :: 0 <= k < |visited| ==> holds[visited[k]]) <==> forall o :: 0 <= o < |holds| ==> holds[o]
  {
    if forall k :: 0 <= k < |visited| ==> holds[visited[k]] {
      forall o | 0 <= o < |holds|
        ensures holds[o]
      {
        assert visited[|visited| - 1 - o] == o;
      }
    }
  }

  /** The local id of label 0 with this offset. */
  function LocalId(p: Parser, o: nat): (w: Word)
    requires p.Valid() && o < p.OffsetUnit()
    ensures !IsTomb(w) && p.GetOffset(w) == o
  {
    GeneratedFields(p, 0, 0, o);
    SmallMod(o, p.OffsetUnit());
    p.GenerateId(0, 0, o)
  }

  /** Two vertices, the first one deleted: the visit has one vertex, at offset 1, and there is no slice 1. */
  lemma LookupAfterDeleteRunsOut(p: Parser, adjacency: Word -> Neighbors)
    requires p.Valid() && p.OffsetUnit() > 1
    ensures var words: seq<Word> := [LocalId(p, 0), LocalId(p, 1), MakeTomb(0)];
            && Walk(words, 3, multiset{}) == [1]
            && forall fidList: seq<nat>, offsets: seq<nat> :: |offsets| == 2 && Tiles(fidList, offsets) ==>
                 !LookupRight(p, 0, false, words[1], adjacency, fidList, offsets)
  {
    hide LocalId, Parser.GetOffset, Pow2, Lists;
    var words: seq<Word> := [LocalId(p, 0), LocalId(p, 1), MakeTomb(0)];
    var cancelled: multiset<nat> := multiset{0};
    assert multiset{} + multiset{Target(words[2])} == cancelled;
    WalkTomb(words, 3, multiset{});
    WalkYield(words, 2, cancelled);
    WalkSkip(words, 1, cancelled);
    WalkEnd(words, cancelled - multiset{0});
  }

  /** Two vertices, the first beside fragment 1 and the second beside fragment 2: the lists are stored as
      (2), (1), and looking up offset 0 gives the wrong one. */
  lemma LookupByOffsetMixesUp()
    ensures var words: seq<Word> := [0, 1];
            var adjacency := (w: Word) => Neighbors([], [w + 1]);
            var fidList, offsets := [2, 1], [0, 1, 2];
            && Walk(words, 2, multiset{}) == [1, 0] && Tiles(fidList, offsets)
            && Lists(Slice(fidList, offsets, 0), Remote(0, false, true, adjacency(words[1])))
            && Lists(Slice(fidList, offsets, 1), Remote(0, false, true, adjacency(words[0])))
            && !Lists(Slice(fidList, offsets, 0), Remote(0, false, true, adjacency(words[0])))
  {
    var words: seq<Word> := [0, 1];
    WalkWithoutTombs(words, 2);
    assert Walk(words, 2, multiset{}) == [1, 0];
    assert [2, 1][0..1] == [2] && [2, 1][1..2] == [1];
    assert 1 !in Elements([2]);
  }

}
