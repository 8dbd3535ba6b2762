/** The versioned property pages of one column family: the writer makes a new version of a page the first
    time an epoch writes to it, and a reader follows the versions back to the newest one it may see. */
module PropertyPages {
  import opened Decimal
  import opened PageLayout
  import opened IdParser
  import opened Sequences

  /** A page in the shared memory; `prev` is the place of the version before it, 0 when there is none. */
  datatype Page = Page(ver: int, prev: nat, content: seq<Byte>)

  datatype Write = Write(pg: nat, row: nat, bytes: seq<Byte>, nulls: seq<bool>, ver: int)

  /** What a reader lands on: a page, or the memory at place 0, which is not a page. */
  datatype Found = Version(addr: nat) | Wild

  /** A property inside the family's rows; a text property holds a key of the string store. */
  datatype Field = Field(offset: nat, size: nat, isText: bool)

  /** The newest write to a row among those a reader of version `r` may see. */
  function LastWrite(writes: seq<Write>, pg: nat, row: nat, r: int): Option<Write> {
    if writes == [] then None
    else
      var w := writes[|writes| - 1];
      if w.pg == pg && w.row == row && w.ver <= r then Some(w) else LastWrite(writes[..|writes| - 1], pg, row, r)
  }

  lemma LastWriteAppend(writes: seq<Write>, w: Write, pg: nat, row: nat, r: int)
    ensures LastWrite(writes + [w], pg, row, r) ==
            if w.pg == pg && w.row == row && w.ver <= r then Some(w) else LastWrite(writes, pg, row, r)
  {
    assert (writes + [w])[..|writes|] == writes;
  }

  /** No write to the page is newer than `v`. */
  predicate NoneAfter(writes: seq<Write>, pg: nat, v: int) {
    forall w <- writes :: w.pg == pg ==> w.ver <= v
  }

  lemma {:induction false} LastWriteSame(writes: seq<Write>, pg: nat, row: nat, v: int, r: int)
    requires NoneAfter(writes, pg, v) && v <= r
    ensures LastWrite(writes, pg, row, r) == LastWrite(writes, pg, row, v)
  {
    if writes != [] {
      assert writes[|writes| - 1] in writes;
      LastWriteSame(writes[..|writes| - 1], pg, row, v, r);
    }
  }

  lemma {:induction false} LastWriteIs(writes: seq<Write>, pg: nat, row: nat, r: int)
    ensures LastWrite(writes, pg, row, r).Some? ==>
              LastWrite(writes, pg, row, r).value in writes && LastWrite(writes, pg, row, r).value.ver <= r &&
              LastWrite(writes, pg, row, r).value.pg == pg && LastWrite(writes, pg, row, r).value.row == row
  {
    if writes != [] {
      LastWriteIs(writes[..|writes| - 1], pg, row, r);
    }
  }

  // ---------------------------------------------------------------- the versions of a page

  /** `chain` lists the places of the versions of one page, newest first. */
  ghost predicate Chained(layout: Layout, pages: map<nat, Page>, chain: seq<nat>, first: nat) {
    && first == (if chain == [] then 0 else chain[0])
    && (forall k :: 0 <= k < |chain| ==>
          && chain[k] != 0 && chain[k] in pages
          && |pages[chain[k]].content| == layout.PageBytes()
          && pages[chain[k]].prev == NextVersionOf(chain, k))
    && (forall j, k :: 0 <= j < k < |chain| ==> pages[chain[k]].ver < pages[chain[j]].ver)
  }

  /** The place of the version before the `k`-th. */
  function NextVersionOf(chain: seq<nat>, k: nat): nat
    requires k < |chain|
  {
    if k + 1 < |chain| then chain[k + 1] else 0
  }

  /** Every row but `skip` holds its newest write that version `ver` may see. */
  ghost predicate PageShows(layout: Layout, content: seq<Byte>, pg: nat, writes: seq<Write>, ver: int, skip: int)
    requires |content| == layout.PageBytes() && WellSized(layout, writes)
  {
    forall row :: 0 <= row < layout.pageSize && row != skip && LastWrite(writes, pg, row, ver).Some? ==>
      RowShows(layout, content, row, LastWrite(writes, pg, row, ver).value)
  }

  predicate RowShows(layout: Layout, content: seq<Byte>, row: nat, w: Write)
    requires |content| == layout.PageBytes() && row < layout.pageSize
  {
    |w.nulls| == layout.columnNum && RowHolds(layout, content, row, w.bytes, w.nulls)
  }

  predicate WellSized(layout: Layout, writes: seq<Write>) {
    forall w <- writes :: w.row < layout.pageSize && |w.bytes| == layout.vlen && |w.nulls| == layout.columnNum
  }

  /** The page has a version for every write, and every version shows what it should. */
  ghost predicate ChainOk(layout: Layout, pages: map<nat, Page>, chain: seq<nat>, first: nat, pg: nat,
                          writes: seq<Write>) {
    && WellSized(layout, writes) && Chained(layout, pages, chain, first)
    && (forall k :: 0 <= k < |chain| ==>
          PageShows(layout, pages[chain[k]].content, pg, writes, pages[chain[k]].ver, -1))
    && (forall w <- writes :: w.pg == pg ==> VersionOf(pages, chain, w.ver))
    && (forall k :: 0 <= k < |chain| ==> WrittenAt(writes, pg, pages[chain[k]].ver))
  }

  ghost predicate VersionOf(pages: map<nat, Page>, chain: seq<nat>, ver: int) {
    exists k :: 0 <= k < |chain| && chain[k] in pages && pages[chain[k]].ver == ver
  }

  ghost predicate WrittenAt(writes: seq<Write>, pg: nat, ver: int) {
    exists i :: 0 <= i < |writes| && writes[i].pg == pg && writes[i].ver == ver
  }

  /** The newest version of a page that a reader of version `r` may see, `chain` being its versions. */
  function NewestVersion(pages: map<nat, Page>, chain: seq<nat>, r: int): (found: Found)
    ensures found.Version? ==> found.addr in chain && found.addr in pages && pages[found.addr].ver <= r
    ensures found.Wild? <==> forall a <- chain :: a in pages ==> pages[a].ver > r
  {
    if chain == [] then Wild
    else if chain[0] in pages && pages[chain[0]].ver <= r then Version(chain[0])
    else NewestVersion(pages, chain[1..], r)
  }

  lemma {:induction false} NewestVersionAt(pages: map<nat, Page>, chain: seq<nat>, r: int) returns (n: nat)
    requires forall j, k :: 0 <= j < k < |chain| ==>
             chain[j] in pages && chain[k] in pages && pages[chain[k]].ver < pages[chain[j]].ver
    requires forall k :: 0 <= k < |chain| ==> chain[k] in pages
    ensures n <= |chain| && NewestVersion(pages, chain, r) == if n < |chain| then Version(chain[n]) else Wild
    ensures forall k :: 0 <= k < |chain| ==> (pages[chain[k]].ver <= r <==> n <= k)
  {
    if chain == [] || pages[chain[0]].ver <= r {
      n := 0;
    } else {
      n := NewestVersionAt(pages, chain[1..], r);
      n := n + 1;
    }
  }

  /** The loop of all the readers: back through the versions to the first one not newer than `r`.  A chain
      that runs out leads to place 0, which the source does not recognize as an end. */
  method FindVersion(layout: Layout, pages: map<nat, Page>, first: nat, r: int, ghost chain: seq<nat>)
    returns (found: Found)
    requires Chained(layout, pages, chain, first) && 0 !in pages
    ensures found == NewestVersion(pages, chain, r)
  {
    var addr := first;
    ghost var n := 0;
    assert chain[0..] == chain;
    while true
      invariant 0 <= n <= |chain| && addr == (if n < |chain| then chain[n] else 0)
      invariant NewestVersion(pages, chain, r) == NewestVersion(pages, chain[n..], r)
      decreases |chain| - n
    {
      if addr !in pages {
        return Wild;
      }
      assert chain[n..][0] == chain[n] && chain[n..][1..] == chain[n + 1..];
      if pages[addr].ver <= r {
        return Version(addr);
      }
      addr := pages[addr].prev;
      n := n + 1;
    }
  }

  /** Multi-version reading, exactly: the newest version a reader may see is the one of the newest write to
      the page that it may see, it shows every row as that row's newest visible write left it, and there is
      none if and only if the page has no visible write. */
  lemma FoundShows(layout: Layout, pages: map<nat, Page>, chain: seq<nat>, first: nat, pg: nat, writes: seq<Write>,
                   r: int, row: nat)
    requires ChainOk(layout, pages, chain, first, pg, writes) && row < layout.pageSize
    ensures var found := NewestVersion(pages, chain, r);
            && (found.Wild? <==> forall w <- writes :: w.pg == pg ==> r < w.ver)
            && (found.Version? ==>
                  && |pages[found.addr].content| == layout.PageBytes()
                  && WrittenAt(writes, pg, pages[found.addr].ver)
                  && forall w <- writes :: w.pg == pg && w.ver <= r ==> w.ver <= pages[found.addr].ver)
    ensures var found, last := NewestVersion(pages, chain, r), LastWrite(writes, pg, row, r);
            last.Some? ==> found.Version? && RowShows(layout, pages[found.addr].content, row, last.value)
  {
    LastWriteIs(writes, pg, row, r);
    var found := NewestVersion(pages, chain, r);
    var n := NewestVersionAt(pages, chain, r);
    forall w | w in writes && w.pg == pg && w.ver <= r
      ensures found.Version? && w.ver <= pages[chain[n]].ver
    {
      var k :| 0 <= k < |chain| && chain[k] in pages && pages[chain[k]].ver == w.ver;
      assert n <= k;
    }
    if found.Version? {
      var v := pages[chain[n]].ver;
      assert WrittenAt(writes, pg, v);
      NewestVisible(writes, pg, row, v, r);
      assert PageShows(layout, pages[chain[n]].content, pg, writes, v, -1);
    }
  }

  /** A page first written at version 5 and read at version 4: the search leaves the pages. */
  lemma TooNewPageRunsWild(layout: Layout, content: seq<Byte>, bytes: seq<Byte>, nulls: seq<bool>)
    requires layout.Valid() && |content| == layout.PageBytes() && |bytes| == layout.vlen && |nulls| == layout.columnNum
    requires RowHolds(layout, content, 0, bytes, nulls)
    ensures var pages, writes := map[8 := Page(5, 0, content)], [Write(0, 0, bytes, nulls, 5)];
            ChainOk(layout, pages, [8], 8, 0, writes) && NewestVersion(pages, [8], 4) == Wild
  {
    var pages, writes := map[8 := Page(5, 0, content)], [Write(0, 0, bytes, nulls, 5)];
    assert [8][1..] == [] && writes[..0] == [];
    assert VersionOf(pages, [8], 5) by {
      assert [8][0] == 8;
    }
    assert WrittenAt(writes, 0, 5) by {
      assert writes[0].ver == 5;
    }
    assert forall row: nat :: row != 0 ==> LastWrite(writes, 0, row, 5) == None;
    assert LastWrite(writes, 0, 0, 5) == Some(writes[0]);
  }

  /** Between the version found and the reader's there is no write. */
  lemma {:induction false} NewestVisible(writes: seq<Write>, pg: nat, row: nat, v: int, r: int)
    requires v <= r && forall w <- writes :: w.pg == pg && w.ver <= r ==> w.ver <= v
    ensures LastWrite(writes, pg, row, r) == LastWrite(writes, pg, row, v)
  {
    if writes != [] {
      assert writes[|writes| - 1] in writes;
      NewestVisible(writes[..|writes| - 1], pg, row, v, r);
    }
  }

  // ---------------------------------------------------------------- writing

  /** A row written at the newest version, which is `w.ver`; the other rows of that version are in order. */
  lemma WriteShows(layout: Layout, pages: map<nat, Page>, chain: seq<nat>, pg: nat, writes: seq<Write>, w: Write,
                   content: seq<Byte>)
    requires WellSized(layout, writes + [w]) && w.pg == pg && chain != [] && Chained(layout, pages, chain, chain[0])
    requires pages[chain[0]].ver == w.ver && |content| == layout.PageBytes()
    requires PageShows(layout, content, pg, writes, w.ver, w.row)
    requires RowShows(layout, content, w.row, w)
    requires WellSized(layout, writes) && forall k :: 1 <= k < |chain| ==>
               PageShows(layout, pages[chain[k]].content, pg, writes, pages[chain[k]].ver, -1)
    ensures PageShows(layout, content, pg, writes + [w], w.ver, -1)
    ensures forall k :: 1 <= k < |chain| ==>
              PageShows(layout, pages[chain[k]].content, pg, writes + [w], pages[chain[k]].ver, -1)
  {
    hide RowShows;
    forall row | 0 <= row < layout.pageSize && LastWrite(writes + [w], pg, row, w.ver).Some?
      ensures RowShows(layout, content, row, LastWrite(writes + [w], pg, row, w.ver).value)
    {
      LastWriteAppend(writes, w, pg, row, w.ver);
    }
    forall k | 1 <= k < |chain|
      ensures PageShows(layout, pages[chain[k]].content, pg, writes + [w], pages[chain[k]].ver, -1)
    {
      forall row | 0 <= row < layout.pageSize
        ensures LastWrite(writes + [w], pg, row, pages[chain[k]].ver) == LastWrite(writes, pg, row, pages[chain[k]].ver)
      {
        LastWriteAppend(writes, w, pg, row, pages[chain[k]].ver);
      }
    }
  }

  /** Between finding the page and storing the row: the newest version is the one to write to. */
  ghost predicate ReadyToWrite(layout: Layout, pages: map<nat, Page>, chain: seq<nat>, first: nat, pg: nat,
                               writes: seq<Write>, ver: int, row: nat)
  {
    && WellSized(layout, writes) && Chained(layout, pages, chain, first) && chain != []
    && pages[chain[0]].ver == ver && PageShows(layout, pages[chain[0]].content, pg, writes, ver, row)
    && (forall k :: 1 <= k < |chain| ==>
        PageShows(layout, pages[chain[k]].content, pg, writes, pages[chain[k]].ver, -1))
    && (forall k :: 1 <= k < |chain| ==> WrittenAt(writes, pg, pages[chain[k]].ver))
    && (forall w <- writes :: w.pg == pg ==> VersionOf(pages, chain, w.ver))
  }

  /** `findWithInsertPage_`: a page gets its first version with its first write, uninitialized; a later epoch
      gets a new version, copied from the one before it unless a page is a single row; the same epoch
      writes in place.  `at` and `junk` are the place and the bytes the allocator returns. */
  method FindWithInsertPage(layout: Layout, pages: map<nat, Page>, first: nat, pg: nat, version: int,
                            at: nat, junk: seq<Byte>, ghost chain: seq<nat>, ghost writes: seq<Write>, ghost row: nat)
    returns (pages': map<nat, Page>, first': nat, ghost chain': seq<nat>)
    requires layout.Valid() && 0 !in pages && row < layout.pageSize
    requires ChainOk(layout, pages, chain, first, pg, writes) && NoneAfter(writes, pg, version)
    requires at != 0 && at !in pages && |junk| == layout.PageBytes()
    ensures ReadyToWrite(layout, pages', chain', first', pg, writes, version, row) && first' == chain'[0]
    ensures (chain' == chain && pages' == pages) ||
            (chain' == [at] + chain && at in pages' && pages' == pages[at := pages'[at]])
  {
    hide *;
    FirstOfChain(layout, pages, chain, first, pg, writes);
    pages', first', chain' := pages, first, chain;
    if first !in pages {
      FirstVersion(layout, pages, chain, first, pg, writes, version, at, junk, row);
      pages' := pages[at := Page(version, 0, junk)];
      first', chain' := at, [at] + chain;
    } else if version > pages[first].ver {
      var content := if layout.pageSize != 1 then pages[first].content else junk;
      NextVersion(layout, pages, chain, first, pg, writes, version, at, content, row);
      pages' := pages[at := Page(version, first, content)];
      first', chain' := at, [at] + chain;
    } else {
      NewestIsReady(layout, pages, chain, first, pg, writes, version, row);
    }
  }

  lemma FirstOfChain(layout: Layout, pages: map<nat, Page>, chain: seq<nat>, first: nat, pg: nat, writes: seq<Write>)
    requires ChainOk(layout, pages, chain, first, pg, writes) && 0 !in pages
    ensures first !in pages ==> chain == []
    ensures first in pages ==> chain != [] && chain[0] == first && |pages[first].content| == layout.PageBytes()
  {
  }

  lemma NewestIsReady(layout: Layout, pages: map<nat, Page>, chain: seq<nat>, first: nat, pg: nat,
                      writes: seq<Write>, version: int, row: nat)
    requires ChainOk(layout, pages, chain, first, pg, writes) && NoneAfter(writes, pg, version)
    requires 0 !in pages && row < layout.pageSize && first in pages && chain != [] && pages[first].ver >= version
    ensures ReadyToWrite(layout, pages, chain, first, pg, writes, version, row)
  {
    hide Chained, VersionOf, WrittenAt, PageShows, WellSized, NoneAfter, Layout.PageBytes;
    FirstOfChain(layout, pages, chain, first, pg, writes);
    NewestIsWritten(layout, pages, chain, first, pg, writes, version);
    assert PageShows(layout, pages[chain[0]].content, pg, writes, version, -1);
    SkipOne(layout, pages[chain[0]].content, pg, writes, version, row);
  }

  lemma SkipOne(layout: Layout, content: seq<Byte>, pg: nat, writes: seq<Write>, ver: int, row: nat)
    requires |content| == layout.PageBytes() && WellSized(layout, writes)
             && PageShows(layout, content, pg, writes, ver, -1)
    ensures PageShows(layout, content, pg, writes, ver, row)
  {
  }

  lemma NewestIsWritten(layout: Layout, pages: map<nat, Page>, chain: seq<nat>, first: nat, pg: nat,
                        writes: seq<Write>, version: int)
    requires ChainOk(layout, pages, chain, first, pg, writes) && NoneAfter(writes, pg, version) && chain != []
    ensures chain[0] in pages && pages[chain[0]].ver <= version
  {
    assert WrittenAt(writes, pg, pages[chain[0]].ver);
    var i :| 0 <= i < |writes| && writes[i].pg == pg && writes[i].ver == pages[chain[0]].ver;
    assert writes[i] in writes;
  }

  lemma FirstVersion(layout: Layout, pages: map<nat, Page>, chain: seq<nat>, first: nat, pg: nat,
                     writes: seq<Write>, version: int, at: nat, junk: seq<Byte>, row: nat)
    requires ChainOk(layout, pages, chain, first, pg, writes) && chain == []
    requires at != 0 && at !in pages && |junk| == layout.PageBytes()
    ensures ReadyToWrite(layout, pages[at := Page(version, 0, junk)], [at] + chain, at, pg, writes, version, row)
  {
    forall r: nat
      ensures LastWrite(writes, pg, r, version).None?
    {
      LastWriteIs(writes, pg, r, version);
    }
    hide RowShows, LastWrite, Layout.PageBytes;
  }

  lemma NextVersion(layout: Layout, pages: map<nat, Page>, chain: seq<nat>, first: nat, pg: nat,
                    writes: seq<Write>, version: int, at: nat, content: seq<Byte>, row: nat)
    requires layout.Valid() && row < layout.pageSize
    requires ChainOk(layout, pages, chain, first, pg, writes) && NoneAfter(writes, pg, version)
    requires chain != [] && first in pages && pages[first].ver < version
    requires at != 0 && at !in pages && |content| == layout.PageBytes()
    requires layout.pageSize != 1 ==> content == pages[first].content
    ensures ReadyToWrite(layout, pages[at := Page(version, first, content)], [at] + chain, at, pg, writes, version, row)
  {
    var pages', chain' := pages[at := Page(version, first, content)], [at] + chain;
    CopyShows(layout, pages, chain, first, pg, writes, version, content, row);
    ChainGrows(layout, pages, chain, first, pg, writes, version, at, content);
    hide *;
    assert forall k :: 1 <= k < |chain'| ==> chain'[k] == chain[k - 1];
  }

  lemma CopyShows(layout: Layout, pages: map<nat, Page>, chain: seq<nat>, first: nat, pg: nat,
                  writes: seq<Write>, version: int, content: seq<Byte>, row: nat)
    requires layout.Valid() && row < layout.pageSize
    requires ChainOk(layout, pages, chain, first, pg, writes) && NoneAfter(writes, pg, version)
    requires chain != [] && first in pages && pages[first].ver < version && |content| == layout.PageBytes()
    requires layout.pageSize != 1 ==> content == pages[first].content
    ensures PageShows(layout, content, pg, writes, version, row)
  {
    NewestCoversAll(layout, pages, chain, first, pg, writes);
    forall r | 0 <= r < layout.pageSize && r != row
      ensures LastWrite(writes, pg, r, version) == LastWrite(writes, pg, r, pages[first].ver)
    {
      LastWriteSame(writes, pg, r, pages[first].ver, version);
    }
    assert PageShows(layout, pages[chain[0]].content, pg, writes, pages[chain[0]].ver, -1);
    hide RowShows, LastWrite, Layout.PageBytes;
  }

  lemma ChainGrows(layout: Layout, pages: map<nat, Page>, chain: seq<nat>, first: nat, pg: nat,
                   writes: seq<Write>, version: int, at: nat, content: seq<Byte>)
    requires ChainOk(layout, pages, chain, first, pg, writes) && at != 0 && at !in pages
    requires chain != [] && first in pages && pages[first].ver < version && |content| == layout.PageBytes()
    ensures var pages', chain' := pages[at := Page(version, first, content)], [at] + chain;
            && Chained(layout, pages', chain', at)
            && (forall k :: 1 <= k < |chain'| ==>
                  && PageShows(layout, pages'[chain'[k]].content, pg, writes, pages'[chain'[k]].ver, -1)
                  && WrittenAt(writes, pg, pages'[chain'[k]].ver))
            && (forall w <- writes :: w.pg == pg ==> VersionOf(pages', chain', w.ver))
  {
    hide PageShows, WrittenAt, VersionOf, Layout.PageBytes, WellSized;
    var pages', chain' := pages[at := Page(version, first, content)], [at] + chain;
    ChainedGrows(layout, pages, chain, first, version, at, content);
    forall k | 1 <= k < |chain'|
      ensures PageShows(layout, pages'[chain'[k]].content, pg, writes, pages'[chain'[k]].ver, -1)
      ensures WrittenAt(writes, pg, pages'[chain'[k]].ver)
    {
      assert chain'[k] == chain[k - 1] && pages'[chain'[k]] == pages[chain[k - 1]];
    }
    forall w | w in writes && w.pg == pg
      ensures VersionOf(pages', chain', w.ver)
    {
      VersionStays(pages, chain, Page(version, first, content), at, w.ver);
    }
  }

  lemma VersionStays(pages: map<nat, Page>, chain: seq<nat>, page: Page, at: nat, ver: int)
    requires VersionOf(pages, chain, ver) && at !in pages
    ensures VersionOf(pages[at := page], [at] + chain, ver)
  {
    var k :| 0 <= k < |chain| && chain[k] in pages && pages[chain[k]].ver == ver;
    assert ([at] + chain)[k + 1] == chain[k];
  }

  lemma ChainedGrows(layout: Layout, pages: map<nat, Page>, chain: seq<nat>, first: nat, version: int,
                     at: nat, content: seq<Byte>)
    requires Chained(layout, pages, chain, first) && at != 0 && at !in pages
    requires chain != [] && first in pages && pages[first].ver < version && |content| == layout.PageBytes()
    ensures Chained(layout, pages[at := Page(version, first, content)], [at] + chain, at)
  {
    hide Layout.PageBytes;
    var pages', chain' := pages[at := Page(version, first, content)], [at] + chain;
    forall k | 0 <= k < |chain'|
      ensures chain'[k] != 0 && chain'[k] in pages' && |pages'[chain'[k]].content| == layout.PageBytes()
      ensures pages'[chain'[k]].prev == NextVersionOf(chain', k)
      ensures k > 0 ==> chain'[k] == chain[k - 1] && pages'[chain'[k]] == pages[chain[k - 1]]
    {
      assert k + 1 < |chain'| ==> chain'[k + 1] == chain[k];
      assert k > 0 ==> chain'[k] == chain[k - 1] && pages[chain[k - 1]].prev == NextVersionOf(chain, k - 1);
      assert chain[0] == first;
    }
    VersionsGrow(pages, chain, Page(version, first, content), at);
  }

  lemma VersionsGrow(pages: map<nat, Page>, chain: seq<nat>, page: Page, at: nat)
    requires at !in pages && chain != [] && forall k :: 0 <= k < |chain| ==> chain[k] in pages
    requires forall j, k :: 0 <= j < k < |chain| ==> pages[chain[k]].ver < pages[chain[j]].ver
    requires pages[chain[0]].ver < page.ver
    ensures var pages', chain' := pages[at := page], [at] + chain;
            forall j, k :: 0 <= j < k < |chain'| ==> pages'[chain'[k]].ver < pages'[chain'[j]].ver
  {
    var chain' := [at] + chain;
    assert forall k :: 1 <= k < |chain'| ==> chain'[k] == chain[k - 1];
    assert forall k :: 1 <= k < |chain| ==> pages[chain[k]].ver < pages[chain[0]].ver;
  }

  lemma NewestCoversAll(layout: Layout, pages: map<nat, Page>, chain: seq<nat>, first: nat, pg: nat, writes: seq<Write>)
    requires ChainOk(layout, pages, chain, first, pg, writes) && chain != []
    ensures NoneAfter(writes, pg, pages[first].ver)
  {
    forall w | w in writes && w.pg == pg
      ensures w.ver <= pages[first].ver
    {
      var k :| 0 <= k < |chain| && chain[k] in pages && pages[chain[k]].ver == w.ver;
    }
  }

  /** Storing the row makes the page's versions right again. */
  lemma RowStored(layout: Layout, pages: map<nat, Page>, chain: seq<nat>, first: nat, pg: nat,
                  writes: seq<Write>, w: Write, content: seq<Byte>)
    requires ReadyToWrite(layout, pages, chain, first, pg, writes, w.ver, w.row)
    requires w.pg == pg && WellSized(layout, writes + [w]) && |content| == layout.PageBytes()
    requires RowShows(layout, content, w.row, w)
    requires forall r :: 0 <= r < layout.pageSize && r != w.row ==> SameRow(layout, pages[first].content, content, r)
    ensures ChainOk(layout, pages[first := pages[first].(content := content)], chain, first, pg, writes + [w])
  {
    var pages' := pages[first := pages[first].(content := content)];
    OtherRowsShow(layout, pages[first].content, content, pg, writes, w.ver, w.row);
    hide RowShows, SameRow, LastWrite, Layout.PageBytes;
    WriteShows(layout, pages, chain, pg, writes, w, content);
    ContentChanges(layout, pages, chain, first, content);
    hide PageShows, Chained;
    forall k | 0 <= k < |chain|
      ensures WrittenAt(writes + [w], pg, pages'[chain[k]].ver)
    {
      if k == 0 {
        assert (writes + [w])[|writes|] == w;
      } else {
        WrittenBefore(writes, w, pg, pages[chain[k]].ver);
      }
    }
    hide WrittenAt;
    forall x | x in writes + [w] && x.pg == pg
      ensures VersionOf(pages', chain, x.ver)
    {
      if x in writes {
        var k :| 0 <= k < |chain| && chain[k] in pages && pages[chain[k]].ver == x.ver;
        assert chain[k] in pages' && pages'[chain[k]].ver == x.ver;
      } else {
        assert chain[0] in pages' && pages'[chain[0]].ver == x.ver;
      }
    }
  }

  /** New content in the newest version leaves the versions linked as they were. */
  lemma ContentChanges(layout: Layout, pages: map<nat, Page>, chain: seq<nat>, first: nat, content: seq<Byte>)
    requires Chained(layout, pages, chain, first) && chain != [] && |content| == layout.PageBytes()
    ensures first == chain[0] && first in pages
    ensures var pages' := pages[first := pages[first].(content := content)];
            && Chained(layout, pages', chain, first) && pages'[first].content == content
            && (forall k :: 0 <= k < |chain| ==> pages'[chain[k]].ver == pages[chain[k]].ver)
            && (forall k :: 1 <= k < |chain| ==> pages'[chain[k]] == pages[chain[k]])
  {
    hide Layout.PageBytes;
    assert forall k :: 1 <= k < |chain| ==> pages[chain[k]].ver < pages[chain[0]].ver;
  }

  lemma OtherRowsShow(layout: Layout, before: seq<Byte>, after: seq<Byte>, pg: nat, writes: seq<Write>, ver: int,
                      row: nat)
    requires |before| == |after| == layout.PageBytes() && WellSized(layout, writes)
    requires PageShows(layout, before, pg, writes, ver, row)
    requires forall r :: 0 <= r < layout.pageSize && r != row ==> SameRow(layout, before, after, r)
    ensures PageShows(layout, after, pg, writes, ver, row)
  {
    hide LastWrite, Layout.PageBytes, RowBytes, IsNull;
    forall r | 0 <= r < layout.pageSize && r != row && LastWrite(writes, pg, r, ver).Some?
      ensures RowShows(layout, after, r, LastWrite(writes, pg, r, ver).value)
    {
      assert SameRow(layout, before, after, r);
    }
  }

  /** Memory that is not theirs does not disturb the versions of a page. */
  lemma ChainFrame(layout: Layout, pages: map<nat, Page>, pages': map<nat, Page>, chain: seq<nat>, first: nat)
    requires Chained(layout, pages, chain, first)
    requires forall k :: 0 <= k < |chain| ==> chain[k] in pages' && pages'[chain[k]] == pages[chain[k]]
    ensures Chained(layout, pages', chain, first)
  {
    hide Layout.PageBytes;
  }

  /** A write to another page shows in no version of this one. */
  lemma OtherPageShows(layout: Layout, content: seq<Byte>, pg: nat, writes: seq<Write>, v: int, w: Write)
    requires |content| == layout.PageBytes() && WellSized(layout, writes) && WellSized(layout, writes + [w])
    requires w.pg != pg && PageShows(layout, content, pg, writes, v, -1)
    ensures PageShows(layout, content, pg, writes + [w], v, -1)
  {
    hide RowShows, Layout.PageBytes;
    forall row | 0 <= row < layout.pageSize
      ensures LastWrite(writes + [w], pg, row, v) == LastWrite(writes, pg, row, v)
    {
      LastWriteAppend(writes, w, pg, row, v);
    }
    hide LastWrite;
  }

  lemma WrittenBefore(writes: seq<Write>, w: Write, pg: nat, v: int)
    requires WrittenAt(writes, pg, v)
    ensures WrittenAt(writes + [w], pg, v)
  {
    var i :| 0 <= i < |writes| && writes[i].pg == pg && writes[i].ver == v;
    assert (writes + [w])[i] == writes[i];
  }

  /** Writes to other pages, and memory that is not theirs, do not disturb the versions of a page. */
  lemma OtherChain(layout: Layout, pages: map<nat, Page>, pages': map<nat, Page>, chain: seq<nat>, first: nat, pg: nat,
                   writes: seq<Write>, w: Write)
    requires ChainOk(layout, pages, chain, first, pg, writes) && w.pg != pg && WellSized(layout, writes + [w])
    requires forall k :: 0 <= k < |chain| ==> chain[k] in pages' && pages'[chain[k]] == pages[chain[k]]
    ensures ChainOk(layout, pages', chain, first, pg, writes + [w])
  {
    hide PageShows, WrittenAt, WellSized, Layout.PageBytes;
    ChainFrame(layout, pages, pages', chain, first);
    forall k | 0 <= k < |chain|
      ensures PageShows(layout, pages'[chain[k]].content, pg, writes + [w], pages'[chain[k]].ver, -1)
      ensures WrittenAt(writes + [w], pg, pages'[chain[k]].ver)
    {
      OtherPageShows(layout, pages[chain[k]].content, pg, writes, pages[chain[k]].ver, w);
      WrittenBefore(writes, w, pg, pages[chain[k]].ver);
    }
    forall x | x in writes + [w] && x.pg == pg
      ensures VersionOf(pages', chain, x.ver)
    {
      assert x in writes;
      var k :| 0 <= k < |chain| && chain[k] in pages && pages[chain[k]].ver == x.ver;
      assert chain[k] in pages' && pages'[chain[k]].ver == x.ver;
    }
  }

  /** No two pages share a version. */
  ghost predicate Apart(chains: seq<seq<nat>>) {
    forall pg, pg', k, k' :: 0 <= pg < pg' < |chains| && 0 <= k < |chains[pg]| && 0 <= k' < |chains[pg']| ==>
      chains[pg][k] != chains[pg'][k']
  }

  ghost predicate StoreOk(layout: Layout, pages: map<nat, Page>, ptrs: seq<nat>, chains: seq<seq<nat>>,
                          writes: seq<Write>) {
    && 0 !in pages && |chains| == |ptrs| && WellSized(layout, writes)
    && (forall w <- writes :: w.pg < |ptrs|)
    && (forall pg :: 0 <= pg < |ptrs| ==> ChainOk(layout, pages, chains[pg], ptrs[pg], pg, writes))
    && Apart(chains)
  }

  lemma ApartGrows(chains: seq<seq<nat>>, pages: map<nat, Page>, pg: nat, at: nat)
    requires Apart(chains) && pg < |chains| && at !in pages
    requires forall u, k :: 0 <= u < |chains| && 0 <= k < |chains[u]| ==> chains[u][k] in pages
    ensures Apart(chains[pg := [at] + chains[pg]])
  {
  }

  lemma ApartFrom(chains: seq<seq<nat>>, pg: nat, u: nat)
    requires Apart(chains) && pg < |chains| && u < |chains| && u != pg
    ensures forall k :: 0 <= k < |chains[u]| ==> chains[u][k] !in chains[pg]
  {
  }

  lemma ChainInPages(layout: Layout, pages: map<nat, Page>, ptrs: seq<nat>, chains: seq<seq<nat>>, writes: seq<Write>)
    requires StoreOk(layout, pages, ptrs, chains, writes)
    ensures forall u, k :: 0 <= u < |chains| && 0 <= k < |chains[u]| ==> chains[u][k] in pages
  {
    forall u, k | 0 <= u < |chains| && 0 <= k < |chains[u]|
      ensures chains[u][k] in pages
    {
      assert ChainOk(layout, pages, chains[u], ptrs[u], u, writes);
    }
  }

  /** One page got a new write; the others are as they were. */
  lemma StoreKeeps(layout: Layout, pages: map<nat, Page>, ptrs: seq<nat>, chains: seq<seq<nat>>, writes: seq<Write>,
                   pages': map<nat, Page>, first: nat, chain: seq<nat>, w: Write, at: nat)
    requires StoreOk(layout, pages, ptrs, chains, writes) && w.pg < |ptrs| && at !in pages
    requires WellSized(layout, writes + [w]) && 0 !in pages'
    requires chain == chains[w.pg] || chain == [at] + chains[w.pg]
    requires forall a :: a in pages && a !in chain ==> a in pages' && pages'[a] == pages[a]
    requires ChainOk(layout, pages', chain, first, w.pg, writes + [w])
    ensures StoreOk(layout, pages', ptrs[w.pg := first], chains[w.pg := chain], writes + [w])
  {
    hide ChainOk, WellSized;
    ChainInPages(layout, pages, ptrs, chains, writes);
    ApartGrows(chains, pages, w.pg, at);
    assert chains[w.pg := chains[w.pg]] == chains;
    forall u | 0 <= u < |ptrs| && u != w.pg
      ensures ChainOk(layout, pages', chains[u], ptrs[u], u, writes + [w])
    {
      ApartFrom(chains[w.pg := chain], w.pg, u);
      OtherChain(layout, pages, pages', chains[u], ptrs[u], u, writes, w);
    }
  }

  /** Finds or makes the version, and stores the row in it. */
  method WriteRow(layout: Layout, pages: map<nat, Page>, ptrs: seq<nat>, ghost chains: seq<seq<nat>>,
                  ghost writes: seq<Write>,
                  pg: nat, row: nat, bytes: seq<Byte>, nulls: seq<bool>, ver: int, at: nat, junk: seq<Byte>)
    returns (pages': map<nat, Page>, first: nat, ghost chains': seq<seq<nat>>)
    requires StoreOk(layout, pages, ptrs, chains, writes) && layout.Valid() && pg < |ptrs| && row < layout.pageSize
    requires |bytes| == layout.vlen && |nulls| == layout.columnNum && NoneAfter(writes, pg, ver)
    requires at != 0 && at !in pages && |junk| == layout.PageBytes()
    ensures StoreOk(layout, pages', ptrs[pg := first], chains', writes + [Write(pg, row, bytes, nulls, ver)])
  {
    assert ChainOk(layout, pages, chains[pg], ptrs[pg], pg, writes);
    ghost var w := Write(pg, row, bytes, nulls, ver);
    assert WellSized(layout, writes + [w]) && 0 !in pages && |chains| == |ptrs|;
    hide *;
    ghost var chain;
    pages', first, chain := FindWithInsertPage(layout, pages, ptrs[pg], pg, ver, at, junk, chains[pg], writes, row);
    ReadyFacts(layout, pages', chain, first, pg, writes, ver, row);
    var content := StoreRow(layout, pages'[first].content, row, bytes, nulls);
    HeldIsShown(layout, content, row, w);
    RowStored(layout, pages', chain, first, pg, writes, w, content);
    pages' := pages'[first := pages'[first].(content := content)];
    StoreKeeps(layout, pages, ptrs, chains, writes, pages', first, chain, w, at);
    chains' := chains[pg := chain];
  }

  function RowsPerPage(wanted: nat, maxItems: nat): (size: nat)
    ensures size > 0
  {
    var size := if wanted > maxItems then maxItems else wanted;
    if size == 0 then 4096 else size
  }

  lemma PagesSuffice(maxItems: nat, size: nat)
    requires size > 0
    ensures (maxItems + size - 1) / size >= 0
    ensures forall off: nat :: off < maxItems ==> off / size < (maxItems + size - 1) / size
  {
    Divide(maxItems + size - 1, size);
    forall off: nat | off < maxItems
      ensures off / size < (maxItems + size - 1) / size
    {
      Divide(off, size);
      SmallerQuotient(off / size, off % size, (maxItems + size - 1) / size, (maxItems + size - 1) % size, size);
    }
  }

  lemma SmallerQuotient(q: int, r: int, n: int, rest: int, size: nat)
    requires 0 <= q && 0 <= n && 0 <= r < size && 0 <= rest < size && q * size + r + size <= n * size + rest
    ensures q < n
  {
    if n <= q {
      MulMonotone(n, q, size);
    }
  }

  class ColumnFamily {
    const layout: Layout
    const fields: seq<Field>
    var pages: map<nat, Page>
    var pagePtr: seq<nat>             // the newest version of each page, 0 before its first write
    ghost var chains: seq<seq<nat>>
    ghost var writes: seq<Write>      // what was written, in order

    ghost predicate Valid()
      reads this
    {
      && layout.Valid() && |fields| == layout.columnNum
      && (forall p :: 0 <= p < |fields| ==> fields[p].offset + fields[p].size <= layout.vlen)
      && FieldsApart(fields)
      && StoreOk(layout, pages, pagePtr, chains, writes)
    }

    /** A page holds no more rows than there are items, and 4096 if no number is given.  The places of the
        properties are those that numbering them gives. */
    constructor (layout: Layout, fields: seq<Field>, maxItems: nat)
      requires |fields| == layout.columnNum && maxItems > 0
      requires forall p :: 0 <= p < |fields| ==> fields[p].offset + fields[p].size <= layout.vlen
      requires forall p, q :: 0 <= p < q < |fields| ==> fields[p].offset + fields[p].size <= fields[q].offset
      ensures Valid() && writes == [] && this.fields == fields
      ensures this.layout == layout.(pageSize := RowsPerPage(layout.pageSize, maxItems))
      ensures |pagePtr| == (maxItems + this.layout.pageSize - 1) / this.layout.pageSize
      ensures forall off: nat :: off < maxItems ==> off / this.layout.pageSize < |pagePtr|
    {
      var size := RowsPerPage(layout.pageSize, maxItems);
      this.layout, this.fields := layout.(pageSize := size), fields;
      var pageNum := (maxItems + size - 1) / size;
      PagesSuffice(maxItems, size);
      pages, pagePtr := map[], seq(pageNum, _ => 0);
      chains, writes := seq(pageNum, _ => []), [];
    }

    /** The part of `insert` that is about this family: a whole row and its nulls, at version `ver`. */
    method Insert(off: nat, bytes: seq<Byte>, nulls: seq<bool>, ver: int, at: nat, junk: seq<Byte>)
      requires Valid() && off / layout.pageSize < |pagePtr|
      requires |bytes| == layout.vlen && |nulls| == layout.columnNum
      requires NoneAfter(writes, off / layout.pageSize, ver)
      requires at != 0 && at !in pages && |junk| == layout.PageBytes()
      modifies this
      ensures Valid() && |pagePtr| == old(|pagePtr|)
      ensures writes == old(writes) + [Write(off / layout.pageSize, off % layout.pageSize, bytes, nulls, ver)]
      ensures Last(off, ver).Some? && Last(off, ver).value.bytes == bytes && Last(off, ver).value.nulls == nulls
    {
      assert layout.pageSize > 0;
      LastWriteAppend(writes, Write(off / layout.pageSize, off % layout.pageSize, bytes, nulls, ver),
                      off / layout.pageSize, off % layout.pageSize, ver);
      hide *;
      InsertRow(off / layout.pageSize, off % layout.pageSize, bytes, nulls, ver, at, junk);
    }

    method InsertRow(pg: nat, row: nat, bytes: seq<Byte>, nulls: seq<bool>, ver: int, at: nat, junk: seq<Byte>)
      requires Valid() && pg < |pagePtr| && row < layout.pageSize
      requires |bytes| == layout.vlen && |nulls| == layout.columnNum && NoneAfter(writes, pg, ver)
      requires at != 0 && at !in pages && |junk| == layout.PageBytes()
      modifies this
      ensures Valid() && |pagePtr| == old(|pagePtr|)
      ensures writes == old(writes) + [Write(pg, row, bytes, nulls, ver)]
    {
      hide StoreOk, NoneAfter, Layout.PageBytes;
      ghost var w := Write(pg, row, bytes, nulls, ver);
      var newPages, first, lists :=
        WriteRow(layout, pages, pagePtr, chains, writes, pg, row, bytes, nulls, ver, at, junk);
      pages, pagePtr, chains, writes := newPages, pagePtr[pg := first], lists, writes + [w];
    }

    /** The newest write to row `off` that a reader of version `r` may see. */
    ghost function Last(off: nat, r: int): (last: Option<Write>)
      requires Valid()
      reads this
      ensures last.Some? ==> |last.value.bytes| == layout.vlen && |last.value.nulls| == |fields|
    {
      LastWriteIs(writes, off / layout.pageSize, off % layout.pageSize, r);
      LastWrite(writes, off / layout.pageSize, off % layout.pageSize, r)
    }

    /** The page of row `off` had been written to by version `r`. */
    ghost predicate PageVisible(off: nat, r: int)
      requires layout.Valid()
      reads this
    {
      exists i :: 0 <= i < |writes| && writes[i].pg == off / layout.pageSize && writes[i].ver <= r
    }

    /** The newest version of the page of row `off` that a reader of version `r` may see: all readers take
        what they return from this one. */
    ghost function Newest(off: nat, r: int): (found: Found)
      requires Valid() && off / layout.pageSize < |pagePtr|
      reads this
      ensures found.Version? ==> found.addr in pages && |pages[found.addr].content| == layout.PageBytes()
    {
      var pg := off / layout.pageSize;
      assert ChainOk(layout, pages, chains[pg], pagePtr[pg], pg, writes);
      FoundShows(layout, pages, chains[pg], pagePtr[pg], pg, writes, r, 0);
      NewestVersion(pages, chains[pg], r)
    }

    /** The row in that version, and whether a property is null in it. */
    ghost function NewestRow(off: nat, r: int): (bytes: seq<Byte>)
      requires Valid() && off / layout.pageSize < |pagePtr| && Newest(off, r).Version?
      reads this
      ensures |bytes| == layout.vlen
    {
      RowBytes(layout, pages[Newest(off, r).addr].content, off % layout.pageSize)
    }

    ghost predicate NewestIsNull(off: nat, prop: nat, r: int)
      requires Valid() && off / layout.pageSize < |pagePtr| && prop < |fields| && Newest(off, r).Version?
      reads this
    {
      IsNull(layout, pages[Newest(off, r).addr].content, off % layout.pageSize, prop)
    }

    lemma NullIs(off: nat, prop: nat, r: int)
      requires Valid() && off / layout.pageSize < |pagePtr| && prop < |fields| && Newest(off, r).Version?
      ensures NewestIsNull(off, prop, r) <==>
              IsNull(layout, pages[Newest(off, r).addr].content, off % layout.pageSize, prop)
    {
      hide Newest;
    }

    lemma NewestRowIsLast(off: nat, r: int)
      requires Valid() && off / layout.pageSize < |pagePtr| && PageVisible(off, r)
      ensures Newest(off, r).Version?
      ensures Last(off, r).Some? ==> NewestRow(off, r) == Last(off, r).value.bytes
      ensures Last(off, r).Some? ==>
                forall prop :: 0 <= prop < |fields| ==> (NewestIsNull(off, prop, r) <==> Last(off, r).value.nulls[prop])
    {
      NewestShows(off, r);
      hide PageVisible, LastWrite, StoreOk;
    }

    /** What that version is and shows. */
    lemma NewestShows(off: nat, r: int)
      requires Valid() && off / layout.pageSize < |pagePtr|
      ensures Newest(off, r).Wild? <==> !PageVisible(off, r)
      ensures Newest(off, r).Version? ==>
                var v := pages[Newest(off, r).addr].ver;
                && v <= r && WrittenAt(writes, off / layout.pageSize, v)
                && forall w <- writes :: w.pg == off / layout.pageSize && w.ver <= r ==> w.ver <= v
      ensures Last(off, r).Some? ==>
                && Newest(off, r).Version?
                && RowShows(layout, pages[Newest(off, r).addr].content, off % layout.pageSize, Last(off, r).value)
    {
      var pg, row := off / layout.pageSize, off % layout.pageSize;
      assert ChainOk(layout, pages, chains[pg], pagePtr[pg], pg, writes) && row < layout.pageSize;
      assert Newest(off, r) == NewestVersion(pages, chains[pg], r);
      assert Last(off, r) == LastWrite(writes, pg, row, r);
      VisibleMeans(off, r);
      hide *;
      FoundShows(layout, pages, chains[pg], pagePtr[pg], pg, writes, r, row);
    }

    lemma VisibleMeans(off: nat, r: int)
      requires layout.Valid()
      ensures !PageVisible(off, r) <==> forall w <- writes :: w.pg == off / layout.pageSize ==> r < w.ver
    {
      if w :| w in writes && w.pg == off / layout.pageSize && w.ver <= r {
        var i :| 0 <= i < |writes| && writes[i] == w;
      }
    }

    /** The search every reader starts with. */
    method FindRow(off: nat, r: int) returns (found: Found)
      requires Valid() && off / layout.pageSize < |pagePtr|
      ensures found == Newest(off, r)
    {
      var pg := off / layout.pageSize;
      assert ChainOk(layout, pages, chains[pg], pagePtr[pg], pg, writes);
      found := FindVersion(layout, pages, pagePtr[pg], r, chains[pg]);
    }

    /** `GetRowDataAddr`: the version and the place of the row in it. */
    method GetRowDataAddr(off: nat, r: int) returns (found: Found, index: nat)
      requires Valid() && off / layout.pageSize < |pagePtr|
      ensures found == Newest(off, r) && index == layout.RowStart(off % layout.pageSize)
      ensures index == (layout.pageSize * layout.columnNum + 7) / 8 + off % layout.pageSize * layout.vlen
      ensures index + layout.vlen <= layout.PageBytes()
      ensures Last(off, r).Some? ==>
                found.Version? && pages[found.addr].content[index..index + layout.vlen] == Last(off, r).value.bytes
    {
      found := FindRow(off, r);
      index := layout.RowStart(off % layout.pageSize);
      RowInside(layout, off % layout.pageSize);
      NewestShows(off, r);
    }

    /** `GetDataAddr`: the version and the place of one property in it. */
    method GetDataAddr(off: nat, prop: nat, r: int) returns (found: Found, index: nat)
      requires Valid() && off / layout.pageSize < |pagePtr| && prop < |fields|
      ensures found == Newest(off, r) && index == layout.RowStart(off % layout.pageSize) + fields[prop].offset
      ensures index + fields[prop].size <= layout.PageBytes() && fields[prop].offset + fields[prop].size <= layout.vlen
      ensures found.Version? ==>
                && found.addr in pages && |pages[found.addr].content| == layout.PageBytes()
                && pages[found.addr].content[index..index + fields[prop].size] ==
                    FieldOf(fields[prop], NewestRow(off, r))
      ensures Last(off, r).Some? ==> found.Version? && NewestRow(off, r) == Last(off, r).value.bytes
    {
      FieldPlace(off, prop, r);
      assert layout.pageSize > 0;
      hide *;
      found := FindRow(off, r);
      index := layout.RowStart(off % layout.pageSize) + fields[prop].offset;
    }

    lemma FieldPlace(off: nat, prop: nat, r: int)
      requires Valid() && off / layout.pageSize < |pagePtr| && prop < |fields|
      ensures fields[prop].offset + fields[prop].size <= layout.vlen
      ensures layout.RowStart(off % layout.pageSize) + fields[prop].offset + fields[prop].size <= layout.PageBytes()
      ensures Newest(off, r).Version? ==>
                var page := pages[Newest(off, r).addr];
                var index := layout.RowStart(off % layout.pageSize) + fields[prop].offset;
                && |page.content| == layout.PageBytes()
                && page.content[index..index + fields[prop].size] == FieldOf(fields[prop], NewestRow(off, r))
      ensures Last(off, r).Some? ==> Newest(off, r).Version? && NewestRow(off, r) == Last(off, r).value.bytes
    {
      hide PageVisible, LastWrite, StoreOk, PageShows, RowShows, NoneAfter, Layout.PageBytes, IsNull, WrittenAt;
      var row := off % layout.pageSize;
      assert fields[prop].offset + fields[prop].size <= layout.vlen && row < layout.pageSize;
      NewestShows(off, r);
      RowInside(layout, row);
      if Newest(off, r).Version? {
        var content := pages[Newest(off, r).addr].content;
        FieldInRow(layout, content, row, fields[prop]);
        if Last(off, r).Some? {
          ShownBytes(layout, content, row, Last(off, r).value);
        }
      }
    }

    /** `GetData`: the property's bytes in the newest version. */
    method GetData(off: nat, prop: nat, r: int) returns (data: seq<Byte>)
      requires Valid() && off / layout.pageSize < |pagePtr| && prop < |fields| && PageVisible(off, r)
      ensures Newest(off, r).Version? && fields[prop].offset + fields[prop].size <= layout.vlen
      ensures data == FieldOf(fields[prop], NewestRow(off, r))
      ensures Last(off, r).Some? ==> data == FieldOf(fields[prop], Last(off, r).value.bytes)
    {
      NewestRowIsLast(off, r);
      hide *;
      var found, index := GetDataAddr(off, prop, r);
      data := pages[found.addr].content[index..index + fields[prop].size];
    }

    /** `VertexPropValueIsValid`: the null bit of the property, in the same version. */
    method ValueIsValid(off: nat, prop: nat, r: int) returns (valid: bool)
      requires Valid() && off / layout.pageSize < |pagePtr| && prop < |fields| && PageVisible(off, r)
      ensures Newest(off, r).Version?
      ensures valid == !NewestIsNull(off, prop, r)
      ensures (off % layout.pageSize * layout.columnNum + prop) / 8 < |pages[Newest(off, r).addr].content|
      ensures valid == !GetBit(pages[Newest(off, r).addr].content, off % layout.pageSize * layout.columnNum + prop)
      ensures Last(off, r).Some? ==> valid == !Last(off, r).value.nulls[prop]
    {
      NewestRowIsLast(off, r);
      assert layout.pageSize > 0 && |fields| == layout.columnNum;
      hide *;
      NullBitAt(layout, pages[Newest(off, r).addr].content, off % layout.pageSize, prop);
      NullIs(off, prop, r);
      var found := FindRow(off, r);
      valid := !IsNull(layout, pages[found.addr].content, off % layout.pageSize, prop);
    }

    /** `update`: the row is written only if a null flag changes or a value that is not null does.  `bytes`
        holds the new values, with a key of its own for every text, and `text` is what the string store
        holds for a key. */
    method Update(off: nat, bytes: seq<Byte>, nulls: seq<bool>, text: seq<Byte> -> string, ver: int, at: nat,
                  junk: seq<Byte>)
      returns (changed: bool)
      requires Valid() && off / layout.pageSize < |pagePtr|
      requires |bytes| == layout.vlen && |nulls| == layout.columnNum
      requires NoneAfter(writes, off / layout.pageSize, ver) && Last(off, ver).Some?
      requires at != 0 && at !in pages && |junk| == layout.PageBytes()
      modifies this
      ensures Valid() && |pagePtr| == old(|pagePtr|)
      ensures !changed <==> SameValues(fields, old(Last(off, ver)).value, bytes, nulls, text)
      ensures writes == old(writes) +
                if changed then
                  [Write(off / layout.pageSize, off % layout.pageSize,
                         KeepTexts(fields, old(Last(off, ver)).value, bytes, nulls, text, |fields|), nulls, ver)]
                else []
      ensures changed <==>
                exists p :: 0 <= p < |fields| &&
                  (nulls[p] != old(Last(off, ver)).value.nulls[p] ||
                   (!nulls[p] &&
                    var f, was := fields[p], old(Last(off, ver)).value.bytes;
                    if f.isText then
                      text(was[f.offset..f.offset + f.size]) != text(bytes[f.offset..f.offset + f.size])
                    else
                      was[f.offset..f.offset + f.size] != bytes[f.offset..f.offset + f.size]))
      ensures Last(off, ver).Some? && Last(off, ver).value.nulls == nulls
      ensures forall p :: 0 <= p < |fields| && !nulls[p] ==>
                var f, row := fields[p], Last(off, ver).value.bytes;
                if f.isText then
                  text(row[f.offset..f.offset + f.size]) == text(bytes[f.offset..f.offset + f.size])
                else
                  row[f.offset..f.offset + f.size] == bytes[f.offset..f.offset + f.size]
      ensures forall p ::
                0 <= p < |fields| && fields[p].isText && !nulls[p] && !old(Last(off, ver)).value.nulls[p] ==>
                var f, was, row := fields[p], old(Last(off, ver)).value.bytes, Last(off, ver).value.bytes;
                text(was[f.offset..f.offset + f.size]) == text(bytes[f.offset..f.offset + f.size]) ==>
                row[f.offset..f.offset + f.size] == was[f.offset..f.offset + f.size]
    {
      hide SameValues, KeepTexts, RowShows, NoneAfter, LastWrite, StoreOk, RowHolds, PageShows, PageVisible,
        FieldsApart, WrittenAt;
      NewestShows(off, ver);
      var page := FindRow(off, ver);
      ghost var last := Last(off, ver).value;
      RowReadsNew(fields, last, bytes, nulls, text);
      KeysStay(fields, last, bytes, nulls, text);
      SameValuesMeans(fields, last, bytes, nulls, text);
      var kept;
      changed, kept := Differs(pages[page.addr].content, off % layout.pageSize, bytes, nulls, text, last);
      if changed {
        Insert(off, kept, nulls, ver, at, junk);
      }
    }

    /** Whether the row changes, and the row to be written: a text that does not change keeps its old key. */
    method Differs(content: seq<Byte>, row: nat, bytes: seq<Byte>, nulls: seq<bool>, text: seq<Byte> -> string,
                   ghost last: Write)
      returns (changed: bool, kept: seq<Byte>)
      requires |fields| == layout.columnNum && row < layout.pageSize && |content| == layout.PageBytes()
      requires forall p :: 0 <= p < |fields| ==> fields[p].offset + fields[p].size <= layout.vlen
      requires |bytes| == |last.bytes| == layout.vlen && |nulls| == |last.nulls| == layout.columnNum
      requires RowShows(layout, content, row, last)
      ensures !changed <==> SameValues(fields, last, bytes, nulls, text)
      ensures changed <==>
                exists p :: 0 <= p < |fields| &&
                  (nulls[p] != last.nulls[p] ||
                   (!nulls[p] &&
                    var f := fields[p];
                    if f.isText then
                      text(last.bytes[f.offset..f.offset + f.size]) != text(bytes[f.offset..f.offset + f.size])
                    else
                      last.bytes[f.offset..f.offset + f.size] != bytes[f.offset..f.offset + f.size]))
      ensures kept == KeepTexts(fields, last, bytes, nulls, text, |fields|)
    {
      hide RowHolds, RowShows, IsNull, RowBytes, NoneAfter, LastWrite, PageShows, StoreOk, FieldOf, WithField,
        SameField, Layout.PageBytes, FieldsApart;
      SameValuesMeans(fields, last, bytes, nulls, text);
      changed, kept := false, bytes;
      for prop := 0 to |fields|
        invariant !changed <==> forall p :: 0 <= p < prop ==> SameValue(fields[p], last, bytes, nulls, text, p)
        invariant kept == KeepTexts(fields, last, bytes, nulls, text, prop)
      {
        OldField(layout, content, row, last, fields[prop], prop);
        var oldValueIsNull := IsNull(layout, content, row, prop);
        var index := layout.RowStart(row) + fields[prop].offset;
        var was := content[index..index + fields[prop].size];
        if nulls[prop] {
          if !oldValueIsNull {
            changed := true;
          }
        } else if oldValueIsNull || !SameField(fields[prop], was, FieldOf(fields[prop], bytes), text) {
          changed := true;
        } else if fields[prop].isText {
          kept := WithField(fields[prop], kept, was);
        }
      }
    }
  }

  function FieldOf(f: Field, bytes: seq<Byte>): (value: seq<Byte>)
    requires f.offset + f.size <= |bytes|
    ensures |value| == f.size
  {
    bytes[f.offset..f.offset + f.size]
  }

  lemma NullBitAt(layout: Layout, content: seq<Byte>, row: nat, prop: nat)
    requires |content| == layout.PageBytes() && row < layout.pageSize && prop < layout.columnNum
    ensures (row * layout.columnNum + prop) / 8 < |content|
    ensures IsNull(layout, content, row, prop) == GetBit(content, row * layout.columnNum + prop)
  {
    NullIndexInjective(layout, row, prop, row, prop);
  }

  lemma ShownBytes(layout: Layout, content: seq<Byte>, row: nat, w: Write)
    requires |content| == layout.PageBytes() && row < layout.pageSize && RowShows(layout, content, row, w)
    ensures RowBytes(layout, content, row) == w.bytes
  {
  }

  /** The old value of a property, as it stands in the page. */
  lemma OldField(layout: Layout, content: seq<Byte>, row: nat, w: Write, f: Field, prop: nat)
    requires |content| == layout.PageBytes() && row < layout.pageSize && |w.bytes| == layout.vlen
    requires RowShows(layout, content, row, w) && f.offset + f.size <= layout.vlen && prop < layout.columnNum
    ensures var index := layout.RowStart(row) + f.offset;
            index + f.size <= |content| && content[index..index + f.size] == FieldOf(f, w.bytes)
    ensures prop < |w.nulls| && IsNull(layout, content, row, prop) == w.nulls[prop]
  {
    FieldInRow(layout, content, row, f);
  }

  function WithField(f: Field, bytes: seq<Byte>, value: seq<Byte>): (after: seq<Byte>)
    requires f.offset + f.size <= |bytes| && |value| == f.size
    ensures |after| == |bytes|
  {
    bytes[..f.offset] + value + bytes[f.offset + f.size..]
  }

  /** Two values of a property are the same: texts are compared, not their keys. */
  predicate SameField(f: Field, was: seq<Byte>, now: seq<Byte>, text: seq<Byte> -> string) {
    if f.isText then text(was) == text(now) else was == now
  }

  /** Property `p` reads the same, before and after. */
  predicate SameValue(f: Field, was: Write, bytes: seq<Byte>, nulls: seq<bool>, text: seq<Byte> -> string, p: nat)
    requires f.offset + f.size <= |bytes| == |was.bytes| && p < |nulls| == |was.nulls|
  {
    nulls[p] == was.nulls[p] && (!nulls[p] ==> SameField(f, FieldOf(f, was.bytes), FieldOf(f, bytes), text))
  }

  predicate SameValues(fields: seq<Field>, was: Write, bytes: seq<Byte>, nulls: seq<bool>, text: seq<Byte> -> string)
    requires |bytes| == |was.bytes| && |nulls| == |was.nulls| == |fields|
    requires forall p :: 0 <= p < |fields| ==> fields[p].offset + fields[p].size <= |bytes|
  {
    forall p :: 0 <= p < |fields| ==> SameValue(fields[p], was, bytes, nulls, text, p)
  }

  /** The new row, with the old keys of the texts among the first `n` properties that stay the same. */
  function KeepTexts(fields: seq<Field>, was: Write, bytes: seq<Byte>, nulls: seq<bool>, text: seq<Byte> -> string,
                     n: nat): (kept: seq<Byte>)
    requires |bytes| == |was.bytes| && |nulls| == |was.nulls| == |fields| && n <= |fields|
    requires forall p :: 0 <= p < |fields| ==> fields[p].offset + fields[p].size <= |bytes|
    ensures |kept| == |bytes|
  {
    if n == 0 then bytes
    else
      var f, rest := fields[n - 1], KeepTexts(fields, was, bytes, nulls, text, n - 1);
      if f.isText && !nulls[n - 1] && !was.nulls[n - 1] && SameField(f, FieldOf(f, was.bytes), FieldOf(f, bytes), text)
      then WithField(f, rest, FieldOf(f, was.bytes)) else rest
  }

  /** The bytes of different properties do not overlap. */
  predicate FieldsApart(fields: seq<Field>) {
    forall p, q :: 0 <= p < q < |fields| ==> fields[p].offset + fields[p].size <= fields[q].offset
  }

  /** What each property of the row to be written holds: the old key where the text stays the same. */
  lemma {:induction false} KeptField(fields: seq<Field>, was: Write, bytes: seq<Byte>, nulls: seq<bool>,
                                     text: seq<Byte> -> string, n: nat, p: nat)
    requires |bytes| == |was.bytes| && |nulls| == |was.nulls| == |fields| && n <= |fields| && p < |fields|
    requires forall p :: 0 <= p < |fields| ==> fields[p].offset + fields[p].size <= |bytes|
    requires FieldsApart(fields)
    ensures var f := fields[p];
            FieldOf(f, KeepTexts(fields, was, bytes, nulls, text, n)) ==
            if p < n && f.isText && !nulls[p] && !was.nulls[p]
               && text(FieldOf(f, was.bytes)) == text(FieldOf(f, bytes)) then FieldOf(f, was.bytes)
            else FieldOf(f, bytes)
    decreases n
  {
    hide FieldOf, WithField;
    if n > 0 {
      KeptField(fields, was, bytes, nulls, text, n - 1, p);
      var f := fields[n - 1];
      var rest := KeepTexts(fields, was, bytes, nulls, text, n - 1);
      FieldAfter(f, rest, FieldOf(f, was.bytes), fields[p], p == n - 1);
    }
  }

  /** The row written by an update reads as the new values, text for text and byte for byte. */
  lemma UpdatedRowReads(fields: seq<Field>, was: Write, bytes: seq<Byte>, nulls: seq<bool>, text: seq<Byte> -> string,
                        p: nat)
    requires |bytes| == |was.bytes| && |nulls| == |was.nulls| == |fields| && p < |fields|
    requires forall p :: 0 <= p < |fields| ==> fields[p].offset + fields[p].size <= |bytes|
    requires FieldsApart(fields)
    ensures SameField(fields[p], FieldOf(fields[p], bytes),
                      FieldOf(fields[p], KeepTexts(fields, was, bytes, nulls, text, |fields|)), text)
  {
    hide FieldOf, KeepTexts, FieldsApart;
    KeptField(fields, was, bytes, nulls, text, |fields|, p);
  }

  /** What the rows of an update have to differ in. */
  lemma SameValuesMeans(fields: seq<Field>, was: Write, bytes: seq<Byte>, nulls: seq<bool>, text: seq<Byte> -> string)
    requires |bytes| == |was.bytes| && |nulls| == |was.nulls| == |fields|
    requires forall p :: 0 <= p < |fields| ==> fields[p].offset + fields[p].size <= |bytes|
    ensures SameValues(fields, was, bytes, nulls, text) ==> was.nulls == nulls
    ensures !SameValues(fields, was, bytes, nulls, text) <==>
              exists p :: 0 <= p < |fields| &&
                (nulls[p] != was.nulls[p] ||
                 (!nulls[p] &&
                  var f := fields[p];
                  if f.isText then
                    text(was.bytes[f.offset..f.offset + f.size]) != text(bytes[f.offset..f.offset + f.size])
                  else
                    was.bytes[f.offset..f.offset + f.size] != bytes[f.offset..f.offset + f.size]))
  {
    if SameValues(fields, was, bytes, nulls, text) {
      forall p | 0 <= p < |nulls|
        ensures nulls[p] == was.nulls[p]
      {
        assert SameValue(fields[p], was, bytes, nulls, text, p);
      }
    }
  }

  /** Whether an update writes a row or leaves the old one: every property reads as its new value. */
  lemma RowReadsNew(fields: seq<Field>, was: Write, bytes: seq<Byte>, nulls: seq<bool>, text: seq<Byte> -> string)
    requires |bytes| == |was.bytes| && |nulls| == |was.nulls| == |fields| && FieldsApart(fields)
    requires forall p :: 0 <= p < |fields| ==> fields[p].offset + fields[p].size <= |bytes|
    ensures var row := if SameValues(fields, was, bytes, nulls, text) then was.bytes
                       else KeepTexts(fields, was, bytes, nulls, text, |fields|);
            forall p :: 0 <= p < |fields| && !nulls[p] ==>
              var f := fields[p];
              if f.isText then
                text(row[f.offset..f.offset + f.size]) == text(bytes[f.offset..f.offset + f.size])
              else
                row[f.offset..f.offset + f.size] == bytes[f.offset..f.offset + f.size]
  {
    forall p | 0 <= p < |fields|
      ensures SameValues(fields, was, bytes, nulls, text) ==> SameValue(fields[p], was, bytes, nulls, text, p)
      ensures SameField(fields[p], FieldOf(fields[p], bytes),
                        FieldOf(fields[p], KeepTexts(fields, was, bytes, nulls, text, |fields|)), text)
    {
      UpdatedRowReads(fields, was, bytes, nulls, text, p);
    }
  }

  /** A text that stays the same keeps its key. */
  lemma KeysStay(fields: seq<Field>, was: Write, bytes: seq<Byte>, nulls: seq<bool>, text: seq<Byte> -> string)
    requires |bytes| == |was.bytes| && |nulls| == |was.nulls| == |fields| && FieldsApart(fields)
    requires forall p :: 0 <= p < |fields| ==> fields[p].offset + fields[p].size <= |bytes|
    ensures forall p :: 0 <= p < |fields| && fields[p].isText && !nulls[p] && !was.nulls[p] ==>
              var f, row := fields[p], KeepTexts(fields, was, bytes, nulls, text, |fields|);
              text(was.bytes[f.offset..f.offset + f.size]) == text(bytes[f.offset..f.offset + f.size]) ==>
              row[f.offset..f.offset + f.size] == was.bytes[f.offset..f.offset + f.size]
  {
    hide KeepTexts, FieldsApart;
    forall p | 0 <= p < |fields| && fields[p].isText && !nulls[p] && !was.nulls[p]
      ensures var f, row := fields[p], KeepTexts(fields, was, bytes, nulls, text, |fields|);
              text(was.bytes[f.offset..f.offset + f.size]) == text(bytes[f.offset..f.offset + f.size]) ==>
              row[f.offset..f.offset + f.size] == was.bytes[f.offset..f.offset + f.size]
    {
      KeptField(fields, was, bytes, nulls, text, |fields|, p);
    }
  }

  lemma FieldAfter(f: Field, bytes: seq<Byte>, value: seq<Byte>, g: Field, same: bool)
    requires f.offset + f.size <= |bytes| && g.offset + g.size <= |bytes| && |value| == f.size
    requires if same then g == f else f.offset + f.size <= g.offset || g.offset + g.size <= f.offset
    ensures FieldOf(g, WithField(f, bytes, value)) == if same then value else FieldOf(g, bytes)
  {
    var front, tail := bytes[..f.offset], bytes[f.offset + f.size..];
    if !same && f.offset + f.size <= g.offset {
      assert WithField(f, bytes, value) == (front + value) + tail;
    }
  }

  lemma FieldInRow(layout: Layout, content: seq<Byte>, row: nat, f: Field)
    requires |content| == layout.PageBytes() && row < layout.pageSize && f.offset + f.size <= layout.vlen
    ensures var index := layout.RowStart(row) + f.offset;
            index + f.size <= layout.PageBytes() &&
            content[index..index + f.size] == FieldOf(f, RowBytes(layout, content, row))
  {
    RowInside(layout, row);
    SliceOfSlice(content, layout.RowStart(row), layout.RowStart(row) + layout.vlen, f.offset, f.offset + f.size);
  }

  /** Later versions leave every read of version `r` as it was. */
  lemma {:induction false} ReadsStable(writes: seq<Write>, more: seq<Write>, pg: nat, row: nat, r: int)
    requires forall w <- more :: r < w.ver
    ensures LastWrite(writes + more, pg, row, r) == LastWrite(writes, pg, row, r)
    decreases |more|
  {
    if more == [] {
      assert writes + more == writes;
    } else {
      var all := writes + more;
      assert all[..|all| - 1] == writes + more[..|more| - 1];
      assert all[|all| - 1] == more[|more| - 1] && more[|more| - 1] in more;
      ReadsStable(writes, more[..|more| - 1], pg, row, r);
    }
  }

  lemma HeldIsShown(layout: Layout, content: seq<Byte>, row: nat, w: Write)
    requires |content| == layout.PageBytes() && row < layout.pageSize && |w.nulls| == layout.columnNum
    requires RowHolds(layout, content, row, w.bytes, w.nulls)
    ensures RowShows(layout, content, row, w)
  {
  }

  lemma ReadyFacts(layout: Layout, pages: map<nat, Page>, chain: seq<nat>, first: nat, pg: nat, writes: seq<Write>,
                   ver: int, row: nat)
    requires ReadyToWrite(layout, pages, chain, first, pg, writes, ver, row)
    ensures first != 0 && first in pages && |pages[first].content| == layout.PageBytes() && first in chain
  {
    assert chain[0] == first;
  }
}
