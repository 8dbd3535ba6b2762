/** The bytes of a property page: one null bit per row and property, then the rows. */
module PageLayout {
  import opened IdParser

  type Byte = bv8

  /** `BYTE_SIZE`. */
  function ByteSize(bits: nat): nat {
    (bits + 7) / 8
  }

  function Mask(k: nat): Byte
    requires k < 8
  {
    if k == 0 then 1 else if k == 1 then 2 else if k == 2 then 4 else if k == 3 then 8
    else if k == 4 then 16 else if k == 5 then 32 else if k == 6 then 64 else 128
  }

  function HasBit(b: Byte, k: nat): bool
    requires k < 8
  {
    b & Mask(k) != 0
  }

  function WithBit(b: Byte, k: nat): Byte
    requires k < 8
  {
    b | Mask(k)
  }

  function WithoutBit(b: Byte, k: nat): Byte
    requires k < 8
  {
    b & !Mask(k)
  }

  function GetBit(data: seq<Byte>, i: nat): bool
    requires i / 8 < |data|
  {
    HasBit(data[i / 8], i % 8)
  }

  function SetBit(data: seq<Byte>, i: nat): (after: seq<Byte>)
    requires i / 8 < |data|
    ensures |after| == |data|
  {
    data[i / 8 := WithBit(data[i / 8], i % 8)]
  }

  function ResetBit(data: seq<Byte>, i: nat): (after: seq<Byte>)
    requires i / 8 < |data|
    ensures |after| == |data|
  {
    data[i / 8 := WithoutBit(data[i / 8], i % 8)]
  }

  lemma MasksApart(b: Byte, k: nat, l: nat)
    requires k < 8 && l < 8
    ensures HasBit(WithBit(b, k), l) <==> k == l || HasBit(b, l)
    ensures HasBit(WithoutBit(b, k), l) <==> k != l && HasBit(b, l)
  {
    if k != l {
      MasksDisjoint(k, l);
    }
    hide Mask;
  }

  lemma MasksDisjoint(k: nat, l: nat)
    requires k < 8 && l < 8 && k != l
    ensures Mask(k) & Mask(l) == 0
  {
    if k < 4 {
      if l < 4 {
      } else {
      }
    } else {
      if l < 4 {
      } else {
      }
    }
  }

  /** Setting or resetting a bit changes that bit and no other. */
  lemma BitsAfter(data: seq<Byte>, i: nat, j: nat)
    requires i / 8 < |data| && j / 8 < |data|
    ensures GetBit(SetBit(data, i), j) == (i == j || GetBit(data, j))
    ensures GetBit(ResetBit(data, i), j) == (i != j && GetBit(data, j))
  {
    hide HasBit, WithBit, WithoutBit, Mask;
    MasksApart(data[j / 8], i % 8, j % 8);
  }

  // ---------------------------------------------------------------- rows and null bits

  /** One column family: rows per page, bytes per row, properties. */
  datatype Layout = Layout(pageSize: nat, vlen: nat, columnNum: nat)
  {
    predicate Valid() {
      pageSize > 0
    }

    function BitmapBytes(): nat {
      ByteSize(pageSize * columnNum)
    }

    function PageBytes(): nat {
      BitmapBytes() + pageSize * vlen
    }

    function NullIndex(row: nat, prop: nat): nat {
      row * columnNum + prop
    }

    function RowStart(row: nat): nat {
      BitmapBytes() + row * vlen
    }
  }

  /** The null bits of different rows or properties are different bits, all of them before the rows. */
  lemma NullIndexInjective(layout: Layout, row: nat, prop: nat, row': nat, prop': nat)
    requires row < layout.pageSize && row' < layout.pageSize && prop < layout.columnNum && prop' < layout.columnNum
    ensures layout.NullIndex(row, prop) == layout.NullIndex(row', prop') <==> row == row' && prop == prop'
    ensures layout.NullIndex(row, prop) / 8 < layout.BitmapBytes()
  {
    hide ByteSize;
    CellsApart(row, prop, row', prop', layout.columnNum);
    CellBelow(row, layout.pageSize, prop, layout.columnNum);
    ByteOfBit(layout.NullIndex(row, prop), layout.pageSize * layout.columnNum);
  }

  lemma CellsApart(row: nat, col: nat, row': nat, col': nat, cols: nat)
    requires col < cols && col' < cols
    ensures row * cols + col == row' * cols + col' <==> row == row' && col == col'
  {
    PackedLow(row * cols + col, row, cols, col);
    PackedLow(row' * cols + col', row', cols, col');
  }

  lemma CellBelow(row: nat, rows: nat, col: nat, cols: nat)
    requires row < rows && col < cols
    ensures row * cols + col < rows * cols
  {
    MulMonotone(row + 1, rows, cols);
    assert (row + 1) * cols == row * cols + cols;
  }

  lemma ByteOfBit(i: nat, bits: nat)
    requires i < bits
    ensures i / 8 < ByteSize(bits)
  {
  }

  /** Rows do not overlap each other or the null bits, and stay inside the page. */
  lemma RowsDisjoint(layout: Layout, row: nat, row': nat)
    requires row < row' < layout.pageSize
    ensures layout.BitmapBytes() <= layout.RowStart(row)
    ensures layout.RowStart(row) + layout.vlen <= layout.RowStart(row')
    ensures layout.RowStart(row') + layout.vlen <= layout.PageBytes()
  {
    RowInside(layout, row');
    MulMonotone(row + 1, row', layout.vlen);
    assert (row + 1) * layout.vlen == row * layout.vlen + layout.vlen;
  }

  lemma RowInside(layout: Layout, row: nat)
    requires row < layout.pageSize
    ensures layout.BitmapBytes() <= layout.RowStart(row)
    ensures layout.RowStart(row) + layout.vlen <= layout.PageBytes()
  {
    MulMonotone(row + 1, layout.pageSize, layout.vlen);
    assert (row + 1) * layout.vlen == row * layout.vlen + layout.vlen;
  }

  function RowBytes(layout: Layout, content: seq<Byte>, row: nat): (bytes: seq<Byte>)
    requires |content| == layout.PageBytes() && row < layout.pageSize
    ensures |bytes| == layout.vlen
  {
    RowInside(layout, row);
    content[layout.RowStart(row)..layout.RowStart(row) + layout.vlen]
  }

  function IsNull(layout: Layout, content: seq<Byte>, row: nat, prop: nat): bool
    requires |content| == layout.PageBytes() && row < layout.pageSize && prop < layout.columnNum
  {
    NullIndexInjective(layout, row, prop, row, prop);
    GetBit(content, layout.NullIndex(row, prop))
  }

  /** The row holds these bytes and these nulls. */
  predicate RowHolds(layout: Layout, content: seq<Byte>, row: nat, bytes: seq<Byte>, nulls: seq<bool>)
    requires |content| == layout.PageBytes() && row < layout.pageSize && |nulls| == layout.columnNum
  {
    && RowBytes(layout, content, row) == bytes
    && forall prop :: 0 <= prop < layout.columnNum ==> IsNull(layout, content, row, prop) == nulls[prop]
  }

  predicate SameRow(layout: Layout, content: seq<Byte>, content': seq<Byte>, row: nat)
    requires |content| == |content'| == layout.PageBytes() && row < layout.pageSize
  {
    && RowBytes(layout, content, row) == RowBytes(layout, content', row)
    && forall prop :: 0 <= prop < layout.columnNum ==>
         IsNull(layout, content, row, prop) == IsNull(layout, content', row, prop)
  }

  /** Copies `vlen` bytes over a row. */
  method StoreBytes(layout: Layout, content: seq<Byte>, row: nat, bytes: seq<Byte>) returns (after: seq<Byte>)
    requires |content| == layout.PageBytes() && row < layout.pageSize && |bytes| == layout.vlen
    ensures |after| == |content| && RowBytes(layout, after, row) == bytes
    ensures forall other :: 0 <= other < layout.pageSize && other != row ==>
              RowBytes(layout, after, other) == RowBytes(layout, content, other)
    ensures forall i :: 0 <= i < layout.BitmapBytes() ==> after[i] == content[i]
  {
    RowInside(layout, row);
    var start := layout.RowStart(row);
    after := content[..start] + bytes + content[start + layout.vlen..];
    forall other | 0 <= other < layout.pageSize && other != row
      ensures RowBytes(layout, after, other) == RowBytes(layout, content, other)
    {
      RowsDisjoint(layout, if other < row then other else row, if other < row then row else other);
    }
  }

  /** Stores a row and its null bits. */
  method StoreRow(layout: Layout, content: seq<Byte>, row: nat, bytes: seq<Byte>, nulls: seq<bool>)
    returns (after: seq<Byte>)
    requires |content| == layout.PageBytes() && row < layout.pageSize
    requires |bytes| == layout.vlen && |nulls| == layout.columnNum
    ensures |after| == |content| && RowHolds(layout, after, row, bytes, nulls)
    ensures forall other :: 0 <= other < layout.pageSize && other != row ==> SameRow(layout, content, after, other)
  {
    after := StoreBytes(layout, content, row, bytes);
    forall r, prop | 0 <= r < layout.pageSize && 0 <= prop < layout.columnNum
      ensures IsNull(layout, after, r, prop) == IsNull(layout, content, r, prop)
    {
      NullIndexInjective(layout, r, prop, r, prop);
    }
    var stored := after;
    for prop := 0 to |nulls|
      invariant |after| == |content|
      invariant forall r :: 0 <= r < layout.pageSize ==> RowBytes(layout, after, r) == RowBytes(layout, stored, r)
      invariant forall p :: 0 <= p < prop ==> IsNull(layout, after, row, p) == nulls[p]
      invariant forall r, p :: 0 <= r < layout.pageSize && 0 <= p < layout.columnNum && r != row ==>
                  IsNull(layout, after, r, p) == IsNull(layout, stored, r, p)
    {
      NullIndexInjective(layout, row, prop, row, prop);
      after := StoreNull(layout, after, row, prop, nulls[prop]);
    }
  }

  method StoreNull(layout: Layout, content: seq<Byte>, row: nat, prop: nat, isNull: bool) returns (after: seq<Byte>)
    requires |content| == layout.PageBytes() && row < layout.pageSize && prop < layout.columnNum
    ensures |after| == |content|
    ensures forall r :: 0 <= r < layout.pageSize ==> RowBytes(layout, after, r) == RowBytes(layout, content, r)
    ensures forall r, p :: 0 <= r < layout.pageSize && 0 <= p < layout.columnNum ==>
              IsNull(layout, after, r, p) == if r == row && p == prop then isNull else IsNull(layout, content, r, p)
  {
    NullIndexInjective(layout, row, prop, row, prop);
    var i := layout.NullIndex(row, prop);
    after := if isNull then SetBit(content, i) else ResetBit(content, i);
    forall r, p | 0 <= r < layout.pageSize && 0 <= p < layout.columnNum
      ensures IsNull(layout, after, r, p) == if r == row && p == prop then isNull else IsNull(layout, content, r, p)
    {
      OneNullChanged(layout, content, row, prop, r, p);
    }
    forall r | 0 <= r < layout.pageSize
      ensures RowBytes(layout, after, r) == RowBytes(layout, content, r)
    {
      RowInside(layout, r);
    }
  }

  lemma OneNullChanged(layout: Layout, content: seq<Byte>, row: nat, prop: nat, r: nat, p: nat)
    requires |content| == layout.PageBytes() && row < layout.pageSize && prop < layout.columnNum
    requires r < layout.pageSize && p < layout.columnNum
    requires layout.NullIndex(row, prop) / 8 < |content|
    ensures var i := layout.NullIndex(row, prop);
            && IsNull(layout, SetBit(content, i), r, p) == ((r == row && p == prop) || IsNull(layout, content, r, p))
            && IsNull(layout, ResetBit(content, i), r, p) == (!(r == row && p == prop) && IsNull(layout, content, r, p))
  {
    NullIndexInjective(layout, row, prop, r, p);
    NullIndexInjective(layout, r, p, r, p);
    BitsAfter(content, layout.NullIndex(row, prop), layout.NullIndex(r, p));
  }

  // ---------------------------------------------------------------- properties inside a family

  /** Properties before `n` that belong to family `f`. */
  function RankIn(families: seq<nat>, n: nat, f: nat): nat
    requires n <= |families|
  {
    if n == 0 then 0 else RankIn(families, n - 1, f) + if families[n - 1] == f then 1 else 0
  }

  /** Bytes taken in a row of family `f` by the properties before `n`. */
  function BytesIn(families: seq<nat>, sizes: seq<nat>, n: nat, f: nat): nat
    requires n <= |families| == |sizes|
  {
    if n == 0 then 0 else BytesIn(families, sizes, n - 1, f) + if families[n - 1] == f then sizes[n - 1] else 0
  }

  lemma RankStep(families: seq<nat>, sizes: seq<nat>, n: nat, f: nat)
    requires n < |families| == |sizes|
    ensures RankIn(families, n + 1, f) == RankIn(families, n, f) + (if families[n] == f then 1 else 0)
    ensures BytesIn(families, sizes, n + 1, f) ==
            BytesIn(families, sizes, n, f) + (if families[n] == f then sizes[n] else 0)
  {
  }

  lemma RankSteps(families: seq<nat>, sizes: seq<nat>, n: nat)
    requires n < |families| == |sizes|
    ensures forall f :: f != families[n] ==>
              RankIn(families, n + 1, f) == RankIn(families, n, f)
                  && BytesIn(families, sizes, n + 1, f) == BytesIn(families, sizes, n, f)
    ensures var f := families[n];
            && RankIn(families, n + 1, f) == RankIn(families, n, f) + 1
            && BytesIn(families, sizes, n + 1, f) == BytesIn(families, sizes, n, f) + sizes[n]
  {
  }

  /** The numbering loop the reader runs over a label's schema; the writer's loop numbers the properties
      the same way and also notes where each one starts in its row. */
  method NumberProperties(families: seq<nat>, sizes: seq<nat>)
    returns (idInFamily: seq<nat>, numPerFamily: seq<nat>, offsets: seq<nat>, dataLength: seq<nat>)
    requires |sizes| == |families| && forall p :: 0 <= p < |families| ==> families[p] < |families|
    ensures |idInFamily| == |numPerFamily| == |offsets| == |dataLength| == |families|
    ensures forall p :: 0 <= p < |families| ==> idInFamily[p] == RankIn(families, p, families[p])
    ensures forall p :: 0 <= p < |families| ==> offsets[p] == BytesIn(families, sizes, p, families[p])
    ensures forall f :: 0 <= f < |families| ==> numPerFamily[f] == RankIn(families, |families|, f)
    ensures forall f :: 0 <= f < |families| ==> dataLength[f] == BytesIn(families, sizes, |families|, f)
  {
    hide RankIn, BytesIn, Totals;
    var n := |families|;
    idInFamily, offsets := [], [];
    numPerFamily, dataLength := seq(n, _ => 0), seq(n, _ => 0);
    TotalsStart(families, sizes, numPerFamily, dataLength);
    for propId := 0 to n
      invariant |idInFamily| == |offsets| == propId
      invariant forall p :: 0 <= p < propId ==> idInFamily[p] == RankIn(families, p, families[p])
      invariant forall p :: 0 <= p < propId ==> offsets[p] == BytesIn(families, sizes, p, families[p])
      invariant Totals(families, sizes, propId, numPerFamily, dataLength)
    {
      var f := families[propId];
      TotalsStep(families, sizes, propId, numPerFamily, dataLength);
      idInFamily := idInFamily + [numPerFamily[f]];
      offsets := offsets + [dataLength[f]];
      numPerFamily := numPerFamily[f := numPerFamily[f] + 1];
      dataLength := dataLength[f := dataLength[f] + sizes[propId]];
    }
    TotalsMean(families, sizes, n, numPerFamily, dataLength);
  }

  lemma TotalsStart(families: seq<nat>, sizes: seq<nat>, nums: seq<nat>, lengths: seq<nat>)
    requires |sizes| == |families| == |nums| == |lengths|
    requires forall f :: 0 <= f < |nums| ==> nums[f] == lengths[f] == 0
    ensures Totals(families, sizes, 0, nums, lengths)
  {
  }

  lemma TotalsMean(families: seq<nat>, sizes: seq<nat>, n: nat, nums: seq<nat>, lengths: seq<nat>)
    requires n <= |families| == |sizes| && Totals(families, sizes, n, nums, lengths)
    ensures |nums| == |lengths| == |families|
    ensures forall f :: 0 <= f < |families| ==> nums[f] == RankIn(families, n, f)
    ensures forall f :: 0 <= f < |families| ==> lengths[f] == BytesIn(families, sizes, n, f)
  {
    hide RankIn, BytesIn;
  }

  predicate Totals(families: seq<nat>, sizes: seq<nat>, n: nat, nums: seq<nat>, lengths: seq<nat>)
    requires n <= |families| == |sizes|
  {
    && |nums| == |lengths| == |families|
    && (forall f :: 0 <= f < |families| ==> nums[f] == RankIn(families, n, f))
    && (forall f :: 0 <= f < |families| ==> lengths[f] == BytesIn(families, sizes, n, f))
  }

  lemma TotalsStep(families: seq<nat>, sizes: seq<nat>, n: nat, nums: seq<nat>, lengths: seq<nat>)
    requires n < |families| == |sizes| && families[n] < |families| && Totals(families, sizes, n, nums, lengths)
    ensures var f := families[n];
            && f < |nums| == |lengths|
            && nums[f] == RankIn(families, n, f) && lengths[f] == BytesIn(families, sizes, n, f)
            && Totals(families, sizes, n + 1, nums[f := nums[f] + 1], lengths[f := lengths[f] + sizes[n]])
  {
    RankSteps(families, sizes, n);
    hide RankIn, BytesIn;
  }

  lemma {:induction false} RankGrows(families: seq<nat>, sizes: seq<nat>, p: nat, q: nat, f: nat)
    requires p <= q <= |families| == |sizes|
    ensures RankIn(families, p, f) <= RankIn(families, q, f)
    ensures BytesIn(families, sizes, p, f) <= BytesIn(families, sizes, q, f)
    decreases q
  {
    if p < q {
      RankGrows(families, sizes, p, q - 1, f);
    }
  }

  /** Two properties of a family have different numbers and non-overlapping places in the row, both within
      what the family reserves. */
  lemma PropertiesApart(families: seq<nat>, sizes: seq<nat>, p: nat, q: nat)
    requires p < q < |families| == |sizes| && families[p] == families[q]
    ensures var f := families[p];
            && RankIn(families, p, f) < RankIn(families, q, f) < RankIn(families, |families|, f)
            && BytesIn(families, sizes, p, f) + sizes[p] <= BytesIn(families, sizes, q, f)
            && BytesIn(families, sizes, q, f) + sizes[q] <= BytesIn(families, sizes, |families|, f)
  {
    hide RankIn, BytesIn;
    RankStep(families, sizes, p, families[p]);
    RankStep(families, sizes, q, families[p]);
    RankGrows(families, sizes, p + 1, q, families[p]);
    RankGrows(families, sizes, q + 1, |families|, families[p]);
  }

  /** The null bit of every vertex and property of a family is its own. */
  lemma NullBitsApart(families: seq<nat>, pageSize: nat, f: nat, row: nat, p: nat, row': nat, q: nat)
    requires p < |families| && q < |families| && families[p] == families[q] == f
    requires row < pageSize && row' < pageSize
    ensures var layout := Layout(pageSize, 0, RankIn(families, |families|, f));
            && RankIn(families, p, f) < layout.columnNum && RankIn(families, q, f) < layout.columnNum
            && (layout.NullIndex(row, RankIn(families, p, f)) == layout.NullIndex(row', RankIn(families, q, f)) <==>
                  row == row' && p == q)
  {
    hide RankIn, BytesIn;
    var sizes: seq<nat> := seq(|families|, _ => 0);
    RankStep(families, sizes, p, f);
    RankStep(families, sizes, q, f);
    RankGrows(families, sizes, p + 1, |families|, f);
    RankGrows(families, sizes, q + 1, |families|, f);
    var layout := Layout(pageSize, 0, RankIn(families, |families|, f));
    NullIndexInjective(layout, row, RankIn(families, p, f), row', RankIn(families, q, f));
    if p < q {
      PropertiesApart(families, sizes, p, q);
    } else if q < p {
      PropertiesApart(families, sizes, q, p);
    }
  }
}
