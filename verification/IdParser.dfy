/** Global vertex ids: a fragment number, an offset inside the fragment and a vertex label packed into
    the low 63 bits of a word.  Masks and shifts are written as division and remainder by powers of
    two. */
module IdParser {
  import opened Powers

  const MAX_VLABELS := 128
  const LABEL_WIDTH := 7
  const LABEL_SHIFT := 56                  // 64 - LABEL_WIDTH - 1
  const LABEL_UNIT := 0x100_0000_0000_0000 // 2^LABEL_SHIFT

  datatype Parser = Parser(fidWidth: nat)
  {
    /** `GetOffsetWidth`. */
    function OffsetWidth(): int {
      LABEL_SHIFT - fidWidth
    }

    predicate Valid() {
      fidWidth <= LABEL_SHIFT
    }

    function FidUnit(): nat {
      Pow2(fidWidth)
    }

    function OffsetUnit(): nat
      requires Valid()
    {
      Pow2(OffsetWidth())
    }

    function GetFid(v: nat): nat {
      v % FidUnit()
    }

    function GetLabelId(v: nat): nat {
      v / LABEL_UNIT % MAX_VLABELS
    }

    function GetOffset(v: nat): nat
      requires Valid()
    {
      v / FidUnit() % OffsetUnit()
    }

    /** The id without its fragment number. */
    function GetLid(v: nat): nat {
      v / FidUnit() * FidUnit() % (LABEL_UNIT * MAX_VLABELS)
    }

    function GenerateId(fid: nat, vlabel: nat, offset: nat): nat
      requires Valid()
    {
      fid % FidUnit() + offset % OffsetUnit() * FidUnit() + vlabel % MAX_VLABELS * LABEL_UNIT
    }

    /** The largest offset, from which outer vertices count downwards. */
    function MaxOuterOffset(): nat
      requires Valid()
    {
      OffsetUnit() - 1
    }
  }

  /** `num_to_bitwidth`: the bits needed for the numbers below `num`, and at least one. */
  method NumToBitwidth(num: nat) returns (width: nat)
    ensures 1 <= width && num <= Pow2(width)
    ensures num > 2 ==> Pow2(width - 1) < num
  {
    if num <= 2 {
      return 1;
    }
    var max := num - 1;
    width := 0;
    ghost var unit, half := 1, 0;   // Pow2(width), Pow2(width - 1)
    while max != 0
      invariant unit == Pow2(width) && (width == 0 || half == Pow2(width - 1))
      invariant 0 <= max && BitsLeft(num - 1, max, unit)
      invariant max == 0 ==> width > 0 && half <= num - 1
    {
      HalveUnits(num - 1, max, unit);
      unit, half := 2 * unit, unit;
      width := width + 1;
      max := max / 2;
    }
  }

  /** `rest` holds the bits of `n` above those worth less than `unit`. */
  ghost predicate BitsLeft(n: nat, rest: nat, unit: nat) {
    rest * unit <= n < (rest + 1) * unit
  }

  lemma HalveUnits(n: nat, rest: nat, unit: nat)
    requires rest > 0 && BitsLeft(n, rest, unit)
    ensures BitsLeft(n, rest / 2, 2 * unit)
    ensures unit <= n
  {
    var h := rest / 2;
    assert 2 * h * unit <= rest * unit;
    assert (rest + 1) * unit <= (2 * h + 2) * unit;
    assert 1 * unit <= rest * unit;
  }

  lemma MaskLabelUnit()
    ensures Pow2(LABEL_SHIFT) == LABEL_UNIT
  {
    assert Pow2(8) == 0x100;
    Pow2Add(8, 8);
    Pow2Add(16, 8);
    Pow2Add(24, 8);
    Pow2Add(32, 8);
    Pow2Add(40, 8);
    Pow2Add(48, 8);
  }

  lemma DivModOfSum(q: nat, unit: nat, r: nat)
    requires r < unit
    ensures (q * unit + r) / unit == q && (q * unit + r) % unit == r
  {
    var v := q * unit + r;
    assert v == v / unit * unit + v % unit;
    assert (q - v / unit) * unit == v % unit - r;
    SmallMultiple(q - v / unit, unit);
  }

  lemma SmallMultiple(k: int, unit: int)
    requires -unit < k * unit < unit
    ensures k == 0
  {
  }

  /** Three fields of widths `a`, `b` and the rest, put side by side and taken apart again. */
  lemma Packing(a: nat, b: nat, f: nat, l: nat, o: nat)
    requires f < a && o < b
    ensures var v := f + o * a + l * (a * b);
            v % a == f && v / a == l * b + o && v / a % b == o && v / (a * b) == l
  {
    var v := f + o * a + l * (a * b);
    var hi := l * b + o;
    PackedLow(v, hi, a, f);
    PackedLow(hi, l, b, o);
    FieldsBelow(a, b, f, o);
    PackedLow(v, l, a * b, f + o * a);
  }

  lemma PackedLow(v: nat, q: nat, unit: nat, r: nat)
    requires r < unit && v == q * unit + r
    ensures v / unit == q && v % unit == r
  {
    DivModOfSum(q, unit, r);
  }

  lemma FieldsBelow(a: nat, b: nat, f: nat, o: nat)
    requires f < a && o < b
    ensures f + o * a < a * b
  {
    assert (o + 1) * a <= b * a;
  }

  lemma Units(p: Parser)
    requires p.Valid()
    ensures p.FidUnit() * p.OffsetUnit() == LABEL_UNIT
  {
    MaskLabelUnit();
    Pow2Add(p.fidWidth, p.OffsetWidth());
  }

  /** The fields of a generated id, for any arguments: each comes back reduced to its width. */
  lemma GeneratedFields(p: Parser, fid: nat, vlabel: nat, offset: nat)
    requires p.Valid()
    ensures var v := p.GenerateId(fid, vlabel, offset);
            && v < LABEL_UNIT * MAX_VLABELS
            && p.GetFid(v) == fid % p.FidUnit()
            && p.GetLabelId(v) == vlabel % MAX_VLABELS
            && p.GetOffset(v) == offset % p.OffsetUnit()
            && p.GetLid(v) == p.GenerateId(0, vlabel, offset)
  {
    Units(p);
    PackedId(p.FidUnit(), p.OffsetUnit(), LABEL_UNIT, fid % p.FidUnit(), vlabel % MAX_VLABELS, offset % p.OffsetUnit());
  }

  lemma PackedId(a: nat, b: nat, unit: nat, f: nat, l: nat, o: nat)
    requires a * b == unit && f < a && o < b && l < MAX_VLABELS
    ensures var v := f + o * a + l * unit;
            && v < unit * MAX_VLABELS
            && v % a == f && v / unit % MAX_VLABELS == l && v / a % b == o
            && v / a * a % (unit * MAX_VLABELS) == o * a + l * unit
  {
    Packing(a, b, f, l, o);
    FieldsBelow(a, b, f, o);
    LabelBelow(unit, f + o * a, l);
    var v := f + o * a + l * unit;
    var rest := o * a + l * unit;
    assert v / a * a == rest by {
      assert v == v / a * a + v % a;
    }
    SmallMod(rest, unit * MAX_VLABELS);
    SmallMod(l, MAX_VLABELS);
  }

  lemma LabelBelow(unit: nat, low: nat, l: nat)
    requires low < unit && l < MAX_VLABELS
    ensures low + l * unit < unit * MAX_VLABELS
  {
    MulMonotone(l + 1, MAX_VLABELS, unit);
    assert (l + 1) * unit == l * unit + unit;
  }

  lemma MulMonotone(x: nat, y: nat, unit: nat)
    requires x <= y
    ensures x * unit <= y * unit
  {
  }

  lemma SmallMod(v: nat, m: nat)
    requires v < m
    ensures v % m == v
  {
    DivModOfSum(0, m, v);
  }

  /** An id determines its three fields, so different vertices get different ids. */
  lemma GenerateIdInjective(p: Parser, fid: nat, vlabel: nat, offset: nat, fid': nat, vlabel': nat, offset': nat)
    requires p.Valid()
    ensures p.GenerateId(fid, vlabel, offset) == p.GenerateId(fid', vlabel', offset') <==>
              fid % p.FidUnit() == fid' % p.FidUnit() && vlabel % MAX_VLABELS == vlabel' % MAX_VLABELS &&
              offset % p.OffsetUnit() == offset' % p.OffsetUnit()
  {
    GeneratedFields(p, fid, vlabel, offset);
    GeneratedFields(p, fid', vlabel', offset');
  }

  /** Putting the fields of an id back together gives the id. */
  lemma RegenerateId(p: Parser, v: nat)
    requires p.Valid() && v < LABEL_UNIT * MAX_VLABELS
    ensures p.GenerateId(p.GetFid(v), p.GetLabelId(v), p.GetOffset(v)) == v
  {
    Units(p);
    UnpackId(p.FidUnit(), p.OffsetUnit(), LABEL_UNIT, v);
  }

  lemma UnpackId(a: nat, b: nat, unit: nat, v: nat)
    requires a > 0 && b > 0 && a * b == unit && v < unit * MAX_VLABELS
    ensures v % a % a + v / a % b % b * a + v / unit % MAX_VLABELS % MAX_VLABELS * unit == v
  {
    var f, hi := v % a, v / a;
    var o, l := hi % b, hi / b;
    Divide(v, a);
    Divide(hi, b);
    FieldsBack(a, b, unit, f, o, l, v);
  }

  lemma Divide(x: nat, m: nat)
    requires m > 0
    ensures x == x / m * m + x % m && x % m < m
  {
  }

  lemma FieldsBack(a: nat, b: nat, unit: nat, f: nat, o: nat, l: nat, v: nat)
    requires f < a && o < b && a * b == unit && v < unit * MAX_VLABELS
    requires v == f + o * a + l * (a * b)
    ensures f % a + o % b * a + v / unit % MAX_VLABELS % MAX_VLABELS * unit == v
  {
    FieldsBelow(a, b, f, o);
    PackedLow(v, l, unit, f + o * a);
    SmallMod(l, MAX_VLABELS);
    SmallMod(f, a);
    SmallMod(o, b);
  }

}
