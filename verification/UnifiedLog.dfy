/** The unified log: one line of text per entry, its fields separated by '|', its last field the
    number of the entry. */
module UnifiedLog {
  import opened Decimal

  const BAR := '|'

  datatype OpType = Insert | Update | Delete

  datatype UnifiedEntry =
    | VertexLog(op: OpType, epoch: int, gid: int, oid: string, properties: seq<string>)
    | EdgeLog(op: OpType, epoch: int, elabel: int, srcGid: int, dstGid: int, srcOid: string, dstOid: string,
              properties: seq<string>)
    | BulkLoadEnd(epoch: int)

  // ---------------------------------------------------------------- joining and splitting

  function Join(fields: seq<string>): string
    requires fields != []
  {
    if |fields| == 1 then fields[0] else fields[0] + [BAR] + Join(fields[1..])
  }

  function Bars(s: string): nat {
    if s == [] then 0 else (if s[0] == BAR then 1 else 0) + Bars(s[1..])
  }

  function BarsIn(fields: seq<string>): nat {
    if fields == [] then 0 else Bars(fields[0]) + BarsIn(fields[1..])
  }

  /** The text up to the first bar. */
  function Head(s: string): (h: string)
    ensures h <= s && BAR !in h
    ensures |h| < |s| ==> s[|h|] == BAR
  {
    if s == [] || s[0] == BAR then [] else [s[0]] + Head(s[1..])
  }

  /** The pieces between the bars, empty ones included. */
  function Split(s: string): (pieces: seq<string>)
    ensures pieces != []
    decreases |s|
  {
    var h := Head(s);
    if |h| == |s| then [s] else [h] + Split(s[|h| + 1..])
  }

  /** `std::string::find`; the length of the string stands for `npos`. */
  method Find(s: string, c: char, start: nat) returns (k: nat)
    requires start <= |s|
    ensures start <= k <= |s| && (k < |s| ==> s[k] == c)
    ensures forall i :: start <= i < k ==> s[i] != c
  {
    k := start;
    while k < |s| && s[k] != c
      invariant start <= k <= |s|
      invariant forall i :: start <= i < k ==> s[i] != c
    {
      k := k + 1;
    }
  }

  lemma {:induction false} HeadIs(s: string, n: nat)
    requires n <= |s| && (n < |s| ==> s[n] == BAR)
    requires forall i :: 0 <= i < n ==> s[i] != BAR
    ensures Head(s) == s[..n]
  {
    if n > 0 {
      HeadIs(s[1..], n - 1);
      assert s[..n] == [s[0]] + s[1..][..n - 1];
    }
  }

  lemma SplitStep(a: string, b: string)
    requires BAR !in a
    ensures Split(a + [BAR] + b) == [a] + Split(b)
  {
    var s := a + [BAR] + b;
    HeadIs(s, |a|);
    assert s[..|a|] == a && s[|a| + 1..] == b;
  }

  lemma SplitWhole(s: string)
    requires BAR !in s
    ensures Split(s) == [s]
  {
    HeadIs(s, |s|);
  }

  /** `splitString`. */
  method SplitString(str: string) returns (result: seq<string>)
    ensures result == Split(str)
  {
    hide Split;
    result := [];
    var startPos := 0;
    var endPos := Find(str, BAR, 0);
    assert str[0..] == str;
    while endPos != |str|
      invariant 0 <= startPos <= endPos <= |str|
      invariant endPos < |str| ==> str[endPos] == BAR
      invariant forall i :: startPos <= i < endPos ==> str[i] != BAR
      invariant result + Split(str[startPos..]) == Split(str)
      decreases |str| - endPos
    {
      var piece := str[startPos..endPos];
      assert str[startPos..] == piece + [BAR] + str[endPos + 1..];
      SplitStep(piece, str[endPos + 1..]);
      assert result + ([piece] + Split(str[endPos + 1..])) == result + [piece] + Split(str[endPos + 1..]);
      result := result + [piece];
      startPos := endPos + 1;
      endPos := Find(str, BAR, startPos);
    }
    SplitWhole(str[startPos..]);
    if startPos < |str| {
      result := result + [str[startPos..]];
    } else if startPos == |str| {
      result := result + [""];
    }
  }

  lemma {:induction false} BarsConcat(a: string, b: string)
    ensures Bars(a + b) == Bars(a) + Bars(b)
  {
    if a == [] {
      assert a + b == b;
    } else {
      assert (a + b)[1..] == a[1..] + b;
      BarsConcat(a[1..], b);
    }
  }

  lemma {:induction false} NoBars(s: string)
    ensures Bars(s) == 0 <==> BAR !in s
  {
    if s != [] {
      NoBars(s[1..]);
    }
  }

  lemma {:induction false} NoBarsIn(fields: seq<string>)
    ensures BarsIn(fields) == 0 <==> forall k :: 0 <= k < |fields| ==> BAR !in fields[k]
  {
    if fields != [] {
      NoBarsIn(fields[1..]);
      NoBars(fields[0]);
      assert forall k :: 0 < k < |fields| ==> fields[k] == fields[1..][k - 1];
    }
  }

  lemma {:induction false} JoinBars(fields: seq<string>)
    requires fields != []
    ensures Bars(Join(fields)) == |fields| - 1 + BarsIn(fields)
  {
    if |fields| > 1 {
      JoinBars(fields[1..]);
      BarsConcat(fields[0] + [BAR], Join(fields[1..]));
      BarsConcat(fields[0], [BAR]);
      assert Bars([BAR]) == 1;
    } else {
      assert BarsIn(fields[1..]) == 0;
    }
  }

  lemma {:induction false} SplitBars(s: string)
    ensures |Split(s)| == 1 + Bars(s)
    decreases |s|
  {
    var h := Head(s);
    NoBars(h);
    if |h| < |s| {
      var rest := s[|h| + 1..];
      SplitBars(rest);
      assert s == h + [BAR] + rest;
      BarsConcat(h + [BAR], rest);
      BarsConcat(h, [BAR]);
      assert Bars([BAR]) == 1;
    } else {
      assert h == s;
    }
  }

  /** Joining what was split gives the text back, whatever it was. */
  lemma {:induction false} JoinSplit(s: string)
    ensures Join(Split(s)) == s
    decreases |s|
  {
    var h := Head(s);
    if |h| < |s| {
      var rest := s[|h| + 1..];
      assert s == h + [BAR] + rest;
      assert Split(s) == [h] + Split(rest);
      JoinSplit(rest);
      hide Join, Split;
    }
  }

  lemma {:induction false} SplitClean(fields: seq<string>)
    requires fields != [] && forall k :: 0 <= k < |fields| ==> BAR !in fields[k]
    ensures Split(Join(fields)) == fields
  {
    if |fields| == 1 {
      SplitWhole(fields[0]);
    } else {
      SplitClean(fields[1..]);
      SplitStep(fields[0], Join(fields[1..]));
    }
  }

  /** A line splits back into its fields, empty ones included, if and only if no field holds a bar. */
  lemma SplitJoinIff(fields: seq<string>)
    requires fields != []
    ensures Split(Join(fields)) == fields <==> forall k :: 0 <= k < |fields| ==> BAR !in fields[k]
  {
    NoBarsIn(fields);
    if BarsIn(fields) == 0 {
      SplitClean(fields);
    } else {
      JoinBars(fields);
      SplitBars(Join(fields));
    }
  }

  // ---------------------------------------------------------------- writing a line

  function OpName(op: OpType): string {
    match op
    case Insert => "add"
    case Update => "update"
    case Delete => "delete"
  }

  function Name(e: UnifiedEntry): string {
    match e
    case BulkLoadEnd(_) => "bulkload_end"
    case VertexLog(op, _, _, _, _) => OpName(op) + "_vertex"
    case EdgeLog(op, _, _, _, _, _, _, _) => OpName(op) + "_edge"
  }

  function Keys(e: UnifiedEntry): seq<string> {
    match e
    case BulkLoadEnd(epoch) => [Print(epoch)]
    case VertexLog(_, epoch, gid, oid, _) => [Print(epoch), Print(gid), oid]
    case EdgeLog(_, epoch, elabel, srcGid, dstGid, srcOid, dstOid, _) =>
      [Print(epoch), Print(elabel), Print(srcGid), Print(dstGid), srcOid, dstOid]
  }

  function Properties(e: UnifiedEntry): seq<string> {
    if e.BulkLoadEnd? then [] else e.properties
  }

  /** The fields of an entry's line. */
  function Fields(e: UnifiedEntry, number: int): (fields: seq<string>)
    ensures |fields| >= 3 && fields[|fields| - 1] == Print(number)
  {
    [Name(e)] + Keys(e) + Properties(e) + [Print(number)]
  }

  /** `append_str`. */
  function AppendStr(base: string, append: string, delimiter: char): string {
    if base == "" then append else base + [delimiter] + append
  }

  lemma {:induction false} JoinAppend(fields: seq<string>, f: string)
    requires fields != [] && fields[0] != ""
    ensures Join(fields) != "" && Join(fields + [f]) == AppendStr(Join(fields), f, BAR)
    decreases |fields|
  {
    JoinAppendAny(fields, f);
    assert Join(fields)[0] == fields[0][0];
  }

  lemma {:induction false} JoinAppendAny(fields: seq<string>, f: string)
    requires fields != []
    ensures Join(fields + [f]) == Join(fields) + [BAR] + f
  {
    var more := fields + [f];
    if |fields| == 1 {
      assert more[1..] == [f];
    } else {
      assert more[1..] == fields[1..] + [f];
      JoinAppendAny(fields[1..], f);
      assert fields[0] + [BAR] + (Join(fields[1..]) + [BAR] + f) == fields[0] + [BAR] + Join(fields[1..]) + [BAR] + f;
    }
  }

  /** Appends fields one by one. */
  method AppendAll(base: string, ghost fields: seq<string>, more: seq<string>) returns (text: string)
    requires fields != [] && fields[0] != "" && base == Join(fields)
    ensures text == Join(fields + more)
  {
    text := base;
    assert fields + more[..0] == fields;
    for i := 0 to |more|
      invariant text == Join(fields + more[..i])
    {
      JoinAppend(fields + more[..i], more[i]);
      assert fields + more[..i] + [more[i]] == fields + more[..i + 1];
      text := AppendStr(text, more[i], BAR);
    }
    assert more[..|more|] == more;
  }

  /** `LogEntry::to_string`. */
  method ToString(e: UnifiedEntry, number: int) returns (base: string)
    ensures base == Join(Fields(e, number))
  {
    hide Join, Print;
    if e.BulkLoadEnd? {
      base := AppendAll("bulkload_end", ["bulkload_end"], [Print(e.epoch), Print(number)]) by {
        JoinOne("bulkload_end");
      }
      assert ["bulkload_end"] + [Print(e.epoch), Print(number)] == Fields(e, number);
      return;
    }
    base := OpName(e.op);
    base := AppendStr(base, if e.VertexLog? then "vertex" else "edge", '_');
    assert base == Name(e) && base != "";
    JoinOne(base);
    ghost var fields := [base];
    var keys := if e.VertexLog? then [Print(e.epoch), Print(e.gid), e.oid]
                else [Print(e.epoch), Print(e.elabel), Print(e.srcGid), Print(e.dstGid), e.srcOid, e.dstOid];
    base := AppendAll(base, fields, keys);
    base := AppendAll(base, fields + keys, e.properties);
    base := AppendAll(base, fields + keys + e.properties, [Print(number)]);
  }

  lemma JoinOne(f: string)
    ensures Join([f]) == f
  {
  }

  // ---------------------------------------------------------------- reading a line

  /** The text after the last bar; the whole text when there is none. */
  function AfterLastBar(s: string): string {
    if BAR !in s then s else AfterLastBar(s[|Head(s)| + 1..])
  }

  /** Where a restarted converter resumes: `stoll` of the text after the last bar. */
  function RestartOffset(line: string): Option<int> {
    Stoll(AfterLastBar(line))
  }

  lemma {:induction false} LastBarOfConcat(a: string, b: string)
    requires BAR !in b
    ensures AfterLastBar(a + [BAR] + b) == b
    decreases |a|
  {
    var s := a + [BAR] + b;
    assert s[|a|] == BAR;
    var h := Head(s);
    assert |h| <= |a| by {
      assert forall k :: 0 <= k < |h| ==> s[k] == h[k] != BAR;
    }
    var rest := s[|h| + 1..];
    if |h| < |a| {
      assert rest == a[|h| + 1..] + [BAR] + b;
      LastBarOfConcat(a[|h| + 1..], b);
    } else {
      assert rest == b;
    }
  }

  /** The entry number comes back from any line, even when ids or properties hold bars. */
  lemma RestartOffsetOfLine(e: UnifiedEntry, number: int)
    ensures RestartOffset(Join(Fields(e, number))) ==
            if INT64_MIN <= number <= INT64_MAX then Some(number) else None
  {
    var fields := Fields(e, number);
    var front := fields[..|fields| - 1];
    assert fields == front + [Print(number)];
    JoinAppendAny(front, Print(number));
    LastBarOfConcat(Join(front), Print(number));
    ReadPrinted(number, [], INT64_MIN, INT64_MAX);
    assert Print(number) + [] == Print(number);
  }

  datatype Operator = OnVertex(op: OpType) | OnEdge(op: OpType) | OnBulkLoadEnd | Unsupported

  function OperatorOf(name: string): Operator {
    if name == "add_vertex" then OnVertex(Insert)
    else if name == "add_edge" then OnEdge(Insert)
    else if name == "delete_vertex" then OnVertex(Delete)
    else if name == "delete_edge" then OnEdge(Delete)
    else if name == "update_vertex" then OnVertex(Update)
    else if name == "bulkload_end" then OnBulkLoadEnd
    else Unsupported
  }

  lemma OperatorOfName(op: OpType)
    ensures OperatorOf(OpName(op) + "_vertex") == OnVertex(op)
    ensures !op.Update? ==> OperatorOf(OpName(op) + "_edge") == OnEdge(op)
    ensures OperatorOf("bulkload_end") == OnBulkLoadEnd
  {
    assert "bulkload_end"[0] == 'b';
    match op
    case Insert =>
      assert "add" + "_vertex" == "add_vertex" && "add" + "_edge" == "add_edge";
    case Update =>
      assert "update" + "_vertex" == "update_vertex" && "update_vertex"[0] == 'u';
    case Delete =>
      assert "delete" + "_vertex" == "delete_vertex" && "delete" + "_edge" == "delete_edge";
  }

  /** What `apply_log_to_store_` and the operations behind it make of a line. */
  function Decode(line: string): Option<UnifiedEntry> {
    DecodePieces(Split(line))
  }

  function DecodePieces(sv: seq<string>): Option<UnifiedEntry> {
    if |sv| < 3 then None
    else
      var cmd := sv[1..|sv| - 1];
      match OperatorOf(sv[0])
      case OnVertex(op) => DecodeVertex(op, cmd)
      case OnEdge(op) => if op.Update? then None else DecodeEdge(op, cmd)
      case OnBulkLoadEnd => if Stoi(cmd[0]).None? then None else Some(BulkLoadEnd(Stoi(cmd[0]).value))
      case Unsupported => None
  }

  function DecodeVertex(op: OpType, cmd: seq<string>): Option<UnifiedEntry> {
    if |cmd| < 3 then None
    else match (Stoi(cmd[0]), Stoll(cmd[1]))
      case (Some(epoch), Some(gid)) => Some(VertexLog(op, epoch, gid, cmd[2], cmd[3..]))
      case _ => None
  }

  function DecodeEdge(op: OpType, cmd: seq<string>): Option<UnifiedEntry> {
    if |cmd| < 6 then None
    else match (Stoi(cmd[0]), Stoi(cmd[1]), Stoll(cmd[2]), Stoll(cmd[3]))
      case (Some(epoch), Some(elabel), Some(src), Some(dst)) =>
        Some(EdgeLog(op, epoch, elabel, src, dst, cmd[4], cmd[5], cmd[6..]))
      case _ => None
  }

  predicate Int32(i: int) { INT32_MIN <= i <= INT32_MAX }

  predicate Int64(i: int) { INT64_MIN <= i <= INT64_MAX }

  /** The numbers of the entry fit their types, and edges are added or deleted, never updated. */
  predicate Emittable(e: UnifiedEntry) {
    && Int32(e.epoch)
    && (e.VertexLog? ==> Int64(e.gid))
    && (e.EdgeLog? ==> Int32(e.elabel) && Int64(e.srcGid) && Int64(e.dstGid) && !e.op.Update?)
  }

  /** No id and no property of the entry holds a bar. */
  predicate BarFree(e: UnifiedEntry) {
    match e
    case BulkLoadEnd(_) => true
    case VertexLog(_, _, _, oid, properties) => BAR !in oid && forall p <- properties :: BAR !in p
    case EdgeLog(_, _, _, _, _, srcOid, dstOid, properties) =>
      BAR !in srcOid && BAR !in dstOid && forall p <- properties :: BAR !in p
  }

  lemma PrintedReadsBack(i: int)
    ensures Int32(i) ==> Stoi(Print(i)) == Some(i)
    ensures Int64(i) ==> Stoll(Print(i)) == Some(i)
  {
    ReadPrinted(i, [], INT32_MIN, INT32_MAX);
    ReadPrinted(i, [], INT64_MIN, INT64_MAX);
    assert Print(i) + [] == Print(i);
  }

  /** A line is decoded into the entry it was written for if and only if no id and no property holds
      a bar. */
  lemma DecodeLineIff(e: UnifiedEntry, number: int)
    requires Emittable(e)
    ensures Decode(Join(Fields(e, number))) == Some(e) <==> BarFree(e)
  {
    hide *;
    var fields := Fields(e, number);
    var pieces := Split(Join(fields));
    SplitJoinIff(fields);
    BarFreeFields(e, number);
    AllBarFreeMeans(fields);
    DecodeIsPieces(Join(fields));
    if BarFree(e) {
      DecodeFields(e, number);
    } else {
      NoBarsIn(fields);
      JoinBars(fields);
      SplitBars(Join(fields));
      NoBarsInBulkEnd(e);
      if DecodePieces(pieces) == Some(e) {
        DecodedLength(pieces, e, number);
      }
    }
  }

  /** A property with a bar in it: the line is not decoded into the entry it was written for. */
  lemma BarBreaksLine()
    ensures var e := VertexLog(Insert, 1, 7, "5", ["a|b"]);
            Decode(Join(Fields(e, 1))) != Some(e)
  {
    var e := VertexLog(Insert, 1, 7, "5", ["a|b"]);
    DecodeLineIff(e, 1);
    hide Decode, Fields, Join;
    assert "a|b"[1] == BAR && BAR in "a|b";
    assert e.properties[0] == "a|b" && "a|b" in e.properties;
  }

  lemma AllBarFreeMeans(fields: seq<string>)
    ensures AllBarFree(fields) <==> forall k :: 0 <= k < |fields| ==> BAR !in fields[k]
  {
  }

  lemma DecodeIsPieces(line: string)
    ensures Decode(line) == DecodePieces(Split(line))
  {
  }

  lemma NoBarsInBulkEnd(e: UnifiedEntry)
    requires !BarFree(e)
    ensures !e.BulkLoadEnd?
  {
  }

  ghost predicate AllBarFree(fields: seq<string>) {
    forall k :: 0 <= k < |fields| ==> BAR !in fields[k]
  }

  lemma AllBarFreeConcat(a: seq<string>, b: seq<string>)
    ensures AllBarFree(a + b) <==> AllBarFree(a) && AllBarFree(b)
  {
    var c := a + b;
    assert forall k :: 0 <= k < |a| ==> c[k] == a[k];
    assert forall k :: 0 <= k < |b| ==> c[|a| + k] == b[k];
  }

  lemma NoBarInName(e: UnifiedEntry)
    ensures BAR !in Name(e)
  {
  }

  lemma KeysBarFree(e: UnifiedEntry)
    ensures BarFree(e) <==> AllBarFree(Keys(e)) && AllBarFree(Properties(e))
  {
    hide Print;
    match e
    case BulkLoadEnd(_) =>
    case VertexLog(_, _, gid, oid, properties) =>
      assert Keys(e)[2] == oid;
    case EdgeLog(_, _, elabel, srcGid, dstGid, srcOid, dstOid, properties) =>
      assert Keys(e)[4] == srcOid && Keys(e)[5] == dstOid;
  }

  lemma BarFreeFields(e: UnifiedEntry, number: int)
    ensures BarFree(e) <==> AllBarFree(Fields(e, number))
  {
    hide Print, Name, BarFree, Keys, Properties;
    NoBarInName(e);
    KeysBarFree(e);
    AllBarFreeConcat([Name(e)], Keys(e));
    AllBarFreeConcat([Name(e)] + Keys(e), Properties(e));
    AllBarFreeConcat([Name(e)] + Keys(e) + Properties(e), [Print(number)]);
  }

  lemma DecodeFields(e: UnifiedEntry, number: int)
    requires Emittable(e)
    ensures DecodePieces(Fields(e, number)) == Some(e)
  {
    hide Stoi, Stoll, OperatorOf, OpName, Print;
    var fields := Fields(e, number);
    var cmd := fields[1..|fields| - 1];
    PrintedReadsBack(e.epoch);
    OperatorOfName(if e.BulkLoadEnd? then Insert else e.op);
    match e
    case BulkLoadEnd(_) =>
    case VertexLog(op, _, gid, oid, properties) =>
      PrintedReadsBack(gid);
      assert cmd[3..] == properties;
    case EdgeLog(op, _, elabel, srcGid, dstGid, srcOid, dstOid, properties) =>
      PrintedReadsBack(elabel);
      PrintedReadsBack(srcGid);
      PrintedReadsBack(dstGid);
      assert cmd[6..] == properties;
  }

  /** A decoded entry has as many fields as its line had pieces, unless it ends a bulk load. */
  lemma DecodedLength(pieces: seq<string>, e: UnifiedEntry, number: int)
    requires DecodePieces(pieces) == Some(e) && !e.BulkLoadEnd?
    ensures |pieces| == |Fields(e, number)|
  {
    hide Stoi, Stoll, OperatorOf, OpName, Print;
  }
}
