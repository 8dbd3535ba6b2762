/** Histories of the server registry: when its file stands for a plain map from ids to servers, and when
    no id is given out twice. */
module RegistryHistory {
  import opened Decimal
  import opened Sequences
  import opened ServerRegistry

  // ---------------------------------------------------------------- any file, any history

  /** The file, and the id the running process will give out next. */
  datatype Disk = Disk(file: string, next: int)

  /** What can happen to the registry; `Restart` is a new process that reads the file again. */
  datatype Op = AddServer(host: string, port: int) | DeleteServer(id: int) | Restart

  /** One operation, as the methods of the registry leave it. */
  function Step(d: Disk, op: Op): Disk {
    match op
    case AddServer(host, port) => Disk(d.file + PrintRecord(NewRecord(d.next, host, port)), d.next + 1)
    case DeleteServer(id) => Disk(Rewrite(d.file, id), d.next)
    case Restart => Disk(d.file, Largest(Scan(d.file), -1) + 1)
  }

  function After(d: Disk, ops: seq<Op>): Disk {
    if ops == [] then d else Step(After(d, ops[..|ops| - 1]), ops[|ops| - 1])
  }

  /** The ids given out. */
  function Issued(d: Disk, ops: seq<Op>): seq<int> {
    if ops == [] then []
    else
      Issued(d, ops[..|ops| - 1]) +
      if ops[|ops| - 1].AddServer? then [After(d, ops[..|ops| - 1]).next] else []
  }

  predicate AllBelow(ids: seq<int>, bound: int) {
    forall i :: 0 <= i < |ids| ==> ids[i] < bound
  }

  /** At every moment of the history the next id is above all given out so far. */
  predicate AlwaysFresh(d: Disk, ops: seq<Op>) {
    forall k :: 0 <= k <= |ops| ==> FreshAt(d, ops, k)
  }

  predicate FreshAt(d: Disk, ops: seq<Op>, k: nat)
    requires k <= |ops|
  {
    AllBelow(Issued(d, ops[..k]), After(d, ops[..k]).next)
  }

  /** At every restart the file still shows an id at least as large as any given out. */
  predicate RestartsSee(d: Disk, ops: seq<Op>) {
    forall k :: 0 <= k < |ops| && ops[k].Restart? ==> SeenAt(d, ops, k)
  }

  predicate SeenAt(d: Disk, ops: seq<Op>, k: nat)
    requires k <= |ops|
  {
    AllBelow(Issued(d, ops[..k]), Largest(Scan(After(d, ops[..k]).file), -1) + 1)
  }

  lemma OneMoreOp(d: Disk, ops: seq<Op>, k: nat)
    requires k < |ops|
    ensures After(d, ops[..k + 1]) == Step(After(d, ops[..k]), ops[k])
    ensures Issued(d, ops[..k + 1]) == Issued(d, ops[..k]) + if ops[k].AddServer? then [After(d, ops[..k]).next] else []
  {
    assert ops[..k + 1][..k] == ops[..k];
  }

  /** For any file and any host names: the next id stays above all ids given out if and only if at every
      restart the largest of them can still be read. */
  lemma AlwaysFreshIff(d: Disk, ops: seq<Op>)
    ensures AlwaysFresh(d, ops) <==> RestartsSee(d, ops)
  {
    hide Issued, After, Scan, Largest, Rewrite, PrintRecord;
    if AlwaysFresh(d, ops) {
      forall k | 0 <= k < |ops| && ops[k].Restart?
        ensures SeenAt(d, ops, k)
      {
        OneMoreOp(d, ops, k);
        assert FreshAt(d, ops, k + 1);
        assert Issued(d, ops[..k]) + [] == Issued(d, ops[..k]);
      }
    }
    if RestartsSee(d, ops) {
      forall k | 0 <= k <= |ops|
        ensures FreshAt(d, ops, k)
      {
        SeenIsFresh(d, ops, k);
      }
    }
  }

  lemma {:induction false} SeenIsFresh(d: Disk, ops: seq<Op>, k: nat)
    requires k <= |ops| && RestartsSee(d, ops)
    ensures FreshAt(d, ops, k)
  {
    hide After, Scan, Largest, Rewrite, PrintRecord, SeenAt;
    if k == 0 {
      assert Issued(d, ops[..0]) == [];
    } else {
      SeenIsFresh(d, ops, k - 1);
      FreshStep(d, ops, k - 1);
    }
  }

  lemma FreshStep(d: Disk, ops: seq<Op>, k: nat)
    requires k < |ops| && FreshAt(d, ops, k) && (ops[k].Restart? ==> SeenAt(d, ops, k))
    ensures FreshAt(d, ops, k + 1)
  {
    hide Issued, After, Scan, Largest, Rewrite, PrintRecord;
    OneMoreOp(d, ops, k);
    var ids := Issued(d, ops[..k]);
    assert ids + [] == ids;
  }

  /** Then no id is given out twice. */
  lemma {:induction false} FreshIdsIncrease(d: Disk, ops: seq<Op>, k: nat)
    requires k <= |ops| && AlwaysFresh(d, ops)
    ensures Increasing(Issued(d, ops[..k]))
    decreases k
  {
    hide After, Increasing, AllBelow, Scan, Largest, Rewrite, PrintRecord;
    if k == 0 {
      assert Issued(d, ops[..0]) == [];
      NoneIncreasing();
    } else {
      FreshIdsIncrease(d, ops, k - 1);
      assert FreshAt(d, ops, k - 1);
      assert ops[..k][..k - 1] == ops[..k - 1];
      var ids := Issued(d, ops[..k - 1]);
      IncreasingAppend(ids, After(d, ops[..k - 1]).next);
      OneMoreOp(d, ops, k - 1);
      assert ids + [] == ids;
    }
  }

  lemma NoneIncreasing()
    ensures Increasing([])
  {
  }

  predicate Increasing(ids: seq<int>) {
    forall i, j :: 0 <= i < j < |ids| ==> ids[i] < ids[j]
  }

  lemma IncreasingAppend(ids: seq<int>, id: int)
    requires Increasing(ids) && AllBelow(ids, id)
    ensures Increasing(ids + [id])
  {
  }

  // ---------------------------------------------------------------- files of readable records

  lemma {:induction false} PrintAllAppend(rs: seq<Record>, r: Record)
    ensures PrintAll(rs + [r]) == PrintAll(rs) + PrintRecord(r)
  {
    if rs == [] {
      assert [r][1..] == [];
      assert rs + [r] == [r] && PrintRecord(r) + [] == PrintRecord(r) == [] + PrintRecord(r);
    } else {
      assert (rs + [r])[1..] == rs[1..] + [r];
      PrintAllAppend(rs[1..], r);
      Regroup(PrintRecord(rs[0]), PrintAll(rs[1..]), PrintRecord(r));
    }
  }

  /** Every record was written by this registry: valid host names, flags 0 or 1, ids strictly ascending and
      below the next one. */
  predicate WellFormed(rs: seq<Record>, next: int) {
    && AllValidHosts(rs)
    && (forall k :: 0 <= k < |rs| ==> (rs[k].valid == 0 || rs[k].valid == 1) && 0 <= rs[k].id)
    && (forall j, k :: 0 <= j < k < |rs| ==> rs[j].id < rs[k].id)
    && next == (if rs == [] then 0 else rs[|rs| - 1].id + 1)
  }

  /** The servers that can be looked up. */
  function Servers(rs: seq<Record>): map<int, (string, int)> {
    if rs == [] then map[]
    else
      var front, last := Servers(rs[..|rs| - 1]), rs[|rs| - 1];
      if last.valid != 0 then front[last.id := (last.host, last.port)] else front
  }

  lemma {:induction false} ServersAre(rs: seq<Record>, next: int, id: int)
    requires WellFormed(rs, next)
    ensures id in Servers(rs) <==> exists k :: 0 <= k < |rs| && rs[k].id == id && rs[k].valid != 0
    ensures forall k :: 0 <= k < |rs| && rs[k].id == id && rs[k].valid != 0 ==>
              id in Servers(rs) && Servers(rs)[id] == (rs[k].host, rs[k].port)
  {
    if rs != [] {
      var front := rs[..|rs| - 1];
      ServersAre(front, if front == [] then 0 else front[|front| - 1].id + 1, id);
      assert forall k :: 0 <= k < |front| ==> front[k] == rs[k];
    }
  }

  lemma AddWellFormed(rs: seq<Record>, next: int, r: Record)
    requires WellFormed(rs, next) && r.id == next && r.valid == 1
    ensures WellFormed(rs + [r], next + 1) <==> ValidHost(r.host)
  {
    hide ValidHost;
    var rs' := rs + [r];
    assert rs'[|rs|] == r && forall k :: 0 <= k < |rs| ==> rs'[k] == rs[k];
    assert AllValidHosts(rs') <==> ValidHost(r.host);
    assert |rs| > 0 ==> forall k :: 0 <= k < |rs| ==> rs[k].id <= rs[|rs| - 1].id;
  }

  lemma ServersAppend(rs: seq<Record>, r: Record)
    ensures Servers(rs + [r]) == if r.valid != 0 then Servers(rs)[r.id := (r.host, r.port)] else Servers(rs)
  {
    assert (rs + [r])[..|rs|] == rs;
  }

  lemma ServersDelete(rs: seq<Record>, next: int, i: nat)
    requires WellFormed(rs, next) && i < |rs|
    ensures var rs' := rs[i := rs[i].(valid := 0)];
            WellFormed(rs', next) && Servers(rs') == Servers(rs) - {rs[i].id}
  {
    var rs' := rs[i := rs[i].(valid := 0)];
    assert WellFormed(rs', next);
    hide Servers, WellFormed;
    forall id
      ensures id in Servers(rs') <==> id in Servers(rs) && id != rs[i].id
      ensures id in Servers(rs') ==> Servers(rs')[id] == Servers(rs)[id]
    {
      ServersAre(rs, next, id);
      ServersAre(rs', next, id);
      DistinctIds(rs, next);
      if id in Servers(rs') {
        var k :| 0 <= k < |rs'| && rs'[k].id == id && rs'[k].valid != 0;
        assert k != i && rs[k] == rs'[k];
      }
      if id in Servers(rs) && id != rs[i].id {
        var k :| 0 <= k < |rs| && rs[k].id == id && rs[k].valid != 0;
        assert rs'[k] == rs[k];
      }
    }
  }

  lemma DistinctIds(rs: seq<Record>, next: int)
    requires WellFormed(rs, next)
    ensures forall j, k :: 0 <= j < |rs| && 0 <= k < |rs| && rs[j].id == rs[k].id ==> j == k
  {
  }

  lemma {:induction false} ClearedText(rs: seq<Record>, id: int)
    requires forall k :: 0 <= k < |rs| ==> rs[k].valid == 0 || rs[k].valid == 1
    ensures |PrintAll(ClearFlags(rs, id))| == |PrintAll(rs)|
  {
    if rs != [] {
      ClearOne(rs, id);
      ClearedText(rs[1..], id);
      SameLength(rs[0]);
      hide PrintRecord;
    }
  }

  /** Clearing the valid flag keeps the length of the line. */
  lemma SameLength(r: Record)
    requires r.valid == 0 || r.valid == 1
    ensures |PrintRecord(r.(valid := 0))| == |PrintRecord(r)|
  {
  }

  /** On a readable file a delete in place leaves exactly the text of the records with the flag cleared. */
  lemma RewriteIsExact(rs: seq<Record>, next: int, id: int)
    requires WellFormed(rs, next)
    ensures Rewrite(PrintAll(rs), id) == PrintAll(ClearFlags(rs, id))
  {
    ScanPrinted(rs);
    ClearedText(rs, id);
    if Gone(rs, id) {
      GoneAlready(rs, id, next);
    }
  }

  lemma {:induction false} LookupInFront(rs: seq<Record>, r: Record, id: int)
    ensures Lookup(rs + [r], id) ==
            if Lookup(rs, id).Some? then Lookup(rs, id)
            else if r.id == id && r.valid != 0 then Some((r.host, r.port)) else None
  {
    if rs == [] {
      assert [r][1..] == [] && [] + [r] == [r];
    } else {
      assert (rs + [r])[1..] == rs[1..] + [r];
      LookupInFront(rs[1..], r, id);
    }
  }

  /** Looking a server up in a readable file is looking it up in the map. */
  lemma {:induction false} LookupIsMap(rs: seq<Record>, next: int, id: int)
    requires WellFormed(rs, next)
    ensures Lookup(rs, id) == if id in Servers(rs) then Some(Servers(rs)[id]) else None
  {
    if rs != [] {
      var front, last := rs[..|rs| - 1], rs[|rs| - 1];
      assert rs == front + [last];
      LookupInFront(front, last, id);
      LookupIsMap(front, NextId(front), id);
      ServersAre(front, NextId(front), id);
    }
  }

  function NextId(rs: seq<Record>): int {
    if rs == [] then 0 else rs[|rs| - 1].id + 1
  }

  lemma {:induction false} LargestIsLast(rs: seq<Record>, least: int)
    requires forall j, k :: 0 <= j < k < |rs| ==> rs[j].id < rs[k].id
    requires rs != [] ==> least < rs[0].id
    ensures Largest(rs, least) == if rs == [] then least else rs[|rs| - 1].id
  {
    if rs != [] {
      LargestIsLast(rs[1..], rs[0].id);
    }
  }

  // ---------------------------------------------------------------- histories of readable files

  /** The records an undisturbed registry would hold. */
  function RecordsStep(rs: seq<Record>, op: Op): seq<Record> {
    match op
    case AddServer(host, port) => rs + [NewRecord(NextId(rs), host, port)]
    case DeleteServer(id) => ClearFlags(rs, id)
    case Restart => rs
  }

  function RecordsAfter(rs: seq<Record>, ops: seq<Op>): seq<Record> {
    if ops == [] then rs else RecordsStep(RecordsAfter(rs, ops[..|ops| - 1]), ops[|ops| - 1])
  }

  /** The registry as a plain map with a counter. */
  function MapAfter(servers: map<int, (string, int)>, next: int, ops: seq<Op>): (map<int, (string, int)>, int) {
    if ops == [] then (servers, next)
    else
      var (was, n) := MapAfter(servers, next, ops[..|ops| - 1]);
      match ops[|ops| - 1]
      case AddServer(host, port) => (was[n := (Cut(host), port)], n + 1)
      case DeleteServer(id) => (was - {id}, n)
      case Restart => (was, n)
  }

  predicate HostsValid(ops: seq<Op>) {
    forall k :: 0 <= k < |ops| ==> HostValid(ops[k])
  }

  predicate HostValid(op: Op) {
    op.AddServer? ==> ValidHost(Cut(op.host))
  }

  lemma StepOk(rs: seq<Record>, op: Op)
    requires WellFormed(rs, NextId(rs)) && HostValid(op)
    ensures WellFormed(RecordsStep(rs, op), NextId(RecordsStep(rs, op)))
    ensures Step(Disk(PrintAll(rs), NextId(rs)), op) == Disk(PrintAll(RecordsStep(rs, op)), NextId(RecordsStep(rs, op)))
    ensures NextId(RecordsStep(rs, op)) == NextId(rs) + if op.AddServer? then 1 else 0
    ensures Servers(RecordsStep(rs, op)) ==
            if op.AddServer? then Servers(rs)[NextId(rs) := (Cut(op.host), op.port)]
            else if op.DeleteServer? then Servers(rs) - {op.id}
            else Servers(rs)
  {
    hide WellFormed, Servers, PrintAll, NextId, Rewrite, ClearFlags, ValidHost, Cut;
    match op
    case AddServer(host, port) =>
      var r := NewRecord(NextId(rs), host, port);
      AddWellFormed(rs, NextId(rs), r);
      NextIdOf(rs + [r], NextId(rs) + 1);
      ServersAppend(rs, r);
      PrintAllAppend(rs, r);
    case DeleteServer(id) =>
      DeleteStep(rs, id);
      RewriteIsExact(rs, NextId(rs), id);
    case Restart =>
      RestartStep(rs);
  }

  lemma RestartStep(rs: seq<Record>)
    requires WellFormed(rs, NextId(rs))
    ensures Largest(Scan(PrintAll(rs)), -1) + 1 == NextId(rs)
  {
    ScanPrinted(rs);
    LargestIsLast(rs, -1);
    hide Scan, PrintAll, Largest;
  }

  lemma DeleteStep(rs: seq<Record>, id: int)
    requires WellFormed(rs, NextId(rs))
    ensures var rs' := ClearFlags(rs, id);
            WellFormed(rs', NextId(rs')) && NextId(rs') == NextId(rs) && Servers(rs') == Servers(rs) - {id}
  {
    hide Servers, WellFormed, NextId, ClearFlags;
    if i :| 0 <= i < |rs| && rs[i].id == id {
      ClearsOne(rs, id, i);
      ServersDelete(rs, NextId(rs), i);
      NextIdOf(ClearFlags(rs, id), NextId(rs));
    } else {
      ClearsNone(rs, id);
      ServersAre(rs, NextId(rs), id);
    }
  }

  lemma NextIdOf(rs: seq<Record>, next: int)
    requires WellFormed(rs, next)
    ensures NextId(rs) == next
  {
  }

  lemma ClearsOne(rs: seq<Record>, id: int, i: nat)
    requires WellFormed(rs, NextId(rs)) && i < |rs| && rs[i].id == id
    ensures ClearFlags(rs, id) == rs[i := rs[i].(valid := 0)]
  {
    DistinctIds(rs, NextId(rs));
    hide WellFormed, NextId;
  }

  lemma ClearsNone(rs: seq<Record>, id: int)
    requires forall i :: 0 <= i < |rs| ==> rs[i].id != id
    ensures ClearFlags(rs, id) == rs
  {
  }

  /** While host names are valid the file is the text of the records, and the servers are those of the map. */
  lemma {:induction false} ReadableHistory(rs: seq<Record>, ops: seq<Op>)
    requires WellFormed(rs, NextId(rs)) && HostsValid(ops)
    ensures var now := RecordsAfter(rs, ops);
            && WellFormed(now, NextId(now))
            && After(Disk(PrintAll(rs), NextId(rs)), ops) == Disk(PrintAll(now), NextId(now))
            && (Servers(now), NextId(now)) == MapAfter(Servers(rs), NextId(rs), ops)
  {
    hide WellFormed, Step, Servers, PrintAll, RecordsStep, HostsValid, HostValid, NextId, ValidHost, Cut;
    if ops != [] {
      var n := |ops| - 1;
      HostsFront(ops, n);
      ReadableHistory(rs, ops[..n]);
      StepOk(RecordsAfter(rs, ops[..n]), ops[n]);
    }
  }

  lemma HostsFront(ops: seq<Op>, n: nat)
    requires HostsValid(ops) && n <= |ops|
    ensures HostsValid(ops[..n]) && (n < |ops| ==> HostValid(ops[n]))
  {
    hide HostValid;
    assert forall i :: 0 <= i < n ==> ops[..n][i] == ops[i] && HostValid(ops[i]);
  }

  /** After `k` operations the file reads back as the records an undisturbed registry would hold. */
  predicate ReadsBack(rs: seq<Record>, ops: seq<Op>, k: nat)
    requires k <= |ops|
  {
    Scan(After(Disk(PrintAll(rs), NextId(rs)), ops[..k]).file) == RecordsAfter(rs, ops[..k])
  }

  /** Over any history, restarts and deletes in place included, the file always reads back as an undisturbed
      registry if and only if every host name added is non-empty and free of white space once it is cut to
      its field; and then every lookup answers as the plain map does. */
  lemma RegistryIsMap(rs: seq<Record>, ops: seq<Op>)
    requires WellFormed(rs, NextId(rs))
    ensures (forall k :: 0 <= k <= |ops| ==> ReadsBack(rs, ops, k)) <==> HostsValid(ops)
    ensures HostsValid(ops) ==>
              var d, m := After(Disk(PrintAll(rs), NextId(rs)), ops), MapAfter(Servers(rs), NextId(rs), ops);
              && d.next == m.1
              && forall id :: Lookup(Scan(d.file), id) == if id in m.0 then Some(m.0[id]) else None
  {
    hide WellFormed, Servers, Scan, Lookup, After, RecordsAfter, MapAfter, PrintAll, NextId;
    if HostsValid(ops) {
      forall k | 0 <= k <= |ops|
        ensures ReadsBack(rs, ops, k)
      {
        ReadableMoment(rs, ops, k);
      }
      ReadableMoment(rs, ops, |ops|);
      assert ops[..|ops|] == ops;
      ReadableHistory(rs, ops);
      forall id
        ensures var d, m := After(Disk(PrintAll(rs), NextId(rs)), ops), MapAfter(Servers(rs), NextId(rs), ops);
                Lookup(Scan(d.file), id) == if id in m.0 then Some(m.0[id]) else None
      {
        LookupIsMap(RecordsAfter(rs, ops), NextId(RecordsAfter(rs, ops)), id);
      }
    } else {
      var n := FirstInvalid(ops);
      UnreadableMoment(rs, ops, n);
    }
  }

  lemma {:induction false} StaysInMap(servers: map<int, (string, int)>, next: int, before: seq<Op>, host: string,
                                      port: int, after: seq<Op>)
    requires DeleteServer(MapAfter(servers, next, before).1) !in after
    ensures var id := MapAfter(servers, next, before).1;
            var m := MapAfter(servers, next, before + [AddServer(host, port)] + after);
            id < m.1 && id in m.0 && m.0[id] == (Cut(host), port)
    decreases |after|
  {
    hide Cut;
    var ops := before + [AddServer(host, port)] + after;
    if after == [] {
      assert ops[..|ops| - 1] == before && ops[|ops| - 1] == AddServer(host, port);
    } else {
      var rest, last := after[..|after| - 1], after[|after| - 1];
      assert ops[..|ops| - 1] == before + [AddServer(host, port)] + rest && ops[|ops| - 1] == last;
      assert last in after;
      StaysInMap(servers, next, before, host, port, rest);
    }
  }

  /** A server is found again under the id it was given, with its port and its whole host name if that has at
      most 126 characters, otherwise the first 126 of them: whatever is added, deleted or restarted
      afterwards, as long as this server is not deleted. */
  lemma AddedServerIsFound(rs: seq<Record>, before: seq<Op>, host: string, port: int, after: seq<Op>)
    requires WellFormed(rs, NextId(rs))
    requires HostsValid(before + [AddServer(host, port)] + after)
    requires DeleteServer(After(Disk(PrintAll(rs), NextId(rs)), before).next) !in after
    ensures var id := After(Disk(PrintAll(rs), NextId(rs)), before).next;
            var d := After(Disk(PrintAll(rs), NextId(rs)), before + [AddServer(host, port)] + after);
            Lookup(Scan(d.file), id) == Some((if |host| <= 126 then host else host[..126], port))
  {
    var ops := before + [AddServer(host, port)] + after;
    HostsFront(ops, |before|);
    assert ops[..|before|] == before;
    RegistryIsMap(rs, before);
    RegistryIsMap(rs, ops);
    StaysInMap(Servers(rs), NextId(rs), before, host, port, after);
    hide After, MapAfter, Scan, Lookup, PrintAll, Servers, NextId, WellFormed;
  }

  lemma ReadableMoment(rs: seq<Record>, ops: seq<Op>, k: nat)
    requires WellFormed(rs, NextId(rs)) && HostsValid(ops) && k <= |ops|
    ensures ReadsBack(rs, ops, k)
  {
    HostsFront(ops, k);
    ReadableHistory(rs, ops[..k]);
    ScanPrinted(RecordsAfter(rs, ops[..k]));
  }

  lemma {:induction false} FirstInvalid(ops: seq<Op>) returns (n: nat)
    requires !HostsValid(ops)
    ensures n < |ops| && HostsValid(ops[..n]) && !HostValid(ops[n])
  {
    var front := ops[..|ops| - 1];
    if HostsValid(front) {
      n := |ops| - 1;
      assert forall k :: 0 <= k < n ==> ops[k] == front[k] && HostValid(front[k]);
    } else {
      n := FirstInvalid(front);
      assert front[..n] == ops[..n];
    }
  }

  lemma UnreadableMoment(rs: seq<Record>, ops: seq<Op>, n: nat)
    requires WellFormed(rs, NextId(rs)) && n < |ops| && HostsValid(ops[..n]) && !HostValid(ops[n])
    ensures !ReadsBack(rs, ops, n + 1)
  {
    ReadableHistory(rs, ops[..n]);
    var now := RecordsAfter(rs, ops[..n]);
    var r := NewRecord(NextId(now), ops[n].host, ops[n].port);
    OneMoreOp(Disk(PrintAll(rs), NextId(rs)), ops, n);
    assert ops[..n + 1][..n] == ops[..n];
    assert RecordsAfter(rs, ops[..n + 1]) == now + [r];
    PrintAllAppend(now, r);
    ScanPrintedIff(now + [r]);
    assert (now + [r])[|now|] == r;
  }

  /** With valid host names no id is ever given out twice, restarts or not. */
  lemma IdsNeverReused(rs: seq<Record>, ops: seq<Op>)
    requires WellFormed(rs, NextId(rs)) && HostsValid(ops)
    ensures var ids := Issued(Disk(PrintAll(rs), NextId(rs)), ops);
            Increasing(ids) && forall i :: 0 <= i < |ids| ==> NextId(rs) <= ids[i]
  {
    var d := Disk(PrintAll(rs), NextId(rs));
    forall k | 0 <= k <= |ops|
      ensures FreshAt(d, ops, k)
      ensures forall i :: 0 <= i < |Issued(d, ops[..k])| ==> NextId(rs) <= Issued(d, ops[..k])[i]
    {
      ReadableIds(rs, ops, k);
    }
    FreshIdsIncrease(d, ops, |ops|);
    assert ops[..|ops|] == ops;
  }

  lemma {:induction false} ReadableIds(rs: seq<Record>, ops: seq<Op>, k: nat)
    requires WellFormed(rs, NextId(rs)) && HostsValid(ops) && k <= |ops|
    ensures var d := Disk(PrintAll(rs), NextId(rs));
            && FreshAt(d, ops, k) && NextId(rs) <= After(d, ops[..k]).next
            && forall i :: 0 <= i < |Issued(d, ops[..k])| ==> NextId(rs) <= Issued(d, ops[..k])[i]
  {
    hide HostsValid, HostValid, WellFormed, Servers, PrintAll, RecordsStep, Cut, NextId, ValidHost, Step, RecordsAfter;
    if k == 0 {
      assert ops[..0] == [];
    } else {
      hide After, Issued;
      ReadableIds(rs, ops, k - 1);
      HostsFront(ops, k - 1);
      ReadableHistory(rs, ops[..k - 1]);
      StepOk(RecordsAfter(rs, ops[..k - 1]), ops[k - 1]);
      OneMoreOp(Disk(PrintAll(rs), NextId(rs)), ops, k - 1);
    }
  }

  // ---------------------------------------------------------------- unreadable host names

  /** One line that cannot be scanned hides itself from a restart, and its id is given out again; any other
      line leaves the next id above it. */
  lemma RestartForgetsIff(rs: seq<Record>, host: string, port: int)
    requires WellFormed(rs, NextId(rs))
    ensures var n := NextId(rs);
            var next := After(Disk(PrintAll(rs), n), [AddServer(host, port), Restart]).next;
            && n <= next
            && (next == n <==> ScanRecord(PrintRecord(NewRecord(n, host, port))).None?)
  {
    var d, n := Disk(PrintAll(rs), NextId(rs)), NextId(rs);
    var line := PrintRecord(NewRecord(n, host, port));
    var ops := [AddServer(host, port), Restart];
    assert ops[..1] == [AddServer(host, port)] && ops[..0] == [];
    OneMoreOp(d, ops, 0);
    OneMoreOp(d, ops, 1);
    assert ops[..2] == ops;
    LineStarts(NewRecord(n, host, port));
    ScanBefore(rs, line);
    LargestIsLast(rs, -1);
    LargestOfBoth(rs, Scan(line), -1);
    hide PrintAll, PrintRecord, WellFormed;
    if ScanRecord(line).Some? {
      ScanOne(line);
    }
    hide ScanRecord;
  }

  /** A line starts with its id. */
  lemma LineStarts(r: Record)
    requires r.id >= 0
    ensures PrintRecord(r) != "" && IsDigit(PrintRecord(r)[0])
    ensures ScanRecord(PrintRecord(r)).Some? ==> ScanRecord(PrintRecord(r)).value.0.id == r.id
  {
    var front := " " + (r.host + (" " + (Print(r.port) + (" " + (Print(r.valid) + ("\n" + ""))))));
    assert PrintRecord(r) == Print(r.id) + front && Print(r.id) == PrintNat(r.id);
    ScanPrintedInt(r.id, front);
    DigitsOf(r.id, front);
    hide Print, PrintNat, ScanInt, ScanWord;
  }

  /** Readable lines are read one by one, whatever follows them, as long as it starts with a number. */
  lemma {:induction false} ScanBefore(rs: seq<Record>, text: string)
    requires AllValidHosts(rs) && text != "" && IsDigit(text[0])
    requires forall k :: 0 <= k < |rs| ==> rs[k].id >= 0
    ensures PrintAll(rs) + text != "" && IsDigit((PrintAll(rs) + text)[0])
    ensures Scan(PrintAll(rs) + text) == rs + Scan(text)
  {
    hide ScanRecord, PrintRecord, ValidHost, Print, PrintNat;
    if rs == [] {
      assert PrintAll(rs) + text == text;
    } else {
      var rest := PrintAll(rs[1..]) + text;
      ScanBefore(rs[1..], text);
      assert SkipSpaces(rest) == rest;
      LineStarts(rs[0]);
      ScanPrintedRecord(rs[0], rest);
      Regroup(PrintRecord(rs[0]), PrintAll(rs[1..]), text);
      assert PrintAll(rs) + text == PrintRecord(rs[0]) + rest;
      ScanOne(PrintAll(rs) + text);
      assert Scan(PrintAll(rs) + text) == [rs[0]] + Scan(rest);
      assert [rs[0]] + (rs[1..] + Scan(text)) == rs + Scan(text);
    }
  }

  lemma {:induction false} LargestOfBoth(a: seq<Record>, b: seq<Record>, least: int)
    ensures Largest(a + b, least) == Largest(b, Largest(a, least))
  {
    if a == [] {
      assert a + b == b;
    } else {
      assert (a + b)[1..] == a[1..] + b;
      LargestOfBoth(a[1..], b, if a[0].id > least then a[0].id else least);
    }
  }

  // ---------------------------------------------------------------- host names that block the scan

  /** After its first word the host name goes on with something that is no number, as "a b" does: a scan
      gets no further than this record, whatever follows it. */
  predicate Blocks(host: string) {
    var text := SkipSpaces(host);
    var next := SkipSpaces(text[|Word(text)|..]);
    text != "" && next != "" && !IsDigit(next[0]) && next[0] != '-' && next[0] != '+'
  }

  lemma {:induction false} SkipConcat(a: string, b: string)
    requires SkipSpaces(a) != ""
    ensures SkipSpaces(a + b) == SkipSpaces(a) + b
  {
    if IsSpace(a[0]) {
      assert (a + b)[1..] == a[1..] + b;
      SkipConcat(a[1..], b);
    }
  }

  lemma {:induction false} WordConcat(a: string, b: string)
    requires |Word(a)| < |a|
    ensures Word(a + b) == Word(a)
  {
    if !IsSpace(a[0]) {
      assert (a + b)[1..] == a[1..] + b;
      WordConcat(a[1..], b);
    }
  }

  lemma {:induction false} WholeWord(host: string)
    requires forall k :: 0 <= k < |host| ==> !IsSpace(host[k])
    ensures Word(host) == host
  {
    if host != "" {
      WholeWord(host[1..]);
    }
  }

  lemma ValidNeverBlocks(host: string)
    requires ValidHost(host)
    ensures !Blocks(host)
  {
    WholeWord(host);
    assert SkipSpaces(host) == host && host[|host|..] == "";
  }

  lemma BlockedLine(r: Record, rest: string)
    requires Blocks(r.host)
    ensures ScanRecord(PrintRecord(r) + rest).None?
  {
    var tail := " " + (Print(r.port) + (" " + (Print(r.valid) + ("\n" + rest))));
    LineAppend(r, rest);
    ScanPrintedInt(r.id, " " + (r.host + tail));
    BlockedHost(r.host, tail);
    hide Print, ScanInt, ScanWord, Blocks;
  }

  lemma BlockedHost(host: string, tail: string)
    requires Blocks(host)
    ensures ScanWord(" " + (host + tail)).Some? && ScanInt(ScanWord(" " + (host + tail)).value.1).None?
  {
    var text := SkipSpaces(host);
    var more := text[|Word(text)|..];
    hide ScanInt;
    SkipConcat(host, tail);
    assert (" " + (host + tail))[1..] == host + tail;
    assert SkipSpaces(" " + (host + tail)) == text + tail;
    FirstOfText(host);
    WordConcat(text, tail);
    assert (text + tail)[|Word(text)|..] == more + tail;
    NoNumber(more, tail);
  }

  lemma {:induction false} FirstOfText(s: string)
    ensures SkipSpaces(s) != "" ==> !IsSpace(SkipSpaces(s)[0]) && Word(SkipSpaces(s)) != ""
  {
    if s != "" && IsSpace(s[0]) {
      FirstOfText(s[1..]);
    }
  }

  lemma NoNumber(more: string, tail: string)
    requires var next := SkipSpaces(more); next != "" && !IsDigit(next[0]) && next[0] != '-' && next[0] != '+'
    ensures ScanInt(more + tail).None?
  {
    SkipConcat(more, tail);
  }

  /** The file holds readable records, then one that blocks the scan, then anything. */
  ghost predicate Blocked(file: string, rs: seq<Record>, r: Record, rest: string) {
    && WellFormed(rs, r.id) && Blocks(r.host)
    && file == PrintAll(rs) + (PrintRecord(r) + rest)
  }

  lemma BlockedScan(file: string, rs: seq<Record>, r: Record, rest: string)
    requires Blocked(file, rs, r, rest)
    ensures Scan(file) == rs && Largest(Scan(file), -1) + 1 == r.id
  {
    LineStarts(r);
    BlockedLine(r, rest);
    LargestIsLast(rs, -1);
    hide PrintRecord, PrintAll, Blocks;
    ScanBefore(rs, PrintRecord(r) + rest);
    assert rs + [] == rs;
    hide ScanRecord;
  }

  /** Nothing that happens afterwards makes the record readable. */
  lemma BlockedStays(d: Disk, op: Op, rs: seq<Record>, r: Record, rest: string)
    returns (rs': seq<Record>, rest': string)
    requires Blocked(d.file, rs, r, rest)
    ensures Blocked(Step(d, op).file, rs', r, rest')
  {
    rs', rest' := rs, rest;
    hide Blocked, Scan, Rewrite;
    match op
    case AddServer(host, port) =>
      rest' := rest + PrintRecord(NewRecord(d.next, host, port));
      BlockedAdd(d.file, PrintRecord(NewRecord(d.next, host, port)), rs, r, rest);
    case DeleteServer(id) =>
      rs' := ClearFlags(rs, id);
      BlockedDelete(d.file, id, rs, r, rest);
    case Restart =>
  }

  lemma BlockedAdd(file: string, line: string, rs: seq<Record>, r: Record, rest: string)
    requires Blocked(file, rs, r, rest)
    ensures Blocked(file + line, rs, r, rest + line)
  {
    hide PrintRecord, PrintAll, WellFormed, Blocks;
    Regroup(PrintRecord(r), rest, line);
    Regroup(PrintAll(rs), PrintRecord(r) + rest, line);
  }

  lemma BlockedDelete(file: string, id: int, rs: seq<Record>, r: Record, rest: string)
    requires Blocked(file, rs, r, rest)
    ensures Blocked(Rewrite(file, id), ClearFlags(rs, id), r, rest)
  {
    assert WellFormed(rs, r.id) && NextId(rs) == r.id;
    assert forall k :: 0 <= k < |rs| ==> rs[k].valid == 0 || rs[k].valid == 1;
    hide WellFormed, NextId, Servers;
    BlockedScan(file, rs, r, rest);
    DeleteStep(rs, id);
    ClearedText(rs, id);
    if Gone(rs, id) {
      GoneAlready(rs, id, r.id);
    }
    hide PrintRecord, PrintAll, Blocks, ClearFlags, Scan, Gone;
    OverwriteFront(PrintAll(rs), PrintAll(ClearFlags(rs, id)), PrintRecord(r) + rest);
  }

  lemma GoneAlready(rs: seq<Record>, id: int, next: int)
    requires WellFormed(rs, next) && Gone(rs, id)
    ensures ClearFlags(rs, id) == rs
  {
    DistinctIds(rs, next);
  }

  lemma OverwriteFront(front: string, front': string, tail: string)
    requires |front| == |front'|
    ensures Overwrite(front + tail, front') == front' + tail
  {
    assert (front + tail)[|front|..] == tail;
  }

  lemma {:induction false} BlockedAfter(rs: seq<Record>, ops: seq<Op>, b: nat, k: nat)
    returns (rs': seq<Record>, r: Record, rest: string)
    requires WellFormed(rs, NextId(rs)) && b < k <= |ops| && HostsValid(ops[..b])
    requires ops[b].AddServer? && Blocks(Cut(ops[b].host))
    ensures var d := Disk(PrintAll(rs), NextId(rs));
            Blocked(After(d, ops[..k]).file, rs', r, rest) && r.id in Issued(d, ops[..k])
    decreases k
  {
    var d := Disk(PrintAll(rs), NextId(rs));
    hide After, Issued, PrintAll, PrintRecord, Blocks, Blocked, HostsValid, WellFormed, Step;
    OneMoreOp(d, ops, k - 1);
    if k == b + 1 {
      ReadableHistory(rs, ops[..b]);
      rs' := RecordsAfter(rs, ops[..b]);
      r, rest := NewRecord(NextId(rs'), ops[b].host, ops[b].port), "";
      BlockedNow(rs', ops[b].host, ops[b].port);
    } else {
      rs', r, rest := BlockedAfter(rs, ops, b, k - 1);
      rs', rest := BlockedStays(After(d, ops[..k - 1]), ops[k - 1], rs', r, rest);
    }
  }

  lemma BlockedNow(rs: seq<Record>, host: string, port: int)
    requires WellFormed(rs, NextId(rs)) && Blocks(Cut(host))
    ensures var r := NewRecord(NextId(rs), host, port);
            Blocked(Step(Disk(PrintAll(rs), NextId(rs)), AddServer(host, port)).file, rs, r, "")
  {
    hide PrintAll, PrintRecord, WellFormed, Blocks;
    var line := PrintRecord(NewRecord(NextId(rs), host, port));
    assert line + "" == line;
  }

  /** Every host name is valid or blocks the scan. */
  predicate HostsPlain(ops: seq<Op>) {
    forall k :: 0 <= k < |ops| ==> HostValid(ops[k]) || Blocking(ops[k])
  }

  predicate Blocking(op: Op) {
    op.AddServer? && Blocks(Cut(op.host))
  }

  /** With such host names, over any history: the next id stays above all ids given out if and only if no
      restart comes after a host name that blocks the scan was added. */
  lemma FreshUnlessBlockedIff(rs: seq<Record>, ops: seq<Op>)
    requires WellFormed(rs, NextId(rs)) && HostsPlain(ops)
    ensures AlwaysFresh(Disk(PrintAll(rs), NextId(rs)), ops) <==>
            forall b, k :: 0 <= b < k < |ops| && Blocking(ops[b]) ==> !ops[k].Restart?
  {
    var d := Disk(PrintAll(rs), NextId(rs));
    AlwaysFreshIff(d, ops);
    hide AlwaysFresh, WellFormed, PrintAll, HostValid, Blocking, SeenAt;
    if forall b, k :: 0 <= b < k < |ops| && Blocking(ops[b]) ==> !ops[k].Restart? {
      forall k | 0 <= k < |ops| && ops[k].Restart?
        ensures SeenAt(d, ops, k)
      {
        assert forall b :: 0 <= b < k ==> ops[..k][b] == ops[b] && !Blocking(ops[b]);
        ReadableSeen(rs, ops, k);
      }
    } else {
      var b, k :| 0 <= b < k < |ops| && Blocking(ops[b]) && ops[k].Restart?;
      BlockedUnseen(rs, ops, b, k);
    }
  }

  lemma ReadableSeen(rs: seq<Record>, ops: seq<Op>, k: nat)
    requires WellFormed(rs, NextId(rs)) && k <= |ops| && HostsValid(ops[..k])
    ensures SeenAt(Disk(PrintAll(rs), NextId(rs)), ops, k)
  {
    ReadableIds(rs, ops[..k], k);
    ReadableHistory(rs, ops[..k]);
    assert ops[..k][..k] == ops[..k];
    var now := RecordsAfter(rs, ops[..k]);
    ScanPrinted(now);
    LargestIsLast(now, -1);
    hide PrintAll, Issued, After, RecordsAfter, Scan, Largest;
  }

  lemma BlockedUnseen(rs: seq<Record>, ops: seq<Op>, b: nat, k: nat)
    requires WellFormed(rs, NextId(rs)) && HostsPlain(ops)
    requires b < k < |ops| && Blocking(ops[b])
    ensures !SeenAt(Disk(PrintAll(rs), NextId(rs)), ops, k)
  {
    if ValidHost(Cut(ops[b].host)) {
      ValidNeverBlocks(Cut(ops[b].host));
    }
    assert !HostValid(ops[b]);
    var n := FirstInvalid(ops);
    assert forall i :: 0 <= i < n ==> ops[..n][i] == ops[i] && HostValid(ops[..n][i]);
    hide WellFormed, PrintAll, Issued, After, Blocks, Blocked, HostsValid, HostsPlain, Scan, Largest, Cut;
    assert Blocking(ops[n]);
    var rs', r, rest := BlockedAfter(rs, ops, n, k);
    BlockedScan(After(Disk(PrintAll(rs), NextId(rs)), ops[..k]).file, rs', r, rest);
  }

  /** The registry accepts "a b"; after a restart its id is given out again. */
  lemma SpacedHostReusesId()
    ensures Issued(Disk("", 0), [AddServer("a b", 80), Restart, AddServer("c", 81)]) == [0, 0]
  {
    SpaceBlocks();
    var line := PrintRecord(NewRecord(0, "a b", 80));
    BlockedLine(NewRecord(0, "a b", 80), "");
    assert line + "" == line;
    ForgottenIdReused([], "a b", 80, "c", 81);
  }

  lemma ForgottenIdReused(rs: seq<Record>, host: string, port: int, host': string, port': int)
    requires WellFormed(rs, NextId(rs)) && ScanRecord(PrintRecord(NewRecord(NextId(rs), host, port))).None?
    ensures Issued(Disk(PrintAll(rs), NextId(rs)), [AddServer(host, port), Restart, AddServer(host', port')]) ==
            [NextId(rs), NextId(rs)]
  {
    var d, ops := Disk(PrintAll(rs), NextId(rs)), [AddServer(host, port), Restart, AddServer(host', port')];
    RestartForgetsIff(rs, host, port);
    hide PrintAll, PrintRecord, ScanRecord, Step, WellFormed, NextId;
    assert ops[..0] == [] && ops[..2] == [AddServer(host, port), Restart] && ops[..3] == ops;
    OneMoreOp(d, ops, 0);
    OneMoreOp(d, ops, 1);
    OneMoreOp(d, ops, 2);
  }

  lemma SpaceBlocks()
    ensures Blocks("a b") && Cut("a b") == "a b"
  {
    var host := "a b";
    assert host[1..][1..] == host[2..];
    assert SkipSpaces(host) == host && Word(host[1..]) == [] && Word(host) == ['a'];
    assert SkipSpaces(host[1..]) == host[2..] && host[2..][0] == 'b';
  }
}
