/** The registry of graph servers: a text file with one line per server, appended to when a server is
    added and rewritten in place, without truncation, when one is deleted. */
module ServerRegistry {
  import opened Decimal
  import opened Sequences

  const MAX_HOSTNAME_LEN := 126
  const BUFFER_SIZE := 1024

  datatype Record = Record(id: int, host: string, port: int, valid: int)

  // ---------------------------------------------------------------- the text of a record

  /** The format "%d %s %d %d\n", printing. */
  function PrintRecord(r: Record): string {
    LineBefore(r, "")
  }

  /** The line of a record, and what follows it. */
  function LineBefore(r: Record, rest: string): string {
    Print(r.id) + (" " + (r.host + (" " + (Print(r.port) + (" " + (Print(r.valid) + ("\n" + rest)))))))
  }

  function PrintAll(rs: seq<Record>): string {
    if rs == [] then [] else PrintRecord(rs[0]) + PrintAll(rs[1..])
  }

  function AfterDigits(s: string): (rest: string)
    ensures |rest| <= |s|
  {
    if s != [] && IsDigit(s[0]) then AfterDigits(s[1..]) else s
  }

  /** `%d` of `fscanf`: a number, and the text after it. */
  function ScanInt(t: string): (r: Option<(int, string)>)
    ensures r.Some? ==> |r.value.1| < |t|
  {
    SkipSpacesShorter(t);
    var u := SkipSpaces(t);
    var signed := u != [] && (u[0] == '-' || u[0] == '+');
    var digits := if signed then u[1..] else u;
    if digits == [] || !IsDigit(digits[0]) then None
    else
      var magnitude: int := ReadDigits(digits, 0);
      Some((if signed && u[0] == '-' then -magnitude else magnitude, AfterDigits(digits[1..])))
  }

  lemma {:induction false} SkipSpacesShorter(t: string)
    ensures |SkipSpaces(t)| <= |t|
  {
    if t != [] && IsSpace(t[0]) {
      SkipSpacesShorter(t[1..]);
    }
  }

  /** The characters up to the first space. */
  function Word(s: string): (w: string)
    ensures w <= s
  {
    if s == [] || IsSpace(s[0]) then [] else [s[0]] + Word(s[1..])
  }

  /** `%s` of `fscanf`. */
  function ScanWord(t: string): (r: Option<(string, string)>)
    ensures r.Some? ==> |r.value.1| < |t| && ValidHost(r.value.0)
  {
    SkipSpacesShorter(t);
    WordHasNoSpace(SkipSpaces(t));
    var u := SkipSpaces(t);
    var w := Word(u);
    if w == [] then None else Some((w, u[|w|..]))
  }

  lemma {:induction false} WordHasNoSpace(s: string)
    ensures forall k :: 0 <= k < |Word(s)| ==> !IsSpace(Word(s)[k])
  {
    if s != [] && !IsSpace(s[0]) {
      WordHasNoSpace(s[1..]);
    }
  }

  /** The same format, scanning; all four fields or nothing. */
  function ScanRecord(t: string): (r: Option<(Record, string)>)
    ensures r.Some? ==> |r.value.1| < |t| && ValidHost(r.value.0.host)
  {
    var id := ScanInt(t);
    if id.None? then None
    else
      var host := ScanWord(id.value.1);
      if host.None? then None
      else
        var port := ScanInt(host.value.1);
        if port.None? then None
        else
          var valid := ScanInt(port.value.1);
          if valid.None? then None
          else
            SkipSpacesShorter(valid.value.1);
            Some((Record(id.value.0, host.value.0, port.value.0, valid.value.0), SkipSpaces(valid.value.1)))
  }

  /** What a loop of `fscanf` calls reads. */
  function Scan(t: string): seq<Record>
    decreases |t|
  {
    var r := ScanRecord(t);
    if r.None? then [] else [r.value.0] + Scan(r.value.1)
  }

  /** A host name that survives being printed and scanned: not empty, no white space. */
  predicate ValidHost(host: string) {
    host != "" && forall k :: 0 <= k < |host| ==> !IsSpace(host[k])
  }

  // ---------------------------------------------------------------- scanning what was printed

  lemma {:induction false} AfterDigitsConcat(a: string, b: string)
    requires forall k :: 0 <= k < |a| ==> IsDigit(a[k])
    ensures AfterDigits(a + b) == AfterDigits(b)
  {
    if a == [] {
      assert a + b == b;
    } else {
      assert (a + b)[1..] == a[1..] + b;
      AfterDigitsConcat(a[1..], b);
    }
  }

  lemma ScanPrintedInt(i: int, rest: string)
    requires rest == [] || !IsDigit(rest[0])
    ensures ScanInt(Print(i) + rest) == ScanInt(" " + (Print(i) + rest)) == Some((i, rest))
  {
    var n: nat := if i < 0 then -i else i;
    DigitsOf(n, rest);
    var u, digits := Print(i) + rest, PrintNat(n) + rest;
    assert u == if i < 0 then ['-'] + digits else digits;
    hide Print, PrintNat, ReadDigits, AfterDigits;
    assert i < 0 ==> u[1..] == digits;
    assert SkipSpaces(u) == u;
    assert (" " + u)[1..] == u && SkipSpaces(" " + u) == SkipSpaces(u);
  }

  lemma DigitsOf(n: nat, rest: string)
    requires rest == [] || !IsDigit(rest[0])
    ensures var digits := PrintNat(n) + rest;
            digits != [] && IsDigit(digits[0]) && ReadDigits(digits, 0) == n && AfterDigits(digits[1..]) == rest
  {
    var digits := PrintNat(n) + rest;
    ReadPrintedNat(n);
    ReadConcat(PrintNat(n), rest, 0);
    assert digits[1..] == PrintNat(n)[1..] + rest;
    AfterDigitsConcat(PrintNat(n)[1..], rest);
  }

  lemma {:induction false} WordOfHost(host: string, rest: string)
    requires forall k :: 0 <= k < |host| ==> !IsSpace(host[k])
    requires rest != [] && IsSpace(rest[0])
    ensures Word(host + rest) == host
  {
    if host == [] {
      assert host + rest == rest;
    } else {
      assert (host + rest)[1..] == host[1..] + rest;
      WordOfHost(host[1..], rest);
    }
  }

  lemma ScanPrintedHost(host: string, rest: string)
    requires ValidHost(host) && rest != [] && IsSpace(rest[0])
    ensures ScanWord(" " + (host + rest)) == Some((host, rest))
  {
    var u := host + rest;
    assert (" " + u)[1..] == u && u[0] == host[0] && SkipSpaces(u) == u && SkipSpaces(" " + u) == u;
    WordOfHost(host, rest);
    assert u[|host|..] == rest;
  }

  /** A record with a valid host name is scanned exactly, and the scan goes on with the next one. */
  lemma ScanPrintedRecord(r: Record, rest: string)
    requires ValidHost(r.host)
    ensures ScanRecord(PrintRecord(r) + rest) == Some((r, SkipSpaces(rest)))
  {
    var end := "\n" + rest;
    var tail := " " + (Print(r.valid) + end);
    var middle := " " + (Print(r.port) + tail);
    var front := " " + (r.host + middle);
    LineAppend(r, rest);
    assert PrintRecord(r) + rest == Print(r.id) + front;
    hide Print, ScanInt, ScanWord, SkipSpaces, ValidHost;
    SkipNewline(rest);
    ScanPrintedInt(r.id, front);
    ScanPrintedHost(r.host, middle);
    ScanPrintedInt(r.port, tail);
    ScanPrintedInt(r.valid, end);
  }

  lemma SkipNewline(rest: string)
    ensures SkipSpaces("\n" + rest) == SkipSpaces(rest)
  {
    assert ("\n" + rest)[1..] == rest;
  }

  lemma LineAppend(r: Record, rest: string)
    ensures PrintRecord(r) + rest == LineBefore(r, rest)
  {
    hide Print;
    var d := Print(r.valid) + "\n";
    var c := Print(r.port) + (" " + d);
    var b := r.host + (" " + c);
    assert "\n" + "" == "\n";
    Regroup(Print(r.valid), "\n", rest);
    Regroup(" ", d, rest);
    Regroup(Print(r.port), " " + d, rest);
    Regroup(" ", c, rest);
    Regroup(r.host, " " + c, rest);
    Regroup(" ", b, rest);
    Regroup(Print(r.id), " " + b, rest);
  }

  lemma StartsWithNumber(rs: seq<Record>)
    ensures SkipSpaces(PrintAll(rs)) == PrintAll(rs)
  {
    if rs != [] {
      assert PrintAll(rs)[0] == Print(rs[0].id)[0];
    }
  }

  predicate AllValidHosts(rs: seq<Record>) {
    forall k :: 0 <= k < |rs| ==> ValidHost(rs[k].host)
  }

  lemma {:induction false} ScanPrinted(rs: seq<Record>)
    requires AllValidHosts(rs)
    ensures Scan(PrintAll(rs)) == rs
  {
    if rs != [] {
      ScanPrintedRecord(rs[0], PrintAll(rs[1..]));
      StartsWithNumber(rs[1..]);
      ScanPrinted(rs[1..]);
    }
  }

  lemma {:induction false} ScannedHosts(t: string)
    ensures AllValidHosts(Scan(t))
    decreases |t|
  {
    var r := ScanRecord(t);
    if r.Some? {
      ScannedHosts(r.value.1);
    }
  }

  /** A file of records is read back exactly when every host name is non-empty and free of white space. */
  lemma ScanPrintedIff(rs: seq<Record>)
    ensures Scan(PrintAll(rs)) == rs <==> AllValidHosts(rs)
  {
    ScannedHosts(PrintAll(rs));
    if AllValidHosts(rs) {
      ScanPrinted(rs);
    }
  }

  // ---------------------------------------------------------------- what the operations make of a file

  /** The largest id in the file, or `least` if none is larger. */
  function Largest(rs: seq<Record>, least: int): (max: int)
    ensures max >= least && forall k :: 0 <= k < |rs| ==> rs[k].id <= max
    ensures max == least || exists k :: 0 <= k < |rs| && rs[k].id == max
  {
    if rs == [] then least
    else
      var max := Largest(rs[1..], if rs[0].id > least then rs[0].id else least);
      assert max == least || exists k :: 0 <= k < |rs| && rs[k].id == max by {
        if k :| 0 <= k < |rs[1..]| && rs[1..][k].id == max {
          assert rs[k + 1].id == max;
        } else if max != least {
          assert rs[0].id == max;
        }
      }
      max
  }

  /** The first record with this id that is not cleared. */
  function Lookup(rs: seq<Record>, id: int): Option<(string, int)> {
    if rs == [] then None
    else if rs[0].id == id && rs[0].valid != 0 then Some((rs[0].host, rs[0].port))
    else Lookup(rs[1..], id)
  }

  lemma {:induction false} LookupMeans(rs: seq<Record>, id: int)
    ensures Lookup(rs, id).None? ==> forall k :: 0 <= k < |rs| ==> rs[k].id != id || rs[k].valid == 0
    ensures Lookup(rs, id).Some? ==>
              exists k :: 0 <= k < |rs| && rs[k].id == id && rs[k].valid != 0
                          && Lookup(rs, id).value == (rs[k].host, rs[k].port)
                          && forall j :: 0 <= j < k ==> rs[j].id != id || rs[j].valid == 0
  {
    if rs != [] && !(rs[0].id == id && rs[0].valid != 0) {
      LookupMeans(rs[1..], id);
      if Lookup(rs, id).Some? {
        var k :| 0 <= k < |rs[1..]| && rs[1..][k].id == id && rs[1..][k].valid != 0
                 && Lookup(rs, id).value == (rs[1..][k].host, rs[1..][k].port)
                 && forall j :: 0 <= j < k ==> rs[1..][j].id != id || rs[1..][j].valid == 0;
        assert rs[k + 1] == rs[1..][k];
        assert forall j :: 1 <= j < k + 1 ==> rs[j] == rs[1..][j - 1];
      }
    }
  }

  /** Some record with this id is cleared already. */
  predicate Gone(rs: seq<Record>, id: int) {
    exists k :: 0 <= k < |rs| && rs[k].id == id && rs[k].valid == 0
  }

  predicate Has(rs: seq<Record>, id: int) {
    exists k :: 0 <= k < |rs| && rs[k].id == id
  }

  function ClearFlags(rs: seq<Record>, id: int): (cleared: seq<Record>)
    ensures |cleared| == |rs|
    ensures forall k :: 0 <= k < |rs| ==> cleared[k] == if rs[k].id == id then rs[k].(valid := 0) else rs[k]
  {
    if rs == [] then []
    else [if rs[0].id == id then rs[0].(valid := 0) else rs[0]] + ClearFlags(rs[1..], id)
  }

  /** Writing `text` over the front of a file; what lies behind it stays. */
  function Overwrite(file: string, text: string): string {
    if |text| <= |file| then text + file[|text|..] else text
  }

  /** The file after a delete. */
  function Rewrite(file: string, id: int): string {
    if Gone(Scan(file), id) then file else Overwrite(file, PrintAll(ClearFlags(Scan(file), id)))
  }

  function Cut(host: string): string {
    if |host| <= MAX_HOSTNAME_LEN then host else host[..MAX_HOSTNAME_LEN]
  }

  /** The record a new server gets. */
  function NewRecord(id: int, host: string, port: int): Record {
    Record(id, Cut(host), port, 1)
  }

  /** One `fgets`: up to a line end, at most a buffer full. */
  method ReadChunk(text: string) returns (chunk: string)
    requires text != ""
    ensures 0 < |chunk| <= |text| && chunk == text[..|chunk|]
  {
    var n := 1;
    while n < |text| && n < BUFFER_SIZE - 1 && text[n - 1] != '\n'
      invariant 1 <= n <= |text|
    {
      n := n + 1;
    }
    chunk := text[..n];
  }

  /** A file and the id the next server gets. */
  class Registry {
    var file: string
    var nextServerId: int

    /** A new process on a file an earlier one left behind, whatever is in it. */
    constructor (file: string)
      ensures this.file == file && nextServerId == Largest(Scan(file), -1) + 1
    {
      this.file, nextServerId := file, 0;
      new;
      Init();
    }

    /** `init_server_info`: the id after the largest one that can be read. */
    method Init()
      modifies this`nextServerId
      ensures nextServerId == Largest(Scan(file), -1) + 1
    {
      hide ScanRecord;
      var maxServerId := -1;
      var rest := file;
      while true
        invariant Largest(Scan(rest), maxServerId) == Largest(Scan(file), -1)
        decreases |rest|
      {
        var r := ScanRecord(rest);
        if r.None? {
          break;
        }
        ScanOne(rest);
        if r.value.0.id > maxServerId {
          maxServerId := r.value.0.id;
        }
        rest := r.value.1;
      }
      nextServerId := maxServerId + 1;
    }

    /** `add_server_info`: the file gets the record whatever the host name is. */
    method Add(hostname: string, port: int) returns (id: int)
      modifies this
      ensures id == old(nextServerId) && nextServerId == id + 1
      ensures file == old(file) + PrintRecord(NewRecord(id, hostname, port))
    {
      var info := Record(nextServerId, Cut(hostname), port, 1);
      file := file + PrintRecord(info);
      id := nextServerId;
      nextServerId := nextServerId + 1;
    }

    /** `get_server_info`: the first record with this id that is still valid, among those that can be read. */
    method Get(serverId: int) returns (info: Option<(string, int)>)
      ensures info == Lookup(Scan(file), serverId)
      ensures info.None? ==>
                forall k :: 0 <= k < |Scan(file)| ==> Scan(file)[k].id != serverId || Scan(file)[k].valid == 0
      ensures info.Some? ==>
                exists k :: 0 <= k < |Scan(file)| && Scan(file)[k].id == serverId && Scan(file)[k].valid != 0
                            && info.value == (Scan(file)[k].host, Scan(file)[k].port)
                            && forall j :: 0 <= j < k ==> Scan(file)[j].id != serverId || Scan(file)[j].valid == 0
    {
      LookupMeans(Scan(file), serverId);
      hide ScanRecord;
      var rest := file;
      while true
        invariant Lookup(Scan(rest), serverId) == Lookup(Scan(file), serverId)
        decreases |rest|
      {
        var r := ScanRecord(rest);
        if r.None? {
          break;
        }
        ScanOne(rest);
        if r.value.0.id == serverId && r.value.0.valid != 0 {
          return Some((r.value.0.host, r.value.0.port));
        }
        rest := r.value.1;
      }
      info := None;
    }

    /** `delete_server_info`: copies the records with the flag cleared, and copies the result back over the
        file.  A server already deleted is reported as found, and nothing is written. */
    method Delete(serverId: int) returns (success: bool)
      modifies this`file
      ensures file == Rewrite(old(file), serverId)
      ensures (exists k :: 0 <= k < |Scan(old(file))| && Scan(old(file))[k].id == serverId
                           && Scan(old(file))[k].valid == 0) ==> file == old(file)
      ensures success <==> Has(Scan(old(file)), serverId)
    {
      var copy, cleared, done := CopyRecords(serverId);
      hide Scan, PrintAll;
      if done {
        return true;
      }
      success := cleared;
      var written := CopyBack(copy);
      file := Overwrite(file, written);
    }

    /** The first loop: the new text; `done` when a record with this id was invalid already. */
    method CopyRecords(serverId: int) returns (copy: string, success: bool, done: bool)
      ensures done <==> Gone(Scan(file), serverId)
      ensures !done ==> copy == PrintAll(ClearFlags(Scan(file), serverId))
      ensures !done ==> (success <==> Has(Scan(file), serverId))
    {
      hide ScanRecord, PrintRecord, PrintAll, Gone, Has, ClearFlags;
      ghost var all := PrintAll(ClearFlags(Scan(file), serverId));
      copy, success, done := "", false, false;
      var rest := file;
      while true
        invariant all == copy + PrintAll(ClearFlags(Scan(rest), serverId))
        invariant Gone(Scan(file), serverId) <==> Gone(Scan(rest), serverId)
        invariant Has(Scan(file), serverId) <==> success || Has(Scan(rest), serverId)
        invariant !done
        decreases |rest|
      {
        var r := ScanRecord(rest);
        if r.None? {
          break;
        }
        ScanOne(rest);
        ClearOne(Scan(rest), serverId);
        var info := r.value.0;
        if info.id == serverId {
          if info.valid == 0 {
            done := true;
            return;
          }
          info := info.(valid := 0);
          success := true;
        }
        Regroup(copy, PrintRecord(info), PrintAll(ClearFlags(Scan(r.value.1), serverId)));
        copy := copy + PrintRecord(info);
        rest := r.value.1;
      }
      NothingScanned(rest, serverId);
    }

    /** The second loop, chunk by chunk. */
    method CopyBack(text: string) returns (written: string)
      ensures written == text
    {
      written := "";
      var rest := text;
      while rest != ""
        invariant written + rest == text
        decreases |rest|
      {
        var chunk := ReadChunk(rest);
        assert rest == chunk + rest[|chunk|..];
        written := written + chunk;
        rest := rest[|chunk|..];
      }
    }
  }

  lemma ScanOne(t: string)
    requires ScanRecord(t).Some?
    ensures Scan(t) != [] && Scan(t)[0] == ScanRecord(t).value.0 && Scan(t)[1..] == Scan(ScanRecord(t).value.1)
  {
  }

  lemma NothingScanned(t: string, id: int)
    requires ScanRecord(t).None?
    ensures PrintAll(ClearFlags(Scan(t), id)) == "" && !Gone(Scan(t), id) && !Has(Scan(t), id)
  {
  }

  lemma ClearOne(rs: seq<Record>, id: int)
    requires rs != []
    ensures var r := if rs[0].id == id then rs[0].(valid := 0) else rs[0];
            PrintAll(ClearFlags(rs, id)) == PrintRecord(r) + PrintAll(ClearFlags(rs[1..], id))
    ensures Gone(rs, id) <==> (rs[0].id == id && rs[0].valid == 0) || Gone(rs[1..], id)
    ensures Has(rs, id) <==> rs[0].id == id || Has(rs[1..], id)
  {
    assert forall k :: 1 <= k < |rs| ==> rs[k] == rs[1..][k - 1];
    assert ClearFlags(rs, id)[1..] == ClearFlags(rs[1..], id);
    hide PrintRecord;
  }
}
