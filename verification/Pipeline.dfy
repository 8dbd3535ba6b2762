/** The converter's threads as a state machine.

    A reader deals the lines of the topic, and a marker for every timeout, round-robin to the queues of
    `threads` parsers.  A parser takes a line, queues its entries one by one and then their count.  The
    collector goes round the parsers, takes a count and then that many entries.  All queues are bounded
    and every thread waits while it cannot proceed.  One action is one queue operation of one thread, and
    the actions may come in any order. */
module Pipeline {
  import opened LogParser
  import opened Sequences

  datatype Params = Params(threads: nat, schema: Schema, binlogCap: nat, logCap: nat, countCap: nat)

  /** `count` entries of the line are queued, `remaining` are still to be queued. */
  datatype Worker = Idle | Busy(line: Line, count: nat, remaining: seq<Entry>)

  /** `counted` records the lines whose counts are in `counts`. */
  datatype Thread = Thread(binlogs: seq<Line>, worker: Worker, logs: seq<Entry>, counts: seq<nat>, counted: seq<Line>)

  /** `dealt` records the lines dealt so far; the collector is at line `slot` and has `left` entries of it
      to take, where 0 means that it waits for the count; `taken` is what it has taken out. */
  datatype State = State(topic: seq<Message>, consumed: nat, dealt: seq<Line>, threads: seq<Thread>,
                         slot: nat, left: nat, taken: seq<Entry>)

  datatype Action =
    | Deal                // the reader enqueues the next message
    | DealTimeout         // the reader enqueues the timeout marker
    | TakeLine(t: nat)    // parser `t` dequeues a line
    | QueueEntry(t: nat)  // parser `t` enqueues an entry
    | QueueCount(t: nat)  // parser `t` enqueues the count
    | TakeCount           // the collector dequeues a count
    | TakeEntry           // the collector dequeues an entry

  function Entries(p: Params, line: Line): seq<Entry> {
    if line.NoMessage? then [] else Expand(p.schema, line.msg)
  }

  function LineEntries(p: Params, lines: seq<Line>): seq<Entry> {
    if lines == [] then [] else LineEntries(p, lines[..|lines| - 1]) + Entries(p, lines[|lines| - 1])
  }

  function Messages(lines: seq<Line>): seq<Message> {
    if lines == [] then []
    else Messages(lines[..|lines| - 1]) +
         if lines[|lines| - 1].Text? then [lines[|lines| - 1].msg] else []
  }

  function Start(p: Params, topic: seq<Message>): State {
    State(topic, 0, [], seq(p.threads, _ => Thread([], Idle, [], [], [])), 0, 0, [])
  }

  /** The thread the next line goes to. */
  function Reader(p: Params, st: State): nat
    requires p.threads > 0
  {
    |st.dealt| % p.threads
  }

  /** The thread the collector looks at. */
  function Turn(p: Params, st: State): nat
    requires p.threads > 0
  {
    st.slot % p.threads
  }

  predicate Enabled(p: Params, st: State, a: Action)
    requires p.threads > 0 && |st.threads| == p.threads
  {
    match a
    case Deal => st.consumed < |st.topic| && |st.threads[Reader(p, st)].binlogs| < p.binlogCap
    case DealTimeout => |st.threads[Reader(p, st)].binlogs| < p.binlogCap
    case TakeLine(t) => t < p.threads && st.threads[t].worker.Idle? && st.threads[t].binlogs != []
    case QueueEntry(t) =>
      t < p.threads && st.threads[t].worker.Busy? && st.threads[t].worker.remaining != [] &&
      |st.threads[t].logs| < p.logCap
    case QueueCount(t) =>
      t < p.threads && st.threads[t].worker.Busy? && st.threads[t].worker.remaining == [] &&
      |st.threads[t].counts| < p.countCap
    case TakeCount => st.left == 0 && st.threads[Turn(p, st)].counts != []
    case TakeEntry => st.left > 0 && st.threads[Turn(p, st)].logs != []
  }

  function Next(p: Params, st: State, a: Action): (st': State)
    requires p.threads > 0 && |st.threads| == p.threads && Enabled(p, st, a)
    ensures |st'.threads| == p.threads && st'.topic == st.topic
  {
    match a
    case Deal =>
      var line := Text(st.topic[st.consumed]);
      st.(consumed := st.consumed + 1, dealt := st.dealt + [line], threads := Enqueue(p, st, line))
    case DealTimeout =>
      st.(dealt := st.dealt + [NoMessage], threads := Enqueue(p, st, NoMessage))
    case TakeLine(t) =>
      var th := st.threads[t];
      var line := th.binlogs[0];
      st.(threads := st.threads[t := th.(binlogs := th.binlogs[1..], worker := Busy(line, 0, Entries(p, line)))])
    case QueueEntry(t) =>
      var th := st.threads[t];
      var w := th.worker;
      st.(threads := st.threads[t := th.(logs := th.logs + [w.remaining[0]],
                                         worker := Busy(w.line, w.count + 1, w.remaining[1..]))])
    case QueueCount(t) =>
      var th := st.threads[t];
      st.(threads := st.threads[t := th.(counts := th.counts + [th.worker.count],
                                         counted := th.counted + [th.worker.line], worker := Idle)])
    case TakeCount =>
      var t := Turn(p, st);
      var th := st.threads[t];
      var count := th.counts[0];
      st.(threads := st.threads[t := th.(counts := th.counts[1..],
                                         counted := if th.counted == [] then [] else th.counted[1..])],
          left := count, slot := if count == 0 then st.slot + 1 else st.slot)
    case TakeEntry =>
      var t := Turn(p, st);
      var th := st.threads[t];
      st.(threads := st.threads[t := th.(logs := th.logs[1..])],
          taken := st.taken + [th.logs[0]],
          left := st.left - 1, slot := if st.left == 1 then st.slot + 1 else st.slot)
  }

  function Enqueue(p: Params, st: State, line: Line): seq<Thread>
    requires p.threads > 0 && |st.threads| == p.threads
  {
    var t := Reader(p, st);
    st.threads[t := st.threads[t].(binlogs := st.threads[t].binlogs + [line])]
  }

  // ---------------------------------------------------------------- who gets what

  /** The lines dealt to thread `t`, in order. */
  function Share(lines: seq<Line>, n: nat, t: nat): seq<Line>
    requires n > 0
  {
    if lines == [] then []
    else
      var front := lines[..|lines| - 1];
      if |front| % n == t then Share(front, n, t) + [lines[|lines| - 1]] else Share(front, n, t)
  }

  lemma ShareStep(lines: seq<Line>, line: Line, n: nat, t: nat)
    requires n > 0
    ensures Share(lines + [line], n, t) == if |lines| % n == t then Share(lines, n, t) + [line] else Share(lines, n, t)
  {
    assert (lines + [line])[..|lines|] == lines;
  }

  lemma ShareTake(lines: seq<Line>, k: nat, n: nat, t: nat)
    requires n > 0 && k < |lines|
    ensures Share(lines[..k + 1], n, t) ==
            if k % n == t then Share(lines[..k], n, t) + [lines[k]] else Share(lines[..k], n, t)
  {
    assert lines[..k + 1] == lines[..k] + [lines[k]];
    ShareStep(lines[..k], lines[k], n, t);
  }

  /** The share of a shorter deal is a prefix of the share of a longer one. */
  lemma {:induction false} SharePrefix(lines: seq<Line>, k: nat, n: nat, t: nat)
    requires n > 0 && k <= |lines|
    ensures Share(lines[..k], n, t) <= Share(lines, n, t)
    decreases |lines| - k
  {
    if k == |lines| {
      assert lines[..k] == lines;
    } else {
      ShareTake(lines, k, n, t);
      SharePrefix(lines, k + 1, n, t);
    }
  }

  // ---------------------------------------------------------------- the invariant

  /** The line the collector is taking entries of, if it belongs to thread `t`. */
  function Current(p: Params, st: State, t: nat): seq<Line>
    requires p.threads > 0
  {
    if st.left > 0 && st.slot < |st.dealt| && Turn(p, st) == t then [st.dealt[st.slot]] else []
  }

  function BusyLine(w: Worker): seq<Line> {
    if w.Busy? then [w.line] else []
  }

  function Queued(p: Params, w: Worker): seq<Entry> {
    if w.Busy? && w.count <= |Entries(p, w.line)| then Entries(p, w.line)[..w.count] else []
  }

  /** The entries of the current line that are still queued. */
  function Rest(p: Params, current: seq<Line>, left: nat): seq<Entry> {
    if current == [] || left > |Entries(p, current[0])| then []
    else Entries(p, current[0])[|Entries(p, current[0])| - left..]
  }

  predicate WorkerOk(p: Params, w: Worker) {
    w.Busy? ==> w.count <= |Entries(p, w.line)| && w.remaining == Entries(p, w.line)[w.count..]
  }

  predicate CountsOk(p: Params, counts: seq<nat>, counted: seq<Line>) {
    && |counts| == |counted| <= p.countCap
    && forall j :: 0 <= j < |counts| ==> counts[j] == |Entries(p, counted[j])| <= p.logCap
  }

  /** `mine` is everything dealt to the thread, `done` what the collector has finished of it. */
  predicate LinesOk(mine: seq<Line>, done: seq<Line>, current: seq<Line>, th: Thread) {
    mine == done + current + (th.counted + (BusyLine(th.worker) + th.binlogs))
  }

  predicate LogsOk(p: Params, current: seq<Line>, left: nat, th: Thread) {
    th.logs == Rest(p, current, left) + (LineEntries(p, th.counted) + Queued(p, th.worker))
  }

  predicate ThreadOk(p: Params, mine: seq<Line>, done: seq<Line>, current: seq<Line>, left: nat, th: Thread) {
    && LinesOk(mine, done, current, th) && LogsOk(p, current, left, th)
    && WorkerOk(p, th.worker) && CountsOk(p, th.counts, th.counted)
    && |th.logs| <= p.logCap && |th.binlogs| <= p.binlogCap
  }

  /** The entries of the lines before `slot`, and of line `slot` all but `left`. */
  function TakenBy(p: Params, dealt: seq<Line>, slot: nat, left: nat): seq<Entry>
    requires slot <= |dealt|
  {
    if left == 0 || slot == |dealt| || left > |Entries(p, dealt[slot])| then LineEntries(p, dealt[..slot])
    else LineEntries(p, dealt[..slot]) + Entries(p, dealt[slot])[..|Entries(p, dealt[slot])| - left]
  }

  predicate CollectorOk(p: Params, st: State) {
    && st.slot <= |st.dealt|
    && (st.left > 0 ==> st.slot < |st.dealt| && st.left <= |Entries(p, st.dealt[st.slot])| <= p.logCap)
    && st.taken == TakenBy(p, st.dealt, st.slot, st.left)
    && (forall i :: 0 <= i < st.slot ==> |Entries(p, st.dealt[i])| <= p.logCap)
  }

  predicate ReaderOk(st: State) {
    st.consumed <= |st.topic| && Messages(st.dealt) == st.topic[..st.consumed]
  }

  predicate ThreadAt(p: Params, st: State, t: nat)
    requires t < p.threads == |st.threads| && st.slot <= |st.dealt|
  {
    ThreadOk(p, Share(st.dealt, p.threads, t), Share(st.dealt[..st.slot], p.threads, t),
             Current(p, st, t), st.left, st.threads[t])
  }

  predicate ThreadsOk(p: Params, st: State)
    requires p.threads > 0 && |st.threads| == p.threads && st.slot <= |st.dealt|
  {
    forall t :: 0 <= t < p.threads ==> ThreadAt(p, st, t)
  }

  predicate Inv(p: Params, st: State) {
    && p.threads > 0 && |st.threads| == p.threads
    && CollectorOk(p, st) && ReaderOk(st) && ThreadsOk(p, st)
  }

  lemma StartKeeps(p: Params, topic: seq<Message>)
    requires p.threads > 0
    ensures Inv(p, Start(p, topic))
  {
  }

  // ---------------------------------------------------------------- every action keeps the invariant

  lemma {:induction false} LineEntriesCons(p: Params, line: Line, lines: seq<Line>)
    ensures LineEntries(p, [line] + lines) == Entries(p, line) + LineEntries(p, lines)
    decreases |lines|
  {
    hide Entries;
    var all := [line] + lines;
    if lines == [] {
      assert all == [] + [line];
      LineEntriesSnoc(p, [], line);
    } else {
      var front, last := lines[..|lines| - 1], lines[|lines| - 1];
      LineEntriesCons(p, line, front);
      assert all == ([line] + front) + [last] && lines == front + [last];
      LineEntriesSnoc(p, [line] + front, last);
      LineEntriesSnoc(p, front, last);
      hide LineEntries;
      Regroup(Entries(p, line), LineEntries(p, front), Entries(p, last));
    }
  }

  lemma LineEntriesSnoc(p: Params, lines: seq<Line>, line: Line)
    ensures LineEntries(p, lines + [line]) == LineEntries(p, lines) + Entries(p, line)
  {
    assert (lines + [line])[..|lines|] == lines;
  }

  lemma DealKeeps(p: Params, st: State, line: Line, consumed: nat)
    requires Inv(p, st) && |st.threads[Reader(p, st)].binlogs| < p.binlogCap
    requires if line.NoMessage? then consumed == st.consumed
             else st.consumed < |st.topic| && consumed == st.consumed + 1 && line.msg == st.topic[st.consumed]
    ensures Inv(p, st.(consumed := consumed, dealt := st.dealt + [line], threads := Enqueue(p, st, line)))
  {
    hide ThreadOk, Entries, LineEntries;
    var st' := st.(consumed := consumed, dealt := st.dealt + [line], threads := Enqueue(p, st, line));
    var r := Reader(p, st);
    assert st'.dealt[..st.slot] == st.dealt[..st.slot];
    assert st'.dealt[..|st.dealt|] == st.dealt;
    forall t | 0 <= t < p.threads
      ensures ThreadAt(p, st', t)
    {
      assert ThreadAt(p, st, t);
      ShareStep(st.dealt, line, p.threads, t);
      if t == r {
        DealThread(p, Share(st.dealt, p.threads, t), Share(st.dealt[..st.slot], p.threads, t),
                   Current(p, st, t), st.left, st.threads[t], line);
      }
    }
  }

  lemma DealThread(p: Params, mine: seq<Line>, done: seq<Line>, current: seq<Line>, left: nat, th: Thread, line: Line)
    requires ThreadOk(p, mine, done, current, left, th) && |th.binlogs| < p.binlogCap
    ensures ThreadOk(p, mine + [line], done, current, left, th.(binlogs := th.binlogs + [line]))
  {
    hide Entries, LineEntries, Rest, CountsOk, WorkerOk;
    Regroup(BusyLine(th.worker), th.binlogs, [line]);
    Regroup(th.counted, BusyLine(th.worker) + th.binlogs, [line]);
    Regroup(done + current, th.counted + (BusyLine(th.worker) + th.binlogs), [line]);
  }

  /** Only thread `t` moved, and it kept its part. */
  lemma OneThreadMoves(p: Params, st: State, t: nat, th: Thread)
    requires Inv(p, st) && t < p.threads
    requires ThreadOk(p, Share(st.dealt, p.threads, t), Share(st.dealt[..st.slot], p.threads, t), Current(p, st, t),
                      st.left, th)
    ensures Inv(p, st.(threads := st.threads[t := th]))
  {
    hide ThreadOk, CollectorOk, Share;
    var st' := st.(threads := st.threads[t := th]);
    CollectorInRange(p, st);
    CollectorSame(p, st, st');
    forall u | 0 <= u < p.threads
      ensures ThreadAt(p, st', u)
    {
      assert ThreadAt(p, st, u);
    }
  }

  lemma CollectorInRange(p: Params, st: State)
    requires CollectorOk(p, st)
    ensures st.slot <= |st.dealt| && (st.left > 0 ==> st.slot < |st.dealt|)
  {
  }

  lemma CollectorLeft(p: Params, st: State)
    requires CollectorOk(p, st) && st.left > 0
    ensures st.slot < |st.dealt| && st.left <= |Entries(p, st.dealt[st.slot])|
  {
  }

  lemma TurnInRange(p: Params, st: State)
    requires p.threads > 0
    ensures Turn(p, st) < p.threads
  {
  }

  lemma CollectorSame(p: Params, st: State, st': State)
    requires CollectorOk(p, st)
    requires st'.dealt == st.dealt && st'.slot == st.slot && st'.left == st.left && st'.taken == st.taken
    ensures CollectorOk(p, st')
  {
  }

  lemma ParserKeeps(p: Params, st: State, a: Action)
    requires Inv(p, st) && Enabled(p, st, a) && (a.TakeLine? || a.QueueEntry? || a.QueueCount?)
    ensures Inv(p, Next(p, st, a))
  {
    hide CollectorOk, ReaderOk;
    CollectorInRange(p, st);
    var t := a.t;
    var mine, done, cur := Share(st.dealt, p.threads, t), Share(st.dealt[..st.slot], p.threads, t), Current(p, st, t);
    var th := st.threads[t];
    assert ThreadAt(p, st, t);
    assert ThreadOk(p, mine, done, cur, st.left, th);
    hide ThreadOk, ThreadAt, ThreadsOk, Share;
    match a
    case TakeLine(_) =>
      TakeLineThread(p, mine, done, cur, st.left, th);
      OneThreadMoves(p, st, t, Next(p, st, a).threads[t]);
    case QueueEntry(_) =>
      QueueEntryThread(p, mine, done, cur, st.left, th);
      OneThreadMoves(p, st, t, Next(p, st, a).threads[t]);
    case QueueCount(_) =>
      QueueCountThread(p, mine, done, cur, st.left, th);
      OneThreadMoves(p, st, t, Next(p, st, a).threads[t]);
  }

  lemma TakeLineThread(p: Params, mine: seq<Line>, done: seq<Line>, current: seq<Line>, left: nat, th: Thread)
    requires ThreadOk(p, mine, done, current, left, th) && th.worker.Idle? && th.binlogs != []
    ensures ThreadOk(p, mine, done, current, left,
                     th.(binlogs := th.binlogs[1..], worker := Busy(th.binlogs[0], 0, Entries(p, th.binlogs[0]))))
  {
    hide Entries, LineEntries, Rest, CountsOk;
    assert th.binlogs == [th.binlogs[0]] + th.binlogs[1..];
    assert [] + th.binlogs == th.binlogs;
  }

  lemma QueueEntryThread(p: Params, mine: seq<Line>, done: seq<Line>, current: seq<Line>, left: nat, th: Thread)
    requires ThreadOk(p, mine, done, current, left, th) && th.worker.Busy? && th.worker.remaining != []
    requires |th.logs| < p.logCap
    ensures var w := th.worker;
            ThreadOk(p, mine, done, current, left,
                     th.(logs := th.logs + [w.remaining[0]], worker := Busy(w.line, w.count + 1, w.remaining[1..])))
  {
    hide Entries, LineEntries, Rest, CountsOk;
    var w := th.worker;
    var all, x := Entries(p, w.line), w.remaining[0];
    assert all[..w.count + 1] == all[..w.count] + [x];
    assert all[w.count..][1..] == all[w.count + 1..];
    var rest, old' := Rest(p, current, left), LineEntries(p, th.counted);
    Regroup(old', all[..w.count], [x]);
    Regroup(rest, old' + all[..w.count], [x]);
  }

  lemma QueueCountThread(p: Params, mine: seq<Line>, done: seq<Line>, current: seq<Line>, left: nat, th: Thread)
    requires ThreadOk(p, mine, done, current, left, th) && th.worker.Busy? && th.worker.remaining == []
    requires |th.counts| < p.countCap
    ensures ThreadOk(p, mine, done, current, left,
                     th.(counts := th.counts + [th.worker.count], counted := th.counted + [th.worker.line],
                         worker := Idle))
  {
    hide Entries, LineEntries, Rest;
    var w := th.worker;
    var th' := th.(counts := th.counts + [w.count], counted := th.counted + [w.line], worker := Idle);
    assert w.count == |Entries(p, w.line)| && Entries(p, w.line)[..w.count] == Entries(p, w.line);
    LineEntriesSnoc(p, th.counted, w.line);
    assert LogsOk(p, current, left, th') by {
      assert LineEntries(p, th'.counted) + [] == LineEntries(p, th'.counted);
    }
    assert LinesOk(mine, done, current, th') by {
      Regroup(th.counted, [w.line], th.binlogs);
      assert [] + th.binlogs == th.binlogs;
    }
    assert |Queued(p, w)| <= |th.logs|;
  }

  lemma TakeCountThread(p: Params, mine: seq<Line>, done: seq<Line>, left: nat, th: Thread)
    requires ThreadOk(p, mine, done, [], left, th) && th.counts != []
    ensures th.counted != []
    ensures var line, count := th.counted[0], th.counts[0];
            var th' := th.(counts := th.counts[1..], counted := th.counted[1..]);
            && count == |Entries(p, line)| <= p.logCap
            && |done| < |mine| && mine[|done|] == line
            && (if count == 0 then ThreadOk(p, mine, done + [line], [], 0, th')
                else ThreadOk(p, mine, done, [line], count, th'))
  {
    hide Entries, LineEntries;
    var line, rest := th.counted[0], th.counted[1..];
    var count := th.counts[0];
    var th' := th.(counts := th.counts[1..], counted := rest);
    assert th.counted == [line] + rest;
    LineEntriesCons(p, line, rest);
    var entries, q := Entries(p, line), Queued(p, th.worker);
    assert entries[0..] == entries;
    assert th.logs == entries + (LineEntries(p, rest) + q) by {
      Regroup(entries, LineEntries(p, rest), q);
      assert [] + (entries + LineEntries(p, rest) + q) == entries + LineEntries(p, rest) + q;
    }
    var later := BusyLine(th.worker) + th.binlogs;
    assert mine == done + [line] + (rest + later) by {
      Regroup([line], rest, later);
      Regroup(done, [line], rest + later);
      assert done + [] == done;
    }
    assert CountsOk(p, th'.counts, th'.counted);
    assert count == 0 ==> entries == [] && done + [line] + [] == done + [line];
  }

  lemma DropFirst<T>(a: seq<T>, b: seq<T>)
    requires a != []
    ensures (a + b)[0] == a[0] && (a + b)[1..] == a[1..] + b
  {
  }

  lemma TakeEntryThread(p: Params, mine: seq<Line>, done: seq<Line>, line: Line, left: nat, th: Thread)
    requires ThreadOk(p, mine, done, [line], left, th) && 0 < left <= |Entries(p, line)|
    ensures var all := Entries(p, line);
            && th.logs != [] && th.logs[0] == all[|all| - left]
            && (if left == 1 then ThreadOk(p, mine, done + [line], [], 0, th.(logs := th.logs[1..]))
                else ThreadOk(p, mine, done, [line], left - 1, th.(logs := th.logs[1..])))
  {
    hide Entries, LineEntries, CountsOk, WorkerOk, Queued;
    var all := Entries(p, line);
    var rest, more := all[|all| - left..], LineEntries(p, th.counted) + Queued(p, th.worker);
    assert th.logs == rest + more;
    assert rest[1..] == all[|all| - (left - 1)..];
    DropFirst(rest, more);
    assert done + [line] + [] == done + [line];
    assert left == 1 ==> rest[1..] == [];
  }

  /** The line the collector looks at next is the first unfinished one of its thread. */
  lemma NextOfThread(p: Params, st: State)
    requires p.threads > 0 && st.slot <= |st.dealt|
    ensures var t := Turn(p, st);
            var mine, done := Share(st.dealt, p.threads, t), Share(st.dealt[..st.slot], p.threads, t);
            && (st.slot == |st.dealt| ==> mine == done)
            && (st.slot < |st.dealt| ==>
                  && |done| < |mine| && mine[|done|] == st.dealt[st.slot]
                  && Share(st.dealt[..st.slot + 1], p.threads, t) == done + [st.dealt[st.slot]])
  {
    var t := Turn(p, st);
    if st.slot == |st.dealt| {
      assert st.dealt[..st.slot] == st.dealt;
    } else {
      ShareTake(st.dealt, st.slot, p.threads, t);
      SharePrefix(st.dealt, st.slot + 1, p.threads, t);
    }
  }

  /** The collector finished a line of its thread, or started one, or took one more entry of it. */
  lemma CollectorMoves(p: Params, st: State, st': State)
    requires Inv(p, st) && st.slot < |st.dealt| && |st'.threads| == p.threads
    requires st'.topic == st.topic && st'.consumed == st.consumed && st'.dealt == st.dealt
    requires st'.slot == st.slot || (st'.slot == st.slot + 1 && st'.left == 0)
    requires CollectorOk(p, st') && ThreadAt(p, st', Turn(p, st))
    requires forall u :: 0 <= u < p.threads && u != Turn(p, st) ==> st'.threads[u] == st.threads[u]
    ensures Inv(p, st')
  {
    hide ThreadAt, CollectorOk;
    CollectorInRange(p, st');
    forall u | 0 <= u < p.threads
      ensures ThreadAt(p, st', u)
    {
      assert ThreadAt(p, st, u);
      if u != Turn(p, st) {
        OtherThread(p, st, st', u);
      }
    }
  }

  lemma OtherThread(p: Params, st: State, st': State, u: nat)
    requires u < p.threads == |st.threads| == |st'.threads| && st.slot < |st.dealt| && u != Turn(p, st)
    requires ThreadAt(p, st, u) && st'.threads[u] == st.threads[u] && st'.dealt == st.dealt
    requires st'.slot == st.slot || (st'.slot == st.slot + 1 && st'.left == 0)
    ensures ThreadAt(p, st', u)
  {
    hide ThreadOk, Share;
    ShareTake(st.dealt, st.slot, p.threads, u);
    assert Current(p, st, u) == [] && Current(p, st', u) == [];
    IdleCurrent(p, Share(st.dealt, p.threads, u), Share(st.dealt[..st.slot], p.threads, u), st.left, st'.left,
                st.threads[u]);
  }

  lemma IdleCurrent(p: Params, mine: seq<Line>, done: seq<Line>, left: nat, left': nat, th: Thread)
    requires ThreadOk(p, mine, done, [], left, th)
    ensures ThreadOk(p, mine, done, [], left', th)
  {
    hide Entries, LineEntries, LinesOk, WorkerOk, CountsOk;
  }

  lemma LineEntriesTake(p: Params, lines: seq<Line>, k: nat)
    requires k < |lines|
    ensures LineEntries(p, lines[..k + 1]) == LineEntries(p, lines[..k]) + Entries(p, lines[k])
  {
    assert lines[..k + 1] == lines[..k] + [lines[k]];
    LineEntriesSnoc(p, lines[..k], lines[k]);
  }

  lemma TakeCountKeeps(p: Params, st: State)
    requires Inv(p, st) && Enabled(p, st, TakeCount)
    ensures Inv(p, Next(p, st, TakeCount)) && st.slot < |st.dealt|
  {
    hide ThreadAt, CollectorOk, ReaderOk, Entries;
    CollectorInRange(p, st);
    TurnInRange(p, st);
    hide Turn;
    var t, st' := Turn(p, st), Next(p, st, TakeCount);
    assert ThreadAt(p, st, t);
    TakeCountMoves(p, st);
    CollectorTakesCount(p, st, st');
    CollectorMoves(p, st, st');
  }

  lemma TakeCountMoves(p: Params, st: State)
    requires p.threads == |st.threads| > 0 && st.slot <= |st.dealt| && Enabled(p, st, TakeCount)
    requires ThreadAt(p, st, Turn(p, st))
    ensures var st' := Next(p, st, TakeCount);
            && st.slot < |st.dealt| && st.threads[Turn(p, st)].counts[0] == |Entries(p, st.dealt[st.slot])| <= p.logCap
            && ThreadAt(p, st', Turn(p, st))
  {
    hide Entries, LineEntries;
    var t, th := Turn(p, st), st.threads[Turn(p, st)];
    var mine, done := Share(st.dealt, p.threads, t), Share(st.dealt[..st.slot], p.threads, t);
    assert ThreadOk(p, mine, done, [], 0, th);
    TakeCountThread(p, mine, done, 0, th);
    NextOfThread(p, st);
    hide ThreadOk, Share;
    var st' := Next(p, st, TakeCount);
    assert ThreadAt(p, st', t);
  }

  lemma CollectorTakesCount(p: Params, st: State, st': State)
    requires CollectorOk(p, st) && st.left == 0 && st.slot < |st.dealt|
    requires st'.dealt == st.dealt && st'.taken == st.taken && st'.left == |Entries(p, st.dealt[st.slot])| <= p.logCap
    requires st'.slot == if st'.left == 0 then st.slot + 1 else st.slot
    ensures CollectorOk(p, st')
  {
    hide Entries, LineEntries, TakenBy;
    TakenAtCount(p, st.dealt, st.slot);
  }

  /** Learning the count of a line takes nothing out; if it is 0 the line is finished. */
  lemma TakenAtCount(p: Params, dealt: seq<Line>, slot: nat)
    requires slot < |dealt|
    ensures TakenBy(p, dealt, slot, |Entries(p, dealt[slot])|) == TakenBy(p, dealt, slot, 0)
    ensures Entries(p, dealt[slot]) == [] ==> TakenBy(p, dealt, slot + 1, 0) == TakenBy(p, dealt, slot, 0)
  {
    hide LineEntries, Entries;
    LineEntriesTake(p, dealt, slot);
    NoneYet(LineEntries(p, dealt[..slot]), Entries(p, dealt[slot]));
  }

  lemma NoneYet(before: seq<Entry>, all: seq<Entry>)
    ensures before + all[..|all| - |all|] == before && before + [] == before
    ensures all == [] ==> before + all == before
  {
  }

  lemma LineEntriesTakeOrStop(p: Params, st: State)
    requires st.slot < |st.dealt|
    ensures LineEntries(p, st.dealt[..st.slot + 1]) ==
            LineEntries(p, st.dealt[..st.slot]) + Entries(p, st.dealt[st.slot])
  {
    LineEntriesTake(p, st.dealt, st.slot);
  }

  lemma TakeEntryKeeps(p: Params, st: State)
    requires Inv(p, st) && Enabled(p, st, TakeEntry)
    ensures Inv(p, Next(p, st, TakeEntry))
  {
    CollectorLeft(p, st);
    hide ThreadAt, CollectorOk, ReaderOk, Entries;
    CollectorInRange(p, st);
    TurnInRange(p, st);
    hide Turn;
    var t, st' := Turn(p, st), Next(p, st, TakeEntry);
    assert ThreadAt(p, st, t);
    TakeEntryMoves(p, st);
    CollectorTakesEntry(p, st, st');
    CollectorMoves(p, st, st');
  }

  lemma TakeEntryMoves(p: Params, st: State)
    requires p.threads == |st.threads| > 0 && st.slot < |st.dealt| && Enabled(p, st, TakeEntry)
    requires ThreadAt(p, st, Turn(p, st)) && st.left <= |Entries(p, st.dealt[st.slot])|
    ensures var all := Entries(p, st.dealt[st.slot]);
            && st.threads[Turn(p, st)].logs[0] == all[|all| - st.left]
            && ThreadAt(p, Next(p, st, TakeEntry), Turn(p, st))
  {
    hide Entries, LineEntries;
    var t, th, line := Turn(p, st), st.threads[Turn(p, st)], st.dealt[st.slot];
    var mine, done := Share(st.dealt, p.threads, t), Share(st.dealt[..st.slot], p.threads, t);
    assert ThreadOk(p, mine, done, [line], st.left, th);
    TakeEntryThread(p, mine, done, line, st.left, th);
    NextOfThread(p, st);
    hide ThreadOk, Share;
    var st' := Next(p, st, TakeEntry);
    assert ThreadAt(p, st', t);
  }

  lemma CollectorTakesEntry(p: Params, st: State, st': State)
    requires CollectorOk(p, st) && st.left > 0
    requires var all := Entries(p, st.dealt[st.slot]);
             st'.dealt == st.dealt && st'.left == st.left - 1 && st'.taken == st.taken + [all[|all| - st.left]]
    requires st'.slot == if st'.left == 0 then st.slot + 1 else st.slot
    ensures CollectorOk(p, st')
  {
    hide Entries, LineEntries, TakenBy;
    TakenStep(p, st.dealt, st.slot, st.left);
  }

  lemma TakenStep(p: Params, dealt: seq<Line>, slot: nat, left: nat)
    requires slot < |dealt| && 0 < left <= |Entries(p, dealt[slot])|
    ensures var all := Entries(p, dealt[slot]);
            TakenBy(p, dealt, slot, left) + [all[|all| - left]] ==
            if left == 1 then TakenBy(p, dealt, slot + 1, 0) else TakenBy(p, dealt, slot, left - 1)
  {
    hide LineEntries, Entries;
    LineEntriesTake(p, dealt, slot);
    OneMore(LineEntries(p, dealt[..slot]), Entries(p, dealt[slot]), left, TakenBy(p, dealt, slot, left));
  }

  lemma OneMore(before: seq<Entry>, all: seq<Entry>, left: nat, taken: seq<Entry>)
    requires 0 < left <= |all| && taken == before + all[..|all| - left]
    ensures taken + [all[|all| - left]] == before + all[..|all| - (left - 1)]
    ensures left == 1 ==> taken + [all[|all| - left]] == before + all
  {
    var k := |all| - left;
    assert all[..k] + [all[k]] == all[..k + 1];
    Regroup(before, all[..k], [all[k]]);
    if left == 1 {
      assert all[..k + 1] == all;
    }
  }

  /** Every action of every thread keeps the invariant. */
  lemma NextKeeps(p: Params, st: State, a: Action)
    requires Inv(p, st) && Enabled(p, st, a)
    ensures Inv(p, Next(p, st, a))
  {
    match a
    case Deal => DealKeeps(p, st, Text(st.topic[st.consumed]), st.consumed + 1);
    case DealTimeout => DealKeeps(p, st, NoMessage, st.consumed);
    case TakeCount => TakeCountKeeps(p, st);
    case TakeEntry => TakeEntryKeeps(p, st);
    case _ => ParserKeeps(p, st, a);
  }

  // ---------------------------------------------------------------- runs

  /** The state after these actions; they stop at the first that is not enabled. */
  predicate Runs(p: Params, st: State, acts: seq<Action>, st': State)
    requires p.threads > 0 && |st.threads| == p.threads
    decreases |acts|
  {
    if acts == [] then st' == st
    else Enabled(p, st, acts[0]) && Runs(p, Next(p, st, acts[0]), acts[1..], st')
  }

  lemma {:induction false} RunKeeps(p: Params, st: State, acts: seq<Action>, st': State)
    requires Inv(p, st) && Runs(p, st, acts, st')
    ensures Inv(p, st') && st'.topic == st.topic
    decreases |acts|
  {
    if acts != [] {
      NextKeeps(p, st, acts[0]);
      RunKeeps(p, Next(p, st, acts[0]), acts[1..], st');
    }
  }

  lemma {:induction false} ExpandAllConcat(schema: Schema, a: seq<Message>, b: seq<Message>)
    ensures ExpandAll(schema, a + b) == ExpandAll(schema, a) + ExpandAll(schema, b)
  {
    hide Expand;
    if a == [] {
      assert a + b == b;
    } else {
      assert (a + b)[1..] == a[1..] + b;
      ExpandAllConcat(schema, a[1..], b);
      Regroup(Expand(schema, a[0]), ExpandAll(schema, a[1..]), ExpandAll(schema, b));
    }
  }

  lemma {:induction false} LineEntriesIsExpandAll(p: Params, lines: seq<Line>)
    ensures LineEntries(p, lines) == ExpandAll(p.schema, Messages(lines))
  {
    if lines != [] {
      var front, last := lines[..|lines| - 1], lines[|lines| - 1];
      LineEntriesIsExpandAll(p, front);
      if last.Text? {
        ExpandAllConcat(p.schema, Messages(front), [last.msg]);
        assert [last.msg][1..] == [];
        assert Expand(p.schema, last.msg) + [] == Expand(p.schema, last.msg);
      } else {
        assert Messages(front) + [] == Messages(front);
      }
    }
  }

  lemma {:induction false} MessagesPrefix(lines: seq<Line>, k: nat)
    requires k <= |lines|
    ensures Messages(lines[..k]) <= Messages(lines)
    decreases |lines| - k
  {
    if k == |lines| {
      assert lines[..k] == lines;
    } else {
      assert lines[..k + 1][..k] == lines[..k];
      MessagesPrefix(lines, k + 1);
    }
  }

  /** What the collector has taken lies on the way from nothing to everything dealt. */
  lemma TakenOfDealt(p: Params, st: State)
    requires CollectorOk(p, st)
    ensures st.taken <= LineEntries(p, st.dealt)
    ensures st.slot == |st.dealt| ==> st.taken == LineEntries(p, st.dealt)
  {
    hide LineEntries, Entries;
    LineEntriesPrefix(p, st.dealt, st.slot);
    if st.slot < |st.dealt| {
      LineEntriesTakeOrStop(p, st);
      LineEntriesPrefix(p, st.dealt, st.slot + 1);
      PartOfNext(LineEntries(p, st.dealt[..st.slot]), Entries(p, st.dealt[st.slot]), st.left, st.taken);
    } else {
      assert st.dealt[..st.slot] == st.dealt;
    }
  }

  lemma PartOfNext(before: seq<Entry>, all: seq<Entry>, left: nat, taken: seq<Entry>)
    requires left <= |all| && taken == before + if left > 0 then all[..|all| - left] else []
    ensures taken <= before + all
  {
  }

  lemma {:induction false} LineEntriesPrefix(p: Params, lines: seq<Line>, k: nat)
    requires k <= |lines|
    ensures LineEntries(p, lines[..k]) <= LineEntries(p, lines)
    decreases |lines| - k
  {
    if k == |lines| {
      assert lines[..k] == lines;
    } else {
      LineEntriesTake(p, lines, k);
      LineEntriesPrefix(p, lines, k + 1);
    }
  }

  /** Safety: for any number of threads, any capacities, any interleaving and any pattern of timeouts,
      what the collector has taken out is a prefix of the messages expanded one after the other; once it
      has caught up with the reader, it is exactly the expansion of what was read. */
  lemma TakenIsSequential(p: Params, topic: seq<Message>, acts: seq<Action>, st: State)
    requires p.threads > 0 && Runs(p, Start(p, topic), acts, st)
    ensures st.consumed <= |topic|
            && st.taken <= ExpandAll(p.schema, topic[..st.consumed]) <= ExpandAll(p.schema, topic)
    ensures st.slot == |st.dealt| ==> st.taken == ExpandAll(p.schema, topic[..st.consumed])
  {
    StartKeeps(p, topic);
    RunKeeps(p, Start(p, topic), acts, st);
    hide ThreadsOk, Runs;
    TakenOfDealt(p, st);
    LineEntriesIsExpandAll(p, st.dealt);
    assert topic == topic[..st.consumed] + topic[st.consumed..];
    ExpandAllConcat(p.schema, topic[..st.consumed], topic[st.consumed..]);
  }
}
