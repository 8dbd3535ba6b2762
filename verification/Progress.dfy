/** The converter's threads never lock each other up, as long as every message's entries fit the queue. */
module Progress {
  import opened LogParser
  import opened Pipeline

  /** The entries of this line fit the queue they have to wait in. */
  predicate Fits(p: Params, line: Line) {
    |Entries(p, line)| <= p.logCap
  }

  predicate AllFit(p: Params, lines: seq<Line>) {
    forall i :: 0 <= i < |lines| ==> Fits(p, lines[i])
  }

  /** An action of a parser or of the collector. */
  predicate Internal(a: Action) {
    !a.Deal? && !a.DealTimeout?
  }

  ghost predicate CanMove(p: Params, st: State)
    requires p.threads > 0 && |st.threads| == p.threads
  {
    exists a: Action :: Internal(a) && Enabled(p, st, a)
  }

  // ---------------------------------------------------------------- work left

  /** Queue operations needed for lines not yet taken by their parser. */
  function WaitingWork(p: Params, lines: seq<Line>): nat {
    if lines == [] then 0 else 2 * |Entries(p, lines[0])| + 3 + WaitingWork(p, lines[1..])
  }

  /** Queue operations the collector needs for lines that are counted. */
  function CountedWork(p: Params, lines: seq<Line>): nat {
    if lines == [] then 0 else |Entries(p, lines[0])| + 1 + CountedWork(p, lines[1..])
  }

  function WorkerWork(p: Params, w: Worker): int {
    if w.Idle? then 0 else 2 * |Entries(p, w.line)| + 2 - w.count
  }

  function ThreadWork(p: Params, th: Thread): int {
    WaitingWork(p, th.binlogs) + WorkerWork(p, th.worker) + CountedWork(p, th.counted)
  }

  function TotalWork(p: Params, threads: seq<Thread>): int {
    if threads == [] then 0 else ThreadWork(p, threads[0]) + TotalWork(p, threads[1..])
  }

  /** The queue operations still needed until everything dealt has been taken out. */
  function Work(p: Params, st: State): int {
    TotalWork(p, st.threads) + st.left
  }

  lemma {:induction false} TotalWorkUpdate(p: Params, threads: seq<Thread>, t: nat, th: Thread)
    requires t < |threads|
    ensures TotalWork(p, threads[t := th]) == TotalWork(p, threads) - ThreadWork(p, threads[t]) + ThreadWork(p, th)
  {
    if t == 0 {
      assert threads[t := th][1..] == threads[1..];
    } else {
      assert threads[t := th][1..] == threads[1..][t - 1 := th];
      TotalWorkUpdate(p, threads[1..], t - 1, th);
    }
  }

  lemma {:induction false} CountedWorkAppend(p: Params, lines: seq<Line>, line: Line)
    ensures CountedWork(p, lines + [line]) == CountedWork(p, lines) + |Entries(p, line)| + 1
  {
    if lines == [] {
      assert [line][1..] == [];
      assert lines + [line] == [line];
    } else {
      assert (lines + [line])[1..] == lines[1..] + [line];
      CountedWorkAppend(p, lines[1..], line);
    }
  }

  /** The thread an internal action is about. */
  function ThreadOf(p: Params, st: State, a: Action): nat
    requires p.threads > 0
  {
    match a
    case TakeLine(t) => t
    case QueueEntry(t) => t
    case QueueCount(t) => t
    case _ => Turn(p, st)
  }

  /** Every internal action does exactly one of the operations that are left. */
  lemma WorkStep(p: Params, st: State, a: Action)
    requires Inv(p, st) && Internal(a) && Enabled(p, st, a)
    ensures Work(p, Next(p, st, a)) == Work(p, st) - 1
    ensures Next(p, st, a).dealt == st.dealt
  {
    var t, st' := ThreadOf(p, st, a), Next(p, st, a);
    TotalWorkUpdate(p, st.threads, t, st'.threads[t]);
    assert ThreadAt(p, st, t);
    hide Inv, ThreadAt, TotalWork;
    OneOperation(p, st, a, t);
  }

  lemma OneOperation(p: Params, st: State, a: Action, t: nat)
    requires p.threads == |st.threads| > 0 && Internal(a) && Enabled(p, st, a) && t == ThreadOf(p, st, a) < p.threads
    requires WorkerOk(p, st.threads[t].worker) && CountsOk(p, st.threads[t].counts, st.threads[t].counted)
    ensures var st' := Next(p, st, a);
            ThreadWork(p, st'.threads[t]) + st'.left == ThreadWork(p, st.threads[t]) + st.left - 1
  {
    hide Entries;
    match a
    case QueueCount(_) => CountedWorkAppend(p, st.threads[t].counted, st.threads[t].worker.line);
    case _ =>
  }

  lemma {:induction false} TotalWorkNonNegative(p: Params, threads: seq<Thread>)
    requires forall t :: 0 <= t < |threads| ==> WorkerOk(p, threads[t].worker)
    ensures TotalWork(p, threads) >= 0
  {
    if threads != [] {
      assert WorkerOk(p, threads[0].worker);
      assert forall t :: 0 <= t < |threads| - 1 ==> threads[1..][t] == threads[t + 1];
      TotalWorkNonNegative(p, threads[1..]);
    }
  }

  lemma WorkNonNegative(p: Params, st: State)
    requires Inv(p, st)
    ensures Work(p, st) >= 0
  {
    forall t | 0 <= t < |st.threads|
      ensures WorkerOk(p, st.threads[t].worker)
    {
      assert ThreadAt(p, st, t);
    }
    TotalWorkNonNegative(p, st.threads);
  }

  // ---------------------------------------------------------------- somebody can always move

  /** While a dealt line has not been taken out, its parser or the collector can move, unless the line
      itself has more entries than its queue can hold. */
  lemma UnfinishedMoves(p: Params, st: State)
    requires Inv(p, st) && p.countCap > 0 && st.slot < |st.dealt| && Fits(p, st.dealt[st.slot])
    ensures CanMove(p, st)
  {
    hide ThreadAt, CollectorOk, ReaderOk, Entries, Fits;
    CollectorInRange(p, st);
    TurnInRange(p, st);
    var t := Turn(p, st);
    assert ThreadAt(p, st, t);
    if st.left > 0 {
      CollectorLeft(p, st);
      CurrentHasLogs(p, st);
      assert Enabled(p, st, TakeEntry);
    } else {
      CollectorWaits(p, st);
      var th := st.threads[t];
      if th.counts != [] {
        assert Enabled(p, st, TakeCount);
      } else if th.worker.Idle? {
        assert Enabled(p, st, TakeLine(t));
      } else if th.worker.remaining != [] {
        assert Enabled(p, st, QueueEntry(t));
      } else {
        assert Enabled(p, st, QueueCount(t));
      }
    }
  }

  lemma CurrentHasLogs(p: Params, st: State)
    requires p.threads == |st.threads| > 0 && st.slot < |st.dealt| && ThreadAt(p, st, Turn(p, st))
    requires 0 < st.left <= |Entries(p, st.dealt[st.slot])|
    ensures st.threads[Turn(p, st)].logs != []
  {
    hide Entries, LineEntries, Share;
    assert |Rest(p, Current(p, st, Turn(p, st)), st.left)| == st.left;
  }

  lemma CollectorWaits(p: Params, st: State)
    requires p.threads == |st.threads| > 0 && st.slot < |st.dealt| && ThreadAt(p, st, Turn(p, st))
    requires st.left == 0 && p.countCap > 0 && Fits(p, st.dealt[st.slot])
    ensures var th := st.threads[Turn(p, st)];
            && (th.counts != [] ==> th.counted != [])
            && (th.counts == [] && th.worker.Idle? ==> th.binlogs != [])
            && (th.counts == [] && th.worker.Busy? && th.worker.remaining != [] ==> |th.logs| < p.logCap)
  {
    var t := Turn(p, st);
    NextOfThread(p, st);
  }

  /** No schedule can get stuck: where no parser and not the collector can move, everything dealt has
      been taken out, or the line the collector waits for has too many entries for its queue. */
  lemma StuckOnlyWhenDoneOrTooLong(p: Params, st: State)
    requires Inv(p, st) && p.countCap > 0 && !CanMove(p, st)
    ensures st.slot == |st.dealt| || !Fits(p, st.dealt[st.slot])
  {
    if st.slot < |st.dealt| && Fits(p, st.dealt[st.slot]) {
      UnfinishedMoves(p, st);
    }
  }

  /** Deadlock freedom: with room for one line, one count and the entries of any one message, some thread
      can move in every reachable state. */
  lemma NoDeadlock(p: Params, topic: seq<Message>, acts: seq<Action>, st: State)
    requires p.threads > 0 && p.binlogCap > 0 && p.countCap > 0
    requires Runs(p, Start(p, topic), acts, st) && AllFit(p, st.dealt)
    ensures |st.threads| == p.threads && exists a: Action :: Enabled(p, st, a)
  {
    StartKeeps(p, topic);
    RunKeeps(p, Start(p, topic), acts, st);
    hide Runs;
    if st.slot < |st.dealt| {
      UnfinishedMoves(p, st);
    } else {
      var r := Reader(p, st);
      assert ThreadAt(p, st, r);
      NextOfThread(p, st);
      assert st.dealt[..st.slot] == st.dealt;
      assert Enabled(p, st, DealTimeout);
    }
  }

  // ---------------------------------------------------------------- everything dealt is delivered

  predicate AllInternal(acts: seq<Action>) {
    forall i :: 0 <= i < |acts| ==> Internal(acts[i])
  }

  /** Parsers and collector cannot go on for ever by themselves, in whatever order they run. */
  lemma {:induction false} InternalRunsEnd(p: Params, st: State, acts: seq<Action>, st': State)
    requires Inv(p, st) && AllInternal(acts) && Runs(p, st, acts, st')
    ensures Inv(p, st') && st'.dealt == st.dealt && |acts| + Work(p, st') == Work(p, st) && |acts| <= Work(p, st)
    decreases |acts|
  {
    hide Enabled, Next, Work;
    if acts == [] {
      WorkNonNegative(p, st);
    } else {
      NextKeeps(p, st, acts[0]);
      WorkStep(p, st, acts[0]);
      InternalRunsEnd(p, Next(p, st, acts[0]), acts[1..], st');
    }
  }

  /** Some run of parsers and collector takes out everything that was dealt. */
  ghost predicate CanFinish(p: Params, st: State)
    requires p.threads > 0 && |st.threads| == p.threads
  {
    exists acts: seq<Action>, st': State :: Finishes(p, st, acts, st')
  }

  predicate Finishes(p: Params, st: State, acts: seq<Action>, st': State)
    requires p.threads > 0 && |st.threads| == p.threads
  {
    AllInternal(acts) && Runs(p, st, acts, st') && st'.slot == |st'.dealt|
  }

  lemma {:induction false} FittingFinishes(p: Params, st: State) returns (acts: seq<Action>, st': State)
    requires Inv(p, st) && p.countCap > 0 && AllFit(p, st.dealt)
    ensures Finishes(p, st, acts, st')
    decreases Work(p, st)
  {
    if st.slot == |st.dealt| {
      acts, st' := [], st;
    } else {
      UnfinishedMoves(p, st);
      var a: Action :| Internal(a) && Enabled(p, st, a);
      NextKeeps(p, st, a);
      WorkStep(p, st, a);
      WorkNonNegative(p, Next(p, st, a));
      var rest;
      rest, st' := FittingFinishes(p, Next(p, st, a));
      acts := [a] + rest;
      assert acts[1..] == rest;
    }
  }

  /** Delivery, exactly: from any reachable state what was dealt can all be taken out if and only if the
      entries of every dealt message fit the queue; and then every schedule takes it all out, because the
      parsers and the collector stop only when it is. */
  lemma DeliveryIff(p: Params, st: State)
    requires Inv(p, st) && p.countCap > 0
    ensures CanFinish(p, st) <==> AllFit(p, st.dealt)
  {
    if AllFit(p, st.dealt) {
      var acts, st' := FittingFinishes(p, st);
    }
    if CanFinish(p, st) {
      var acts: seq<Action>, st': State :| Finishes(p, st, acts, st');
      InternalRunsEnd(p, st, acts, st');
      assert AllFit(p, st'.dealt);
    }
  }

  /** Every schedule delivers: an internal run that cannot be continued has taken out everything dealt, in
      order. */
  lemma EveryScheduleDelivers(p: Params, st: State, acts: seq<Action>, st': State)
    requires Inv(p, st) && p.countCap > 0 && AllFit(p, st.dealt)
    requires AllInternal(acts) && Runs(p, st, acts, st') && |st'.threads| == p.threads && !CanMove(p, st')
    ensures st'.taken == ExpandAll(p.schema, st.topic[..st.consumed]) && |acts| <= Work(p, st)
  {
    InternalRunsEnd(p, st, acts, st');
    RunKeeps(p, st, acts, st');
    hide Runs, CanMove;
    StuckOnlyWhenDoneOrTooLong(p, st');
    TakenOfDealt(p, st');
    LineEntriesIsExpandAll(p, st'.dealt);
  }

  /** A message takes at most two entries per label of its table, so queues that size never block. */
  lemma RoomForEverything(p: Params, labels: nat, lines: seq<Line>)
    requires forall t <- p.schema :: |p.schema[t]| <= labels
    requires 2 * labels <= p.logCap
    ensures AllFit(p, lines)
  {
    forall i | 0 <= i < |lines|
      ensures Fits(p, lines[i])
    {
      if lines[i].Text? && lines[i].msg.table in p.schema {
        ExpandLabelsBound(p.schema[lines[i].msg.table], lines[i].msg);
      }
    }
  }
}
