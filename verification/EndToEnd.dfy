/** The whole converter, over all its lives: threads, collector, crashes and restarts together. */
module EndToEnd {
  import opened Decimal
  import opened LogParser
  import opened VertexIds
  import opened Collector
  import opened CrashRecovery
  import opened Pipeline

  /** The entries of each dealt line, timeouts included. */
  function Groups(p: Params, lines: seq<Line>): seq<seq<Entry>> {
    if lines == [] then [] else Groups(p, lines[..|lines| - 1]) + [Entries(p, lines[|lines| - 1])]
  }

  lemma {:induction false} GroupsTake(p: Params, lines: seq<Line>, k: nat)
    requires k <= |lines|
    ensures |Groups(p, lines)| == |lines|
    ensures Groups(p, lines[..k]) <= Groups(p, lines)
    ensures k < |lines| ==> Groups(p, lines)[k] == Entries(p, lines[k])
    decreases |lines|
  {
    if lines == [] {
    } else if k == |lines| {
      GroupsTake(p, lines[..|lines| - 1], |lines| - 1);
      assert lines[..k] == lines;
    } else {
      var front := lines[..|lines| - 1];
      GroupsTake(p, front, k);
      assert front[..k] == lines[..k];
    }
  }

  /** Timeouts leave no trace in the output. */
  lemma {:induction false} TimeoutsVanish(cfg: Config, p: Params, lines: seq<Line>)
    requires cfg.Valid() && RunReadable(cfg, InputGroups(p.schema, Messages(lines)))
    ensures RunReadable(cfg, Groups(p, lines))
    ensures StateAfter(cfg, Groups(p, lines)) == StateAfter(cfg, InputGroups(p.schema, Messages(lines)))
    ensures RunLines(cfg, Groups(p, lines)) == RunLines(cfg, InputGroups(p.schema, Messages(lines)))
  {
    if lines != [] {
      var front, last := lines[..|lines| - 1], lines[|lines| - 1];
      var before, groups := InputGroups(p.schema, Messages(front)), Groups(p, lines);
      assert groups[..|groups| - 1] == Groups(p, front);
      if last.NoMessage? {
        assert Messages(lines) == Messages(front);
        TimeoutsVanish(cfg, p, front);
      } else {
        var msgs := Messages(lines);
        assert msgs == Messages(front) + [last.msg] && msgs[..|msgs| - 1] == Messages(front);
        var all := InputGroups(p.schema, msgs);
        assert all == before + [Expand(p.schema, last.msg)] && all[..|all| - 1] == before;
        assert forall m <- before :: m in all;
        TimeoutsVanish(cfg, p, front);
        assert Expand(p.schema, last.msg) in all;
      }
    }
  }

  /** What the collector has produced when the threads are in this state: all lines of the messages it has
      finished, and the lines of the entries it has taken of the next one. */
  function Produced(cfg: Config, p: Params, st: State): seq<OutLine>
    requires cfg.Valid() && st.slot <= |st.dealt| && RunReadable(cfg, Groups(p, st.dealt))
  {
    GroupsReadable(cfg, p, st.dealt, st.slot);
    var done := Groups(p, st.dealt[..st.slot]);
    if st.left == 0 || st.slot == |st.dealt| || st.left > |Entries(p, st.dealt[st.slot])| then RunLines(cfg, done)
    else
      var entries := Entries(p, st.dealt[st.slot]);
      RunLines(cfg, done) + MessageLines(cfg, StateAfter(cfg, done), entries)[..|entries| - st.left]
  }

  lemma GroupsReadable(cfg: Config, p: Params, lines: seq<Line>, k: nat)
    requires RunReadable(cfg, Groups(p, lines)) && k <= |lines|
    ensures RunReadable(cfg, Groups(p, lines[..k]))
    ensures k < |lines| ==> AllReadable(Entries(p, lines[k]), cfg.vlabels)
  {
    GroupsTake(p, lines, k);
    var all, part := Groups(p, lines), Groups(p, lines[..k]);
    forall m | m in part
      ensures AllReadable(m, cfg.vlabels)
    {
      var i :| 0 <= i < |part| && part[i] == m;
      assert all[i] == m && m in all;
    }
    if k < |lines| {
      assert all[k] in all;
    }
  }

  /** Whatever the schedule, the collector's output is at all times a prefix of the sequential one. */
  lemma ProducedIsPrefix(cfg: Config, p: Params, st: State)
    requires cfg.Valid() && CollectorOk(p, st) && RunReadable(cfg, InputGroups(p.schema, Messages(st.dealt)))
    ensures RunReadable(cfg, Groups(p, st.dealt))
    ensures Produced(cfg, p, st) <= RunLines(cfg, InputGroups(p.schema, Messages(st.dealt)))
  {
    CollectorInRange(p, st);
    hide *;
    TimeoutsVanish(cfg, p, st.dealt);
    ProducedWithin(cfg, p, st);
  }

  lemma ProducedWithin(cfg: Config, p: Params, st: State)
    requires cfg.Valid() && st.slot <= |st.dealt| && RunReadable(cfg, Groups(p, st.dealt))
    ensures Produced(cfg, p, st) <= RunLines(cfg, Groups(p, st.dealt))
  {
    hide RunLines, MessageLines, StateAfter, Groups, Entries;
    GroupsGrow(cfg, p, st.dealt, st.slot);
    if st.slot < |st.dealt| {
      GroupsGrow(cfg, p, st.dealt, st.slot + 1);
      OneGroupMore(cfg, p, st.dealt, st.slot);
    }
  }

  lemma GroupsGrow(cfg: Config, p: Params, lines: seq<Line>, k: nat)
    requires cfg.Valid() && RunReadable(cfg, Groups(p, lines)) && k <= |lines|
    ensures RunReadable(cfg, Groups(p, lines[..k]))
    ensures RunLines(cfg, Groups(p, lines[..k])) <= RunLines(cfg, Groups(p, lines))
  {
    GroupsTake(p, lines, k);
    var all, part := Groups(p, lines), Groups(p, lines[..k]);
    assert part + all[|part|..] == all;
    RunLinesGrow(cfg, part, all[|part|..]);
  }

  lemma OneGroupMore(cfg: Config, p: Params, lines: seq<Line>, k: nat)
    requires cfg.Valid() && RunReadable(cfg, Groups(p, lines)) && k < |lines|
    ensures RunReadable(cfg, Groups(p, lines[..k])) && RunReadable(cfg, Groups(p, lines[..k + 1]))
    ensures AllReadable(Entries(p, lines[k]), cfg.vlabels)
    ensures RunLines(cfg, Groups(p, lines[..k + 1])) ==
            RunLines(cfg, Groups(p, lines[..k])) +
            MessageLines(cfg, StateAfter(cfg, Groups(p, lines[..k])), Entries(p, lines[k]))
  {
    GroupsReadable(cfg, p, lines, k);
    GroupsReadable(cfg, p, lines, k + 1);
    assert lines[..k + 1][..k] == lines[..k];
    var groups := Groups(p, lines[..k + 1]);
    assert groups[..|groups| - 1] == Groups(p, lines[..k]);
  }

  /** One life of the whole converter: it may use other numbers of threads and other queue sizes than the
      lives before, sees the messages that are there by then, and runs any schedule until it is stopped,
      when `n` of its new lines have reached the output. */
  datatype Incarnation = Incarnation(p: Params, seen: nat, acts: seq<Action>, st: State, offset: int, n: nat)

  ghost predicate Lived(cfg: Config, schema: Schema, input: seq<Message>, life: Incarnation,
                        output: seq<OutLine>, output': seq<OutLine>)
    requires cfg.Valid()
  {
    && life.p.threads > 0 && life.p.schema == schema && life.seen <= |input|
    && Runs(life.p, Start(life.p, input[..life.seen]), life.acts, life.st)
    && life.st.slot <= |life.st.dealt| && RunReadable(cfg, Groups(life.p, life.st.dealt))
    && LifeWrites(Produced(cfg, life.p, life.st), output, life.offset, life.n, output')
  }

  lemma {:induction false} InputGroupsTake(schema: Schema, msgs: seq<Message>, k: nat)
    requires k <= |msgs|
    ensures InputGroups(schema, msgs[..k]) <= InputGroups(schema, msgs)
    decreases |msgs| - k
  {
    if k == |msgs| {
      assert msgs[..k] == msgs;
    } else {
      assert msgs[..k + 1][..k] == msgs[..k];
      InputGroupsTake(schema, msgs, k + 1);
    }
  }

  lemma LifeKeepsPrefix(cfg: Config, schema: Schema, input: seq<Message>, life: Incarnation,
                        output: seq<OutLine>, output': seq<OutLine>)
    requires cfg.Valid() && RunReadable(cfg, InputGroups(schema, input))
    requires |RunLines(cfg, InputGroups(schema, input))| <= INT64_MAX
    requires output <= RunLines(cfg, InputGroups(schema, input))
    requires Lived(cfg, schema, input, life, output, output')
    ensures output <= output' <= RunLines(cfg, InputGroups(schema, input))
  {
    hide *;
    LifeReads(cfg, schema, input, life, output, output');
    var all, part := InputGroups(schema, input), InputGroups(schema, input[..life.st.consumed]);
    PartialInput(cfg, schema, input, life.st.consumed);
    ProducedIsPrefix(cfg, life.p, life.st);
    LinesExtend(RunLines(cfg, all), Produced(cfg, life.p, life.st), output, life.offset, life.n, output');
  }

  lemma LifeReads(cfg: Config, schema: Schema, input: seq<Message>, life: Incarnation,
                  output: seq<OutLine>, output': seq<OutLine>)
    requires cfg.Valid() && Lived(cfg, schema, input, life, output, output')
    ensures life.p.schema == schema && life.st.consumed <= |input|
    ensures CollectorOk(life.p, life.st) && Messages(life.st.dealt) == input[..life.st.consumed]
    ensures life.st.slot <= |life.st.dealt| && RunReadable(cfg, Groups(life.p, life.st.dealt))
    ensures LifeWrites(Produced(cfg, life.p, life.st), output, life.offset, life.n, output')
  {
    var seen := input[..life.seen];
    StartKeeps(life.p, seen);
    RunKeeps(life.p, Start(life.p, seen), life.acts, life.st);
    hide Runs, ThreadsOk, CollectorOk, LifeWrites, Produced, RunReadable;
    assert seen[..life.st.consumed] == input[..life.st.consumed];
  }

  lemma PartialInput(cfg: Config, schema: Schema, input: seq<Message>, k: nat)
    requires cfg.Valid() && RunReadable(cfg, InputGroups(schema, input)) && k <= |input|
    ensures RunReadable(cfg, InputGroups(schema, input[..k]))
    ensures RunLines(cfg, InputGroups(schema, input[..k])) <= RunLines(cfg, InputGroups(schema, input))
    ensures forall i :: 0 <= i < |RunLines(cfg, InputGroups(schema, input))| ==>
              RunLines(cfg, InputGroups(schema, input))[i].number == i + 1
  {
    hide RunLines;
    var all, part := InputGroups(schema, input), InputGroups(schema, input[..k]);
    InputGroupsTake(schema, input, k);
    assert part + all[|part|..] == all;
    RunLinesGrow(cfg, part, all[|part|..]);
  }

  /** End to end: over any number of lives, each with its own threads, queues, schedule, timeouts and
      stopping point, the output topic is at all times a prefix of the one sequential output: nothing is
      lost, nothing is repeated and nothing is out of order. */
  lemma {:induction false} OutputIsSequential(cfg: Config, schema: Schema, input: seq<Message>,
                                               lives: seq<Incarnation>, outputs: seq<seq<OutLine>>)
    requires cfg.Valid() && RunReadable(cfg, InputGroups(schema, input))
    requires |RunLines(cfg, InputGroups(schema, input))| <= INT64_MAX
    requires |outputs| == |lives| + 1 && outputs[0] == []
    requires forall k :: 0 <= k < |lives| ==> Lived(cfg, schema, input, lives[k], outputs[k], outputs[k + 1])
    ensures outputs[|lives|] <= RunLines(cfg, InputGroups(schema, input))
    decreases |lives|
  {
    if lives != [] {
      var n := |lives| - 1;
      forall k | 0 <= k < n
        ensures Lived(cfg, schema, input, lives[..n][k], outputs[..n + 1][k], outputs[..n + 1][k + 1])
      {
        assert Lived(cfg, schema, input, lives[k], outputs[k], outputs[k + 1]);
      }
      OutputIsSequential(cfg, schema, input, lives[..n], outputs[..n + 1]);
      LifeKeepsPrefix(cfg, schema, input, lives[n], outputs[n], outputs[n + 1]);
    }
  }

  /** Nothing is missing at the end: once a life has read all of the input, its collector has caught up with
      the reader and its lines have reached the output, the output is the whole sequential one. */
  lemma OutputCompletes(cfg: Config, schema: Schema, input: seq<Message>,
                        lives: seq<Incarnation>, outputs: seq<seq<OutLine>>)
    requires cfg.Valid() && RunReadable(cfg, InputGroups(schema, input))
    requires |RunLines(cfg, InputGroups(schema, input))| <= INT64_MAX
    requires |outputs| == |lives| + 1 && outputs[0] == []
    requires forall k :: 0 <= k < |lives| ==> Lived(cfg, schema, input, lives[k], outputs[k], outputs[k + 1])
    requires lives != [] && CaughtUp(cfg, input, lives[|lives| - 1])
    ensures outputs[|lives|] == RunLines(cfg, InputGroups(schema, input))
  {
    var n := |lives| - 1;
    assert Lived(cfg, schema, input, lives[n], outputs[n], outputs[n + 1]);
    OutputIsSequential(cfg, schema, input, lives[..n], outputs[..n + 1]);
    LastLifeFinishes(cfg, schema, input, lives[n], outputs[n], outputs[n + 1]);
  }

  /** The life was not stopped before its collector had merged all of the input and all its new lines were
      written. */
  ghost predicate CaughtUp(cfg: Config, input: seq<Message>, life: Incarnation)
    requires cfg.Valid()
  {
    && life.st.consumed == |input| && life.st.slot == |life.st.dealt|
    && RunReadable(cfg, Groups(life.p, life.st.dealt))
    && life.n == |NewLines(Produced(cfg, life.p, life.st), life.offset)|
  }

  lemma LastLifeFinishes(cfg: Config, schema: Schema, input: seq<Message>, life: Incarnation,
                         output: seq<OutLine>, output': seq<OutLine>)
    requires cfg.Valid() && RunReadable(cfg, InputGroups(schema, input))
    requires |RunLines(cfg, InputGroups(schema, input))| <= INT64_MAX
    requires output <= RunLines(cfg, InputGroups(schema, input))
    requires Lived(cfg, schema, input, life, output, output') && CaughtUp(cfg, input, life)
    ensures output' == RunLines(cfg, InputGroups(schema, input))
  {
    hide RunLines, Groups, InputGroups, Produced, Lived, CollectorOk, NewLines, RunReadable, Messages, ReadsOffset;
    LifeReads(cfg, schema, input, life, output, output');
    assert input[..|input|] == input;
    AllProduced(cfg, life.p, life.st);
    PartialInput(cfg, schema, input, |input|);
    TopicCompletes(RunLines(cfg, InputGroups(schema, input)), output, life.offset);
  }

  lemma AllProduced(cfg: Config, p: Params, st: State)
    requires cfg.Valid() && RunReadable(cfg, InputGroups(p.schema, Messages(st.dealt))) && st.slot == |st.dealt|
    ensures RunReadable(cfg, Groups(p, st.dealt))
    ensures Produced(cfg, p, st) == RunLines(cfg, InputGroups(p.schema, Messages(st.dealt)))
  {
    TimeoutsVanish(cfg, p, st.dealt);
    hide RunLines, Groups, InputGroups, Messages, StateAfter;
    assert st.dealt[..st.slot] == st.dealt;
  }
}
