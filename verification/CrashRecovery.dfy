/** Restarting the converter: it reads everything again from the beginning and skips what the last line
    of the output topic says was written. */
module CrashRecovery {
  import opened Decimal
  import opened UnifiedLog
  import opened LogParser
  import opened Collector

  /** The entry a line spells out; where ids are unresolved the line shows whatever was in memory. */
  function Unified(item: Item, junk: (int, int)): UnifiedEntry {
    match item
    case BulkEnd(epoch) => BulkLoadEnd(epoch)
    case Data(e, epoch, gids) =>
      match e.body
      case VertexBody(_, oid) =>
        VertexLog(e.op, epoch, if gids.VertexGid? then gids.gid else junk.0, oid.text, e.properties)
      case EdgeBody(elabel, _, _, src, dst) =>
        EdgeLog(e.op, epoch, elabel, if gids.EdgeGids? then gids.src else junk.0,
                if gids.EdgeGids? then gids.dst else junk.1, src.text, dst.text, e.properties)
  }

  function TextOf(line: OutLine, junk: (int, int)): string {
    Join(Fields(Unified(line.item, junk), line.number))
  }

  /** `find_last_of`; the length of the text stands for `npos`. */
  method FindLast(s: string, c: char) returns (k: nat)
    ensures k <= |s| && (k < |s| ==> s[k] == c)
    ensures forall i :: 0 <= i < |s| && (k == |s| || k < i) ==> s[i] != c
  {
    var i := |s|;
    while i > 0
      invariant 0 <= i <= |s| && forall j :: i <= j < |s| ==> s[j] != c
    {
      if s[i - 1] == c {
        return i - 1;
      }
      i := i - 1;
    }
    return |s|;
  }

  /** The part of `main` that finds out where to resume; `None` is a number `stoll` rejects. */
  method FindRestartOffset(topicExists: bool, lines: seq<string>) returns (offset: Option<int>)
    ensures offset == if !topicExists || lines == [] then Some(0) else RestartOffset(lines[|lines| - 1])
  {
    if !topicExists {
      return Some(0);
    }
    var highOffset := |lines|;
    if highOffset == 0 {
      return Some(0);
    }
    var line := lines[highOffset - 1];
    var pos := FindLast(line, BAR);
    if pos == |line| {
      offset := Stoll(line);
    } else {
      assert line == line[..pos] + [BAR] + line[pos + 1..];
      LastBarOfConcat(line[..pos], line[pos + 1..]);
      offset := Stoll(line[pos + 1..]);
    }
  }

  /** The line, as it was spelled out, gives this number. */
  ghost predicate Shows(line: OutLine, junk: (int, int), offset: int) {
    RestartOffset(TextOf(line, junk)) == Some(offset)
  }

  function LastLine(topic: seq<OutLine>): OutLine
    requires topic != []
  {
    topic[|topic| - 1]
  }

  /** `offset` is what a restarted converter reads from this topic. */
  ghost predicate ReadsOffset(topic: seq<OutLine>, offset: int) {
    if topic == [] then offset == 0
    else exists junk: (int, int) :: Shows(LastLine(topic), junk, offset)
  }

  /** On a topic numbered from 1 the offset read is the number of lines. */
  lemma OffsetIsLength(topic: seq<OutLine>, offset: int)
    requires forall k :: 0 <= k < |topic| ==> topic[k].number == k + 1
    requires |topic| <= INT64_MAX && ReadsOffset(topic, offset)
    ensures offset == |topic|
  {
    if topic != [] {
      var junk: (int, int) :| Shows(LastLine(topic), junk, offset);
      RestartOffsetOfLine(Unified(topic[|topic| - 1].item, junk), topic[|topic| - 1].number);
    }
  }

  /** One life of the converter: `lines` is what it would write from scratch on the input it gets to
      see; it resumes where the topic ends and writes `n` lines before it is stopped. */
  ghost predicate LifeWrites(lines: seq<OutLine>, topic: seq<OutLine>, offset: int, n: nat, topic': seq<OutLine>) {
    && ReadsOffset(topic, offset)
    && n <= |NewLines(lines, offset)|
    && topic' == topic + NewLines(lines, offset)[..n]
  }

  ghost predicate Life(cfg: Config, seen: seq<seq<Entry>>, topic: seq<OutLine>, topic': seq<OutLine>)
    requires cfg.Valid() && RunReadable(cfg, seen)
  {
    exists offset: int, n: nat :: LifeWrites(RunLines(cfg, seen), topic, offset, n, topic')
  }

  lemma LifeExtends(cfg: Config, input: seq<seq<Entry>>, seen: nat, topic: seq<OutLine>, topic': seq<OutLine>)
    requires cfg.Valid() && RunReadable(cfg, input) && seen <= |input|
    requires RunReadable(cfg, input[..seen]) && |RunLines(cfg, input)| <= INT64_MAX
    requires topic <= RunLines(cfg, input) && Life(cfg, input[..seen], topic, topic')
    ensures topic <= topic' <= RunLines(cfg, input)
  {
    hide RunReadable, LifeWrites, NewLines;
    var all, lines := RunLines(cfg, input), RunLines(cfg, input[..seen]);
    var offset: int, n: nat :| LifeWrites(lines, topic, offset, n, topic');
    assert input[..seen] + input[seen..] == input;
    RunLinesGrow(cfg, input[..seen], input[seen..]);
    hide RunLines;
    LinesExtend(all, lines, topic, offset, n, topic');
  }

  lemma LinesExtend(all: seq<OutLine>, lines: seq<OutLine>, topic: seq<OutLine>, offset: int, n: nat,
                    topic': seq<OutLine>)
    requires forall k :: 0 <= k < |all| ==> all[k].number == k + 1
    requires |all| <= INT64_MAX && topic <= all && lines <= all && LifeWrites(lines, topic, offset, n, topic')
    ensures topic <= topic' <= all
  {
    PrefixNumbers(topic, all);
    PrefixNumbers(lines, all);
    hide NewLines;
    OffsetIsLength(topic, offset);
    NewLinesIsDrop(lines, 0, |topic|);
    if |topic| <= |lines| {
      assert topic' == all[..|topic| + n];
    }
  }

  lemma PrefixNumbers(topic: seq<OutLine>, all: seq<OutLine>)
    requires topic <= all && forall k :: 0 <= k < |all| ==> all[k].number == k + 1
    ensures forall k :: 0 <= k < |topic| ==> topic[k].number == k + 1
  {
    assert forall k :: 0 <= k < |topic| ==> topic[k] == all[k];
  }

  /** Exactly once: however often the converter is stopped and restarted, and however much of the input
      each life gets to see, the topic is at all times a prefix of what one undisturbed run writes. */
  lemma {:induction false} AnyLives(cfg: Config, input: seq<seq<Entry>>, seens: seq<nat>, topics: seq<seq<OutLine>>)
    requires cfg.Valid() && RunReadable(cfg, input) && |RunLines(cfg, input)| <= INT64_MAX
    requires |topics| == |seens| + 1 && topics[0] == []
    requires forall k :: 0 <= k < |seens| ==>
               seens[k] <= |input| && RunReadable(cfg, input[..seens[k]]) &&
               Life(cfg, input[..seens[k]], topics[k], topics[k + 1])
    ensures topics[|seens|] <= RunLines(cfg, input)
    decreases |seens|
  {
    if seens != [] {
      var n := |seens| - 1;
      forall k | 0 <= k < n
        ensures seens[..n][k] <= |input| && RunReadable(cfg, input[..seens[..n][k]]) &&
                Life(cfg, input[..seens[..n][k]], topics[..n + 1][k], topics[..n + 1][k + 1])
      {
        assert Life(cfg, input[..seens[k]], topics[k], topics[k + 1]);
      }
      AnyLives(cfg, input, seens[..n], topics[..n + 1]);
      LifeExtends(cfg, input, seens[n], topics[n], topics[n + 1]);
    }
  }

  /** A last life that sees the whole input and is not stopped completes the topic: together with all
      earlier lives it has written exactly one undisturbed run, numbered 1, 2, 3, ... */
  lemma LastLifeCompletes(cfg: Config, input: seq<seq<Entry>>, topic: seq<OutLine>, offset: int)
    requires cfg.Valid() && RunReadable(cfg, input) && |RunLines(cfg, input)| <= INT64_MAX
    requires topic <= RunLines(cfg, input) && ReadsOffset(topic, offset)
    ensures topic + NewLines(RunLines(cfg, input), offset) == RunLines(cfg, input)
    ensures forall k :: 0 <= k < |RunLines(cfg, input)| ==> RunLines(cfg, input)[k].number == k + 1
  {
    hide *;
    TopicCompletes(RunLines(cfg, input), topic, offset);
  }

  lemma TopicCompletes(all: seq<OutLine>, topic: seq<OutLine>, offset: int)
    requires forall k :: 0 <= k < |all| ==> all[k].number == k + 1
    requires |all| <= INT64_MAX && topic <= all && ReadsOffset(topic, offset)
    ensures offset >= 0 && topic + NewLines(all, offset) == all
  {
    hide NewLines;
    PrefixNumbers(topic, all);
    OffsetIsLength(topic, offset);
    NewLinesIsDrop(all, 0, |topic|);
    assert topic + all[|topic|..] == all;
  }
}
