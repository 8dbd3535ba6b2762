/** What the bracket matchers mean on text with angle brackets.  They decide as they go which angle
    brackets are operators; whatever place they find, there is a way to read the text up to it, with some
    angle brackets blanked out, in which the place holds the partner of the first bracket. */
module Readings {
  import opened Brackets
  import opened WellNested
  import opened Sequences

  predicate IsAngle(c: char) {
    c == '<' || c == '>'
  }

  /** `s` is the text `t` with some of its angle brackets blanked out. */
  predicate IsReading(s: string, t: string) {
    |s| == |t| && forall k :: 0 <= k < |s| ==> s[k] == t[k] || (IsAngle(t[k]) && s[k] == ' ')
  }

  predicate NoBrackets(s: string) {
    forall k :: 0 <= k < |s| ==> !Opening(s[k]) && !Closing(s[k])
  }

  /** `a` is the stack `b` without some of its angle brackets; the bottom one stays. */
  predicate Thinned(a: seq<char>, b: seq<char>) {
    if b == [] then a == []
    else
      || (IsAngle(Top(b)) && |b| > 1 && Thinned(a, Pop(b)))
      || (a != [] && Top(a) == Top(b) && Thinned(Pop(a), Pop(b)))
  }

  lemma {:induction false} ThinnedDrop(a: seq<char>, b: seq<char>, angle: char)
    requires IsAngle(angle) && DropAngles(b, angle) != [] && Thinned(a, DropAngles(b, angle))
    ensures Thinned(a, b)
    decreases |b|
  {
    if Top(b) == angle {
      ThinnedDrop(a, Pop(b), angle);
    }
  }

  lemma ThinnedPushed(a: seq<char>, b: seq<char>, c: char)
    requires Thinned(a, b + [c])
    ensures (a != [] && Top(a) == c && Thinned(Pop(a), b)) || (IsAngle(c) && Thinned(a, b))
  {
    PopPush(b, c);
  }

  lemma ThinnedPop(a: seq<char>, b: seq<char>)
    requires b != [] && Thinned(a, Pop(b))
    ensures Thinned(a + [Top(b)], b)
    ensures IsAngle(Top(b)) && Pop(b) != [] ==> Thinned(a, b)
  {
    assert Pop(b) + [Top(b)] == b;
  }

  lemma ReadBoth(s: string, t: string, s': string, t': string)
    requires IsReading(s, t) && IsReading(s', t')
    ensures IsReading(s + s', t + t')
  {
  }

  // ---------------------------------------------------------------- forward

  /** Read from the front, the pending brackets are all closed exactly by the last character. */
  predicate ClosedBy(s: string, stack: seq<char>) {
    s != [] && FindClose(s, 0, stack) == |s| - 1
  }

  lemma {:induction false} FindCloseShift(r: char, s: string, i: nat, stack: seq<char>)
    requires i <= |s|
    ensures FindClose([r] + s, i + 1, stack) == FindClose(s, i, stack) + 1
    decreases |s| - i
  {
    if i < |s| {
      assert ([r] + s)[i + 1] == s[i];
      FindCloseShift(r, s, i + 1, stack + [s[i]]);
      if stack != [] {
        FindCloseShift(r, s, i + 1, Pop(stack));
      }
      FindCloseShift(r, s, i + 1, stack);
    }
  }

  /** One more character in front. */
  lemma ClosedOneMore(r: char, s: string, stack: seq<char>, next: seq<char>)
    requires ClosedBy(s, next)
    requires if Opening(r) then next == stack + [r]
             else if Closing(r) then stack != [] && Alike(Top(stack), r) && next == Pop(stack) && next != []
             else next == stack
    ensures ClosedBy([r] + s, stack)
  {
    FindCloseShift(r, s, 0, next);
  }

  lemma ClosedAtOnce(r: char, stack: seq<char>)
    requires Closing(r) && |stack| == 1 && Alike(stack[0], r)
    ensures ClosedBy([r], stack)
  {
    assert Pop(stack) == [];
  }

  /** One line of a forward scan; `tail` is the reading of what follows the line, if the scan goes on. */
  lemma {:induction false} EndReading(line: string, i: nat, stack: seq<char>, tail: string, after: seq<char>)
    returns (s: string, before: seq<char>)
    requires i <= |line| && !EndInLine(line, i, stack).Failed?
    requires match EndInLine(line, i, stack)
             case Found(_) => tail == []
             case Pending(rest) => Thinned(after, rest) && ClosedBy(tail, after)
             case Failed => true
    ensures var end := if EndInLine(line, i, stack).Found? then EndInLine(line, i, stack).pos else |line|;
            && i <= end <= |line| && IsReading(s, line[i..end])
            && Thinned(before, stack) && ClosedBy(s + tail, before)
    decreases |line| - i
  {
    hide Thinned, ClosedBy, DropAngles, EndInLine, NextStack, StopsAt;
    if i == |line| {
      EndOfLine(line, stack);
      s, before := [], after;
      assert [] + tail == tail;
    } else if StopsAt(line, i, stack) {
      s := [line[i]];
      before := if line[i] == '>' then stack else DropAngles(stack, '<');
      StopsThinned(line, i, stack);
      ClosedAtOnce(line[i], before);
      assert line[i..i + 1] == [line[i]] && [line[i]] + [] == [line[i]];
    } else {
      EndStep(line, i, stack);
      var s', before' := EndReading(line, i + 1, NextStack(line, i, stack), tail, after);
      var r;
      r, before := StepReading(line, i, stack, s' + tail, before');
      s := [r] + s';
      var end := if EndInLine(line, i, stack).Found? then EndInLine(line, i, stack).pos else |line|;
      assert line[i..end] == [line[i]] + line[i + 1..end];
      Regroup([r], s', tail);
    }
  }

  lemma EndOfLine(line: string, stack: seq<char>)
    ensures EndInLine(line, |line|, stack) == Pending(stack)
    ensures StartInLine(line, -1, stack) == Pending(stack)
  {
  }

  /** The scan stops here: the last pending bracket is closed. */
  predicate StopsAt(line: string, i: nat, stack: seq<char>)
    requires i < |line|
  {
    var c, rest := line[i], DropAngles(stack, '<');
    if IsClose(c) then rest != [] && Matching(Top(rest), c) && Pop(rest) == []
    else
      && c == '>' && !(i > 0 && (line[i - 1] == '-' || EndsWithOperator(line[..i - 1])))
      && stack != [] && Top(stack) == '<' && Pop(stack) == []
  }

  /** The pending brackets after one character, when the scan goes on. */
  function NextStack(line: string, i: nat, stack: seq<char>): seq<char>
    requires i < |line|
  {
    var c, rest := line[i], DropAngles(stack, '<');
    if IsOpen(c) then stack + [c]
    else if c == '<' then
      if i > 0 && line[i - 1] == '<' then if stack != [] && Top(stack) == '<' then Pop(stack) else stack
      else if i > 0 && EndsWithOperator(line[..i]) then stack
      else stack + ['<']
    else if IsClose(c) then if rest == [] then [] else Pop(rest)
    else if c == '>' then
      if i > 0 && (line[i - 1] == '-' || EndsWithOperator(line[..i - 1])) then stack
      else if stack != [] && Top(stack) == '<' then Pop(stack) else stack
    else if c == ';' then rest
    else stack
  }

  lemma EndStep(line: string, i: nat, stack: seq<char>)
    requires i < |line| && !EndInLine(line, i, stack).Failed? && !StopsAt(line, i, stack)
    ensures EndInLine(line, i, stack) == EndInLine(line, i + 1, NextStack(line, i, stack))
    ensures NextStack(line, i, stack) == [] ==> stack == []
    ensures IsClose(line[i]) ==>
              var rest := DropAngles(stack, '<');
              rest != [] && Matching(Top(rest), line[i]) && NextStack(line, i, stack) == Pop(rest) != []
    ensures line[i] == ';' ==> DropAngles(stack, '<') != []
  {
    hide EndsWithOperator;
  }

  lemma StopsThinned(line: string, i: nat, stack: seq<char>)
    requires i < |line| && StopsAt(line, i, stack)
    ensures Closing(line[i])
    ensures var last := if line[i] == '>' then stack else DropAngles(stack, '<');
            |last| == 1 && Alike(last[0], line[i]) && Thinned(last, stack)
    ensures EndInLine(line, i, stack) == Found(i + 1)
  {
    hide EndsWithOperator;
    var last := if line[i] == '>' then stack else DropAngles(stack, '<');
    assert Pop(last) == [];
    ThinnedSelf(last);
    if line[i] != '>' {
      ThinnedDrop(last, stack, '<');
    }
  }

  lemma {:induction false} ThinnedSelf(a: seq<char>)
    ensures Thinned(a, a)
  {
    if a != [] {
      ThinnedSelf(Pop(a));
    }
  }

  /** How the character at `i` is read, given a reading of what follows it. */
  lemma StepReading(line: string, i: nat, stack: seq<char>, tail: string, after: seq<char>)
    returns (r: char, before: seq<char>)
    requires i < |line| && !EndInLine(line, i, stack).Failed? && !StopsAt(line, i, stack)
    requires Thinned(after, NextStack(line, i, stack)) && ClosedBy(tail, after)
    ensures r == line[i] || (IsAngle(line[i]) && r == ' ')
    ensures Thinned(before, stack) && ClosedBy([r] + tail, before)
  {
    EndStep(line, i, stack);
    var c, next := line[i], NextStack(line, i, stack);
    hide Thinned, ClosedBy, EndsWithOperator, DropAngles, EndInLine, StopsAt;
    if IsOpen(c) || (c == '<' && next == stack + ['<']) {
      r, before := StepPushed(stack, c, tail, after);
    } else if IsClose(c) {
      r := c;
      before := StepPopped(DropAngles(stack, '<'), c, tail, after);
      ThinnedDrop(before, stack, '<');
    } else if c == '>' && next != stack {
      r := c;
      before := StepPopped(stack, c, tail, after);
    } else {
      r, before := if IsAngle(c) then ' ' else c, after;
      if c == '<' && next != stack {
        ThinnedPop(after, stack);
      } else if c == ';' {
        ThinnedDrop(after, stack, '<');
      }
      ClosedOneMore(r, tail, before, after);
    }
  }

  lemma StepPushed(stack: seq<char>, c: char, tail: string, after: seq<char>) returns (r: char, before: seq<char>)
    requires Opening(c) && Thinned(after, stack + [c]) && ClosedBy(tail, after)
    ensures r == c || (IsAngle(c) && r == ' ')
    ensures Thinned(before, stack) && ClosedBy([r] + tail, before)
  {
    hide Thinned, ClosedBy;
    ThinnedPushed(after, stack, c);
    if after != [] && Top(after) == c && Thinned(Pop(after), stack) {
      r, before := c, Pop(after);
      assert Pop(after) + [c] == after;
    } else {
      r, before := ' ', after;
    }
    ClosedOneMore(r, tail, before, after);
  }

  lemma StepPopped(stack: seq<char>, c: char, tail: string, after: seq<char>) returns (before: seq<char>)
    requires Closing(c) && stack != [] && Alike(Top(stack), c) && Pop(stack) != []
    requires Thinned(after, Pop(stack)) && ClosedBy(tail, after)
    ensures Thinned(before, stack) && ClosedBy([c] + tail, before)
  {
    hide Thinned, ClosedBy;
    before := after + [Top(stack)];
    PopPush(after, Top(stack));
    ThinnedPop(after, stack);
    NotEmptied(after, Pop(stack));
    ClosedOneMore(c, tail, before, after);
  }

  lemma NotEmptied(a: seq<char>, b: seq<char>)
    requires Thinned(a, b) && b != []
    ensures a != []
    decreases |b|
  {
    if IsAngle(Top(b)) && |b| > 1 && Thinned(a, Pop(b)) {
      NotEmptied(a, Pop(b));
    }
  }

  // ---------------------------------------------------------------- several lines

  /** The text from position `p` of line `l` up to position `e` of line `m`. */
  function Spanned(lines: seq<string>, l: nat, p: nat, m: nat, e: nat): string
    requires l <= m < |lines| && p <= |lines[l]| && e <= |lines[m]| && (l == m ==> p <= e)
    decreases m - l
  {
    if l == m then lines[l][p..e] else lines[l][p..] + Spanned(lines, l + 1, 0, m, e)
  }

  /** The rest of a line, and the lines after it if the scan goes on. */
  lemma {:induction false} LineThenRest(lines: seq<string>, l: nat, p: nat, stack: seq<char>)
    returns (s: string, before: seq<char>)
    requires l < |lines| && p <= |lines[l]| && Continued(lines, l, p, stack).At?
    ensures var place := Continued(lines, l, p, stack);
            && l <= place.line < |lines| && place.pos <= |lines[place.line]| && (l == place.line ==> p <= place.pos)
            && IsReading(s, Spanned(lines, l, p, place.line, place.pos))
            && Thinned(before, stack) && ClosedBy(s, before)
    decreases |lines| - l
  {
    hide EndInLine, Thinned, ClosedBy, IsReading;
    var line := lines[l];
    match EndInLine(line, p, stack)
    case Found(pos) =>
      s, before := EndReading(line, p, stack, [], []);
      assert s + [] == s;
    case Pending(rest) =>
      var tail, after := LineThenRest(lines, l + 1, 0, rest);
      var front;
      front, before := EndReading(line, p, stack, tail, after);
      s := front + tail;
      var place := Continued(lines, l, p, stack);
      assert line[p..|line|] == line[p..];
      ReadBoth(front, line[p..], tail, Spanned(lines, l + 1, 0, place.line, place.pos));
  }

  function Continued(lines: seq<string>, l: nat, p: nat, stack: seq<char>): Place
    requires l < |lines| && p <= |lines[l]|
  {
    match EndInLine(lines[l], p, stack)
    case Found(pos) => At(l, pos)
    case Failed => NotFound
    case Pending(rest) => CloseFrom(lines, l + 1, rest)
  }

  lemma {:induction false} FirstPair(s: string, i: nat) returns (k: nat)
    requires i < |s| && FindClose(s, i, []) == |s| - 1
    ensures i <= k < |s| && NoBrackets(s[i..k]) && Pair(s, k, |s| - 1)
    decreases |s| - i
  {
    if Opening(s[i]) {
      k := i;
      ForwardPairs(s, i, |s| - 1);
    } else {
      k := FirstPair(s, i + 1);
      hide Pair;
      assert s[i..k] == [s[i]] + s[i + 1..k];
    }
  }

  /** On any text, angle brackets included: from the bracket at (l, p) up to the place the forward matcher
      returns, some reading of the text has, after characters that are no brackets, a bracket, well nested
      text and the bracket's partner as the last character.  An opening bracket other than `<` is itself
      that bracket. */
  lemma ClosedTextIsNested(lines: seq<string>, l: nat, p: nat) returns (s: string, k: nat)
    requires l < |lines| && p < |lines[l]| && Close(lines, l, p).At?
    ensures var place := Close(lines, l, p);
            && l <= place.line < |lines| && place.pos <= |lines[place.line]| && (l == place.line ==> p <= place.pos)
            && IsReading(s, Spanned(lines, l, p, place.line, place.pos))
    ensures k < |s| && NoBrackets(s[..k]) && Pair(s, k, |s| - 1)
    ensures IsOpen(lines[l][p]) ==> k == 0
  {
    hide EndInLine, Pair;
    assert Close(lines, l, p) == Continued(lines, l, p, []);
    var before;
    s, before := LineThenRest(lines, l, p, []);
    k := FirstPair(s, 0);
    assert s[0..k] == s[..k];
    assert forall j :: 0 <= j < k ==> s[..k][j] == s[j];
    var place := Close(lines, l, p);
    if IsOpen(lines[l][p]) {
      SpannedStarts(lines, l, p, place.line, place.pos);
      assert s[0] == lines[l][p];
    }
  }

  lemma SpannedStarts(lines: seq<string>, l: nat, p: nat, m: nat, e: nat)
    requires l <= m < |lines| && p < |lines[l]| && e <= |lines[m]| && (l == m ==> p <= e)
    requires Spanned(lines, l, p, m, e) != []
    ensures Spanned(lines, l, p, m, e)[0] == lines[l][p]
  {
  }

  // ---------------------------------------------------------------- backward

  /** Read from the end, the pending brackets are all opened exactly by the first character. */
  predicate OpenedBy(s: string, stack: seq<char>) {
    s != [] && FindOpen(s, |s|, stack) == 1
  }

  lemma {:induction false} FindOpenFront(s: string, r: char, i: nat, stack: seq<char>)
    requires i <= |s|
    ensures FindOpen(s + [r], i, stack) == FindOpen(s, i, stack)
    decreases i
  {
    if i > 0 {
      assert (s + [r])[i - 1] == s[i - 1];
      FindOpenFront(s, r, i - 1, stack + [s[i - 1]]);
      if stack != [] {
        FindOpenFront(s, r, i - 1, Pop(stack));
      }
      FindOpenFront(s, r, i - 1, stack);
    }
  }

  /** One more character at the end. */
  lemma OpenedOneMore(s: string, r: char, stack: seq<char>, next: seq<char>)
    requires OpenedBy(s, next)
    requires if Closing(r) then next == stack + [r]
             else if Opening(r) then stack != [] && Alike(r, Top(stack)) && next == Pop(stack) && next != []
             else next == stack
    ensures OpenedBy(s + [r], stack)
  {
    FindOpenFront(s, r, |s|, next);
  }

  lemma OpenedAtOnce(r: char, stack: seq<char>)
    requires Opening(r) && |stack| == 1 && Alike(r, stack[0])
    ensures OpenedBy([r], stack)
  {
    assert Pop(stack) == [];
  }

  /** What a backward scan does at one character: it stops, or goes on so many characters before it with
      these brackets pending. */
  datatype Back = Stop | GoOn(skip: nat, stack: seq<char>)

  function BackStep(line: string, i: nat, stack: seq<char>): (b: Back)
    requires i < |line|
    ensures b.GoOn? ==> 1 <= b.skip <= 2 && b.skip <= i + 1
  {
    var c, rest := line[i], DropAngles(stack, '>');
    if IsClose(c) then GoOn(1, stack + [c])
    else if c == '>' then
      if i > 0 && (line[i - 1] == '-' || IsSpacedGreaterEqual(line[i - 1..]) || EndsWithOperator(line[..i])) then
        GoOn(2, stack)
      else GoOn(1, stack + ['>'])
    else if c == '<' then
      if i > 0 && line[i - 1] == '<' then GoOn(2, stack)
      else if stack != [] && Top(stack) == '>' then if Pop(stack) == [] then Stop else GoOn(1, Pop(stack))
      else GoOn(1, stack)
    else if IsOpen(c) then if rest == [] || Pop(rest) == [] then Stop else GoOn(1, Pop(rest))
    else if c == ';' then GoOn(1, rest)
    else GoOn(1, stack)
  }

  lemma BackStepIs(line: string, i: nat, stack: seq<char>)
    requires i < |line| && !StartInLine(line, i, stack).Failed?
    ensures match BackStep(line, i, stack)
            case Stop =>
              var last := if line[i] == '<' then stack else DropAngles(stack, '>');
              StartInLine(line, i, stack) == Found(i) && Opening(line[i]) && |last| == 1 && Alike(line[i], last[0])
            case GoOn(skip, next) => StartInLine(line, i, stack) == StartInLine(line, i - skip, next)
    ensures IsOpen(line[i]) ==> DropAngles(stack, '>') != [] && Matching(line[i], Top(DropAngles(stack, '>')))
    ensures line[i] == ';' ==> DropAngles(stack, '>') != []
  {
    hide EndsWithOperator, IsSpacedGreaterEqual;
    if BackStep(line, i, stack).Stop? {
      var last := if line[i] == '<' then stack else DropAngles(stack, '>');
      assert Pop(last) == [];
    }
  }

  /** The character skipped together with an angle bracket is no bracket, or an angle bracket itself. */
  lemma SkippedPlain(line: string, i: nat, stack: seq<char>)
    requires i < |line| && BackStep(line, i, stack).GoOn? && BackStep(line, i, stack).skip == 2
    ensures i > 0 && IsAngle(line[i]) && (IsAngle(line[i - 1]) || (!Opening(line[i - 1]) && !Closing(line[i - 1])))
    ensures BackStep(line, i, stack).stack == stack
  {
    if line[i] == '>' && EndsWithOperator(line[..i]) {
      OperatorEnds(line[..i]);
    }
    hide EndsWithOperator;
  }

  lemma OperatorEnds(s: string)
    requires EndsWithOperator(s)
    ensures s != [] && (IsSpace(s[|s| - 1]) || s[|s| - 1] == 'r')
  {
    if !IsSpace(s[|s| - 1]) {
      var n := |s| - |"operator"|;
      assert s[n..][7] == "operator"[7];
    }
  }

  /** How the character at `i` is read, given a reading of what comes before it. */
  lemma BackReading(line: string, i: nat, stack: seq<char>, head: string, after: seq<char>)
    returns (r: string, before: seq<char>)
    requires i < |line| && !StartInLine(line, i, stack).Failed? && BackStep(line, i, stack).GoOn?
    requires Thinned(after, BackStep(line, i, stack).stack) && OpenedBy(head, after)
    ensures |r| == BackStep(line, i, stack).skip && IsReading(r, line[i + 1 - |r|..i + 1])
    ensures Thinned(before, stack) && OpenedBy(head + r, before)
  {
    hide Thinned, EndsWithOperator, IsSpacedGreaterEqual, StartInLine, BackStep, OpenedBy;
    var c := line[i];
    assert line[i..i + 1] == [c];
    if BackStep(line, i, stack).skip == 2 {
      SkippedPlain(line, i, stack);
      var d := if IsAngle(line[i - 1]) then ' ' else line[i - 1];
      r, before := [d, ' '], after;
      assert line[i - 1..i + 1] == [line[i - 1], c];
      OpenedOneMore(head, d, after, after);
      OpenedOneMore(head + [d], ' ', after, after);
      assert head + [d] + [' '] == head + r;
    } else {
      var one;
      one, before := BackReadOne(line, i, stack, head, after);
      r := [one];
    }
  }

  lemma BackReadOne(line: string, i: nat, stack: seq<char>, head: string, after: seq<char>)
    returns (r: char, before: seq<char>)
    requires i < |line| && !StartInLine(line, i, stack).Failed?
    requires BackStep(line, i, stack).GoOn? && BackStep(line, i, stack).skip == 1
    requires Thinned(after, BackStep(line, i, stack).stack) && OpenedBy(head, after)
    ensures r == line[i] || (IsAngle(line[i]) && r == ' ')
    ensures Thinned(before, stack) && OpenedBy(head + [r], before)
  {
    var c, next := line[i], BackStep(line, i, stack).stack;
    hide Thinned, OpenedBy, EndsWithOperator, IsSpacedGreaterEqual, DropAngles, StartInLine;
    if IsClose(c) || c == '>' {
      r, before := BackPushed(stack, c, head, after);
    } else if IsOpen(c) {
      BackStepIs(line, i, stack);
      var rest := DropAngles(stack, '>');
      r := c;
      before := BackPopped(rest, c, head, after);
      ThinnedDrop(before, stack, '>');
    } else if c == '<' && next != stack {
      r := c;
      before := BackPopped(stack, c, head, after);
    } else {
      r, before := if IsAngle(c) then ' ' else c, after;
      if c == ';' {
        BackStepIs(line, i, stack);
        ThinnedDrop(after, stack, '>');
      }
      OpenedOneMore(head, r, before, after);
    }
  }

  lemma BackPushed(stack: seq<char>, c: char, head: string, after: seq<char>) returns (r: char, before: seq<char>)
    requires Closing(c) && Thinned(after, stack + [c]) && OpenedBy(head, after)
    ensures r == c || (IsAngle(c) && r == ' ')
    ensures Thinned(before, stack) && OpenedBy(head + [r], before)
  {
    hide Thinned, OpenedBy;
    ThinnedPushed(after, stack, c);
    if after != [] && Top(after) == c && Thinned(Pop(after), stack) {
      r, before := c, Pop(after);
      assert Pop(after) + [c] == after;
    } else {
      r, before := ' ', after;
    }
    OpenedOneMore(head, r, before, after);
  }

  lemma BackPopped(stack: seq<char>, c: char, head: string, after: seq<char>) returns (before: seq<char>)
    requires Opening(c) && stack != [] && Alike(c, Top(stack)) && Pop(stack) != []
    requires Thinned(after, Pop(stack)) && OpenedBy(head, after)
    ensures Thinned(before, stack) && OpenedBy(head + [c], before)
  {
    hide Thinned, OpenedBy;
    before := after + [Top(stack)];
    PopPush(after, Top(stack));
    ThinnedPop(after, stack);
    NotEmptied(after, Pop(stack));
    OpenedOneMore(head, c, before, after);
  }

  /** One line of a backward scan; `head` is the reading of what comes before the line, if the scan goes on. */
  lemma {:induction false} StartReading(line: string, i: int, stack: seq<char>, head: string, after: seq<char>)
    returns (s: string, before: seq<char>)
    requires -1 <= i < |line| && !StartInLine(line, i, stack).Failed?
    requires match StartInLine(line, i, stack)
             case Found(_) => head == []
             case Pending(rest) => Thinned(after, rest) && OpenedBy(head, after)
             case Failed => true
    ensures var start := if StartInLine(line, i, stack).Found? then StartInLine(line, i, stack).pos else 0;
            && 0 <= start <= i + 1 && IsReading(s, line[start..i + 1])
            && Thinned(before, stack) && OpenedBy(head + s, before)
    decreases i + 1
  {
    hide Thinned, OpenedBy, DropAngles, BackStep, StartInLine;
    if i < 0 {
      EndOfLine(line, stack);
      s, before := [], after;
      assert head + [] == head;
    } else {
      BackStepIs(line, i, stack);
      if BackStep(line, i, stack).Stop? {
        s := [line[i]];
        before := if line[i] == '<' then stack else DropAngles(stack, '>');
        OpenedAtOnce(line[i], before);
        ThinnedSelf(before);
        if line[i] != '<' {
          ThinnedDrop(before, stack, '>');
        }
        assert line[i..i + 1] == [line[i]] && [] + [line[i]] == [line[i]];
      } else {
        var skip, next := BackStep(line, i, stack).skip, BackStep(line, i, stack).stack;
        var s', before' := StartReading(line, i - skip, next, head, after);
        var r;
        r, before := BackReading(line, i, stack, head + s', before');
        s := s' + r;
        var start := if StartInLine(line, i, stack).Found? then StartInLine(line, i, stack).pos else 0;
        assert line[start..i + 1] == line[start..i + 1 - skip] + line[i + 1 - skip..i + 1];
        ReadBoth(s', line[start..i + 1 - skip], r, line[i + 1 - skip..i + 1]);
        Regroup(head, s', r);
      }
    }
  }

  /** The text from position `p` of line `l` up to and including position `e` of line `m`, line by line
      from the end. */
  lemma {:induction false} SpannedLast(lines: seq<string>, l: nat, p: nat, m: nat, e: nat)
    requires l < m < |lines| && p <= |lines[l]| && e <= |lines[m]|
    ensures Spanned(lines, l, p, m, e) == Spanned(lines, l, p, m - 1, |lines[m - 1]|) + lines[m][..e]
    decreases m - l
  {
    assert lines[m][0..e] == lines[m][..e];
    if l + 1 < m {
      SpannedLast(lines, l + 1, 0, m, e);
      Regroup(lines[l][p..], Spanned(lines, l + 1, 0, m - 1, |lines[m - 1]|), lines[m][..e]);
    } else {
      assert lines[l][p..|lines[l]|] == lines[l][p..];
    }
  }

  function ContinuedBack(lines: seq<string>, l: nat, p: int, stack: seq<char>): Place
    requires l < |lines| && p < |lines[l]|
  {
    match StartInLine(lines[l], p, stack)
    case Found(pos) => At(l, pos)
    case Failed => NotFound
    case Pending(rest) => OpenFrom(lines, l, rest)
  }

  lemma {:induction false} LineAndBefore(lines: seq<string>, l: nat, p: int, stack: seq<char>)
    returns (s: string, before: seq<char>)
    requires l < |lines| && -1 <= p < |lines[l]| && ContinuedBack(lines, l, p, stack).At?
    ensures var place := ContinuedBack(lines, l, p, stack);
            && place.line <= l && place.pos <= |lines[place.line]| && (l == place.line ==> place.pos <= p + 1)
            && IsReading(s, Spanned(lines, place.line, place.pos, l, p + 1))
            && Thinned(before, stack) && OpenedBy(s, before)
    decreases l
  {
    hide StartInLine, Thinned, OpenedBy, IsReading;
    var line := lines[l];
    match StartInLine(line, p, stack)
    case Found(pos) =>
      s, before := StartReading(line, p, stack, [], []);
      assert [] + s == s;
    case Pending(rest) =>
      var head, after := LineAndBefore(lines, l - 1, |lines[l - 1]| - 1, rest);
      var back;
      back, before := StartReading(line, p, stack, head, after);
      s := head + back;
      var place := ContinuedBack(lines, l, p, stack);
      assert line[0..p + 1] == line[..p + 1];
      SpannedLast(lines, place.line, place.pos, l, p + 1);
      ReadBoth(head, Spanned(lines, place.line, place.pos, l - 1, |lines[l - 1]|), back, line[..p + 1]);
  }

  lemma {:induction false} LastPair(s: string, i: nat) returns (k: nat)
    requires i <= |s| && FindOpen(s, i, []) == 1
    ensures k < i && NoBrackets(s[k + 1..i]) && Pair(s, 0, k)
    decreases i
  {
    if Closing(s[i - 1]) {
      k := i - 1;
      BackwardPairs(s, 0, i - 1);
    } else {
      k := LastPair(s, i - 1);
      hide Pair;
      assert s[k + 1..i] == s[k + 1..i - 1] + [s[i - 1]];
    }
  }

  /** The same backward: from the place the matcher returns up to the bracket at (l, p), some reading of the
      text is a bracket, well nested text, the bracket's partner, and characters that are no brackets.  A
      closing bracket other than `>` is itself that partner. */
  lemma ReverseTextIsNested(lines: seq<string>, l: nat, p: nat) returns (s: string, k: nat)
    requires l < |lines| && p < |lines[l]| && ReverseClose(lines, l, p).At?
    ensures var place := ReverseClose(lines, l, p);
            && place.line <= l && place.pos <= |lines[place.line]| && (l == place.line ==> place.pos <= p + 1)
            && IsReading(s, Spanned(lines, place.line, place.pos, l, p + 1))
    ensures k < |s| && NoBrackets(s[k + 1..]) && Pair(s, 0, k)
    ensures IsClose(lines[l][p]) ==> k == |s| - 1
  {
    hide StartInLine, Pair;
    assert ReverseClose(lines, l, p) == ContinuedBack(lines, l, p, []);
    var before;
    s, before := LineAndBefore(lines, l, p, []);
    k := LastPair(s, |s|);
    assert s[k + 1..|s|] == s[k + 1..];
    assert forall j :: k + 1 <= j < |s| ==> s[k + 1..][j - k - 1] == s[j];
    var place := ReverseClose(lines, l, p);
    if IsClose(lines[l][p]) {
      SpannedEnds(lines, place.line, place.pos, l, p);
      assert s[|s| - 1] == lines[l][p];
    }
  }

  lemma {:induction false} SpannedEnds(lines: seq<string>, l: nat, p: nat, m: nat, e: nat)
    requires l <= m < |lines| && p <= |lines[l]| && e < |lines[m]| && (l == m ==> p <= e + 1)
    requires Spanned(lines, l, p, m, e + 1) != []
    ensures var t := Spanned(lines, l, p, m, e + 1);
            t[|t| - 1] == lines[m][e]
    decreases m - l
  {
    if l < m {
      SpannedLast(lines, l, p, m, e + 1);
    }
  }
}
