/** Angle brackets do not reach across statements: whatever the bracket matchers pair, a semicolon between
    the two is inside round, square or curly brackets that lie between them too.  And which angle brackets
    the matchers take for operators. */
module Statements {
  import opened Brackets
  import opened Readings

  /** How many round, square and curly brackets the text opens more than it closes. */
  function Depth(s: string): int {
    if s == [] then 0 else (if IsOpen(s[0]) then 1 else if IsClose(s[0]) then -1 else 0) + Depth(s[1..])
  }

  /** How many pending brackets are no angle brackets. */
  function Firm(stack: seq<char>, angle: char): nat {
    if stack == [] then 0 else Firm(Pop(stack), angle) + if Top(stack) == angle then 0 else 1
  }

  /** At every semicolon more brackets have been opened than closed, `d` of them before the text. */
  predicate Sheltered(t: string, d: int) {
    forall k :: 0 <= k < |t| && t[k] == ';' ==> d + Depth(t[..k]) > 0
  }

  /** After every semicolon more brackets will be closed than opened, `d` of them after the text. */
  predicate ShelteredBack(t: string, d: int) {
    forall k :: 0 <= k < |t| && t[k] == ';' ==> d - Depth(t[k + 1..]) > 0
  }

  lemma {:induction false} DepthConcat(a: string, b: string)
    ensures Depth(a + b) == Depth(a) + Depth(b)
  {
    if a == [] {
      assert a + b == b;
    } else {
      assert (a + b)[1..] == a[1..] + b;
      DepthConcat(a[1..], b);
    }
  }

  lemma DepthOfTake(a: string, b: string, k: nat)
    requires k <= |a + b|
    ensures Depth((a + b)[..k]) == if k <= |a| then Depth(a[..k]) else Depth(a) + Depth(b[..k - |a|])
  {
    hide Depth;
    if k <= |a| {
      assert (a + b)[..k] == a[..k];
    } else {
      assert (a + b)[..k] == a + b[..k - |a|];
      DepthConcat(a, b[..k - |a|]);
    }
  }

  lemma DepthOfDrop(a: string, b: string, k: nat)
    requires k <= |a + b|
    ensures Depth((a + b)[k..]) == if k <= |a| then Depth(a[k..]) + Depth(b) else Depth(b[k - |a|..])
  {
    hide Depth;
    if k <= |a| {
      assert (a + b)[k..] == a[k..] + b;
      DepthConcat(a[k..], b);
    } else {
      assert (a + b)[k..] == b[k - |a|..];
    }
  }

  lemma ShelteredAt(t: string, d: int, k: nat)
    requires Sheltered(t, d) && k < |t| && t[k] == ';'
    ensures d + Depth(t[..k]) > 0
  {
  }

  lemma ShelteredBackAt(t: string, d: int, k: nat)
    requires ShelteredBack(t, d) && k < |t| && t[k] == ';'
    ensures d - Depth(t[k + 1..]) > 0
  {
  }

  lemma AllSheltered(t: string, d: int)
    requires forall k :: 0 <= k < |t| && t[k] == ';' ==> d + Depth(t[..k]) > 0
    ensures Sheltered(t, d)
  {
    hide Depth;
  }

  lemma AllShelteredBack(t: string, d: int)
    requires forall k :: 0 <= k < |t| && t[k] == ';' ==> d - Depth(t[k + 1..]) > 0
    ensures ShelteredBack(t, d)
  {
    hide Depth;
  }

  lemma ConcatShelters(a: string, b: string, d: int, k: nat)
    requires Sheltered(a, d) && Sheltered(b, d + Depth(a)) && k < |a + b| && (a + b)[k] == ';'
    ensures d + Depth((a + b)[..k]) > 0
  {
    hide *;
    DepthOfTake(a, b, k);
    if k < |a| {
      ShelteredAt(a, d, k);
    } else {
      ShelteredAt(b, d + Depth(a), k - |a|);
      if k == |a| {
        assert a[..k] == a && b[..0] == [];
        NothingSheltered([], 0);
      }
    }
  }

  lemma ConcatSheltersBack(a: string, b: string, d: int, k: nat)
    requires ShelteredBack(b, d) && ShelteredBack(a, d - Depth(b)) && k < |a + b| && (a + b)[k] == ';'
    ensures d - Depth((a + b)[k + 1..]) > 0
  {
    hide *;
    DepthOfDrop(a, b, k + 1);
    if k < |a| {
      ShelteredBackAt(a, d - Depth(b), k);
    } else {
      ShelteredBackAt(b, d, k - |a|);
    }
  }

  lemma ShelteredConcat(a: string, b: string, d: int)
    requires Sheltered(a, d) && Sheltered(b, d + Depth(a))
    ensures Sheltered(a + b, d)
  {
    hide *;
    forall k | 0 <= k < |a + b| && (a + b)[k] == ';'
      ensures d + Depth((a + b)[..k]) > 0
    {
      ConcatShelters(a, b, d, k);
    }
    AllSheltered(a + b, d);
  }

  lemma ShelteredBackConcat(a: string, b: string, d: int)
    requires ShelteredBack(b, d) && ShelteredBack(a, d - Depth(b))
    ensures ShelteredBack(a + b, d)
  {
    hide *;
    forall k | 0 <= k < |a + b| && (a + b)[k] == ';'
      ensures d - Depth((a + b)[k + 1..]) > 0
    {
      ConcatSheltersBack(a, b, d, k);
    }
    AllShelteredBack(a + b, d);
  }

  lemma {:induction false} FirmDropped(stack: seq<char>, angle: char)
    ensures Firm(DropAngles(stack, angle), angle) == Firm(stack, angle)
    ensures DropAngles(stack, angle) != [] ==>
              Firm(stack, angle) > 0 && Firm(Pop(DropAngles(stack, angle)), angle) == Firm(stack, angle) - 1
  {
    if stack != [] && Top(stack) == angle {
      FirmDropped(Pop(stack), angle);
    }
  }

  lemma FirmPushed(stack: seq<char>, c: char, angle: char)
    ensures Firm(stack + [c], angle) == Firm(stack, angle) + if c == angle then 0 else 1
  {
    assert Pop(stack + [c]) == stack;
  }

  lemma OneChar(c: char, d: int)
    requires c == ';' ==> d > 0
    ensures Sheltered([c], d) && ShelteredBack([c], d)
    ensures Depth([c]) == if IsOpen(c) then 1 else if IsClose(c) then -1 else 0
  {
    assert Depth([]) == 0;
    assert forall k :: 0 <= k < |[c]| ==> [c][..k] == [] && [c][k + 1..] == [];
  }

  // ---------------------------------------------------------------- forward

  /** One character of a forward scan. */
  lemma StepShelters(line: string, i: nat, stack: seq<char>)
    requires i < |line| && !EndInLine(line, i, stack).Failed? && !StopsAt(line, i, stack)
    ensures Sheltered([line[i]], Firm(stack, '<'))
    ensures Firm(NextStack(line, i, stack), '<') == Firm(stack, '<') + Depth([line[i]])
  {
    hide EndsWithOperator, EndInLine, DropAngles, Sheltered, Depth;
    EndStep(line, i, stack);
    FirmDropped(stack, '<');
    FirmPushed(stack, line[i], '<');
    OneChar(line[i], Firm(stack, '<'));
  }

  lemma {:induction false} ScanShelters(line: string, i: nat, stack: seq<char>)
    requires i <= |line|
    ensures match EndInLine(line, i, stack)
            case Found(pos) => i <= pos <= |line| && Sheltered(line[i..pos], Firm(stack, '<'))
            case Pending(rest) =>
              Sheltered(line[i..], Firm(stack, '<')) && Firm(rest, '<') == Firm(stack, '<') + Depth(line[i..])
            case Failed => true
    decreases |line| - i
  {
    var d := Firm(stack, '<');
    hide EndInLine, Sheltered, Firm, Depth, StopsAt, NextStack;
    if i == |line| {
      EndOfLine(line, stack);
      NothingSheltered(line[i..], d);
    } else if !EndInLine(line, i, stack).Failed? {
      if StopsAt(line, i, stack) {
        StopsThinned(line, i, stack);
        OneChar(line[i], d);
        assert line[i..i + 1] == [line[i]];
      } else {
        EndStep(line, i, stack);
        StepShelters(line, i, stack);
        var next := NextStack(line, i, stack);
        ScanShelters(line, i + 1, next);
        match EndInLine(line, i + 1, next)
        case Found(pos) =>
          assert line[i..pos] == [line[i]] + line[i + 1..pos];
          ShelteredConcat([line[i]], line[i + 1..pos], d);
        case Pending(_) =>
          assert line[i..] == [line[i]] + line[i + 1..];
          ShelteredConcat([line[i]], line[i + 1..], d);
          DepthConcat([line[i]], line[i + 1..]);
      }
    }
  }

  lemma NothingSheltered(t: string, d: int)
    requires t == []
    ensures Sheltered(t, d) && ShelteredBack(t, d) && Depth(t) == 0
  {
  }

  lemma {:induction false} LinesShelter(lines: seq<string>, l: nat, p: nat, stack: seq<char>)
    requires l < |lines| && p <= |lines[l]| && Continued(lines, l, p, stack).At?
    ensures var place := Continued(lines, l, p, stack);
            && l <= place.line < |lines| && place.pos <= |lines[place.line]| && (l == place.line ==> p <= place.pos)
            && Sheltered(Spanned(lines, l, p, place.line, place.pos), Firm(stack, '<'))
    decreases |lines| - l
  {
    hide EndInLine, Sheltered, Firm, Depth;
    var line := lines[l];
    ScanShelters(line, p, stack);
    if EndInLine(line, p, stack).Pending? {
      var rest := EndInLine(line, p, stack).stack;
      LinesShelter(lines, l + 1, 0, rest);
      var place := Continued(lines, l, p, stack);
      ShelteredConcat(line[p..], Spanned(lines, l + 1, 0, place.line, place.pos), Firm(stack, '<'));
    }
  }

  /** Whatever closing place the forward matcher returns for the bracket at (l, p): at every semicolon of the
      text between, some round, square or curly bracket opened since is still open.  So a `<` that has met a
      semicolon of its own is never closed by a `>` after it. */
  lemma SemicolonsAreInside(lines: seq<string>, l: nat, p: nat)
    requires l < |lines| && p < |lines[l]| && Close(lines, l, p).At?
    ensures var place := Close(lines, l, p);
            && l <= place.line < |lines| && place.pos <= |lines[place.line]| && (l == place.line ==> p <= place.pos)
            && var t := Spanned(lines, l, p, place.line, place.pos);
               forall k :: 0 <= k < |t| && t[k] == ';' ==> Depth(t[..k]) > 0
  {
    hide EndInLine;
    assert Close(lines, l, p) == Continued(lines, l, p, []);
    LinesShelter(lines, l, p, []);
  }

  /** Also where it is not the bracket asked about: a `<` followed by a semicolon, with no other bracket
      between, leaves no trace in the scan. */
  lemma {:induction false} AngleForgotten(line: string, i: nat, j: nat, stack: seq<char>)
    requires i <= j < |line| && line[j] == ';'
    requires forall k :: i <= k < j ==> !IsOpen(line[k]) && !IsClose(line[k]) && !IsAngle(line[k]) && line[k] != ';'
    ensures EndInLine(line, i, stack + ['<']) == EndInLine(line, i, stack)
    decreases j - i
  {
    if i < j {
      AngleForgotten(line, i + 1, j, stack);
    } else {
      assert Pop(stack + ['<']) == stack;
    }
  }

  lemma {:induction false} ScanEnds(line: string, i: nat, stack: seq<char>)
    requires i <= |line| && EndInLine(line, i, stack).Found?
    ensures var e := EndInLine(line, i, stack).pos;
            i < e <= |line| && (IsClose(line[e - 1]) || (line[e - 1] == '>' && (e < 2 || line[e - 2] != '-')))
    decreases |line| - i
  {
    hide EndsWithOperator, DropAngles, EndInLine;
    if i == |line| {
      EndOfLine(line, stack);
    } else if StopsAt(line, i, stack) {
      StopsThinned(line, i, stack);
    } else {
      EndStep(line, i, stack);
      ScanEnds(line, i + 1, NextStack(line, i, stack));
    }
  }

  lemma {:induction false} ContinuedEnds(lines: seq<string>, l: nat, p: nat, stack: seq<char>)
    requires l < |lines| && p <= |lines[l]| && Continued(lines, l, p, stack).At?
    ensures var place := Continued(lines, l, p, stack);
            && place.line < |lines| && 0 < place.pos <= |lines[place.line]|
            && var line := lines[place.line];
               IsClose(line[place.pos - 1]) ||
               (line[place.pos - 1] == '>' && (place.pos < 2 || line[place.pos - 2] != '-'))
    decreases |lines| - l
  {
    hide EndInLine;
    match EndInLine(lines[l], p, stack)
    case Found(_) =>
      ScanEnds(lines[l], p, stack);
    case Pending(rest) =>
      ContinuedEnds(lines, l + 1, 0, rest);
  }

  /** The forward matcher stops after a closing bracket, and never takes an arrow for one. */
  lemma ArrowsNeverClose(lines: seq<string>, l: nat, p: nat)
    requires l < |lines| && p < |lines[l]| && Close(lines, l, p).At?
    ensures var place := Close(lines, l, p);
            && place.line < |lines| && 0 < place.pos <= |lines[place.line]|
            && var line := lines[place.line];
               IsClose(line[place.pos - 1]) ||
               (line[place.pos - 1] == '>' && (place.pos < 2 || line[place.pos - 2] != '-'))
  {
    hide EndInLine;
    assert Close(lines, l, p) == Continued(lines, l, p, []);
    ContinuedEnds(lines, l, p, []);
  }

  // ---------------------------------------------------------------- backward

  /** One step of a backward scan. */
  lemma BackStepShelters(line: string, i: nat, stack: seq<char>)
    requires i < |line| && !StartInLine(line, i, stack).Failed? && BackStep(line, i, stack).GoOn?
    ensures var step := BackStep(line, i, stack);
            var t := line[i + 1 - step.skip..i + 1];
            ShelteredBack(t, Firm(stack, '>')) && Firm(step.stack, '>') == Firm(stack, '>') - Depth(t)
  {
    hide EndsWithOperator, IsSpacedGreaterEqual, StartInLine, DropAngles, ShelteredBack, Depth, Firm;
    if BackStep(line, i, stack).skip == 2 {
      TwoBack(line, i, stack);
    } else {
      OneBack(line, i, stack);
      assert line[i..i + 1] == [line[i]];
    }
  }

  lemma OneBack(line: string, i: nat, stack: seq<char>)
    requires i < |line| && !StartInLine(line, i, stack).Failed?
    requires BackStep(line, i, stack).GoOn? && BackStep(line, i, stack).skip == 1
    ensures ShelteredBack([line[i]], Firm(stack, '>'))
    ensures Firm(BackStep(line, i, stack).stack, '>') == Firm(stack, '>') - Depth([line[i]])
  {
    hide EndsWithOperator, IsSpacedGreaterEqual, StartInLine, DropAngles, ShelteredBack, Depth;
    BackStepIs(line, i, stack);
    FirmDropped(stack, '>');
    OneChar(line[i], Firm(stack, '>'));
    FirmPushed(stack, line[i], '>');
  }

  lemma TwoBack(line: string, i: nat, stack: seq<char>)
    requires i < |line| && BackStep(line, i, stack).GoOn? && BackStep(line, i, stack).skip == 2
    ensures i > 0 && BackStep(line, i, stack).stack == stack
    ensures ShelteredBack(line[i - 1..i + 1], Firm(stack, '>')) && Depth(line[i - 1..i + 1]) == 0
  {
    SkippedPlain(line, i, stack);
    SkippedNoSemicolon(line, i, stack);
    var a, b, d := line[i - 1], line[i], Firm(stack, '>');
    hide BackStep, Firm, ShelteredBack, Depth;
    OneChar(a, d);
    OneChar(b, d);
    assert line[i - 1..i + 1] == [a] + [b];
    ShelteredBackConcat([a], [b], d);
    DepthConcat([a], [b]);
  }

  lemma SkippedNoSemicolon(line: string, i: nat, stack: seq<char>)
    requires 0 < i < |line| && BackStep(line, i, stack).GoOn? && BackStep(line, i, stack).skip == 2
    ensures line[i - 1] != ';'
  {
    if line[i] == '>' && EndsWithOperator(line[..i]) {
      OperatorEnds(line[..i]);
    }
    hide EndsWithOperator;
  }

  lemma {:induction false} BackScanShelters(line: string, i: int, stack: seq<char>)
    requires -1 <= i < |line|
    ensures match StartInLine(line, i, stack)
            case Found(pos) => pos <= i + 1 && ShelteredBack(line[pos..i + 1], Firm(stack, '>'))
            case Pending(rest) =>
              && ShelteredBack(line[..i + 1], Firm(stack, '>'))
              && Firm(rest, '>') == Firm(stack, '>') - Depth(line[..i + 1])
            case Failed => true
    decreases i + 1
  {
    var d := Firm(stack, '>');
    hide StartInLine, ShelteredBack, Firm, Depth, BackStep, DropAngles;
    if i < 0 {
      EndOfLine(line, stack);
      NothingSheltered(line[..i + 1], d);
    } else if !StartInLine(line, i, stack).Failed? {
      BackStepIs(line, i, stack);
      if BackStep(line, i, stack).Stop? {
        OneChar(line[i], d);
        assert line[i..i + 1] == [line[i]];
      } else {
        BackStepShelters(line, i, stack);
        var step := BackStep(line, i, stack);
        var t, before := line[i + 1 - step.skip..i + 1], i - step.skip;
        BackScanShelters(line, before, step.stack);
        match StartInLine(line, before, step.stack)
        case Found(pos) =>
          assert line[pos..i + 1] == line[pos..before + 1] + t;
          ShelteredBackConcat(line[pos..before + 1], t, d);
        case Pending(_) =>
          assert line[..i + 1] == line[..before + 1] + t;
          ShelteredBackConcat(line[..before + 1], t, d);
          DepthConcat(line[..before + 1], t);
      }
    }
  }

  lemma {:induction false} LinesShelterBack(lines: seq<string>, l: nat, p: int, stack: seq<char>)
    requires l < |lines| && -1 <= p < |lines[l]| && ContinuedBack(lines, l, p, stack).At?
    ensures var place := ContinuedBack(lines, l, p, stack);
            && place.line <= l && place.pos <= |lines[place.line]| && (l == place.line ==> place.pos <= p + 1)
            && ShelteredBack(Spanned(lines, place.line, place.pos, l, p + 1), Firm(stack, '>'))
    decreases l
  {
    hide StartInLine, ShelteredBack, Firm, Depth;
    var line := lines[l];
    BackScanShelters(line, p, stack);
    if StartInLine(line, p, stack).Pending? {
      var rest := StartInLine(line, p, stack).stack;
      LinesShelterBack(lines, l - 1, |lines[l - 1]| - 1, rest);
      var place := ContinuedBack(lines, l, p, stack);
      SpannedLast(lines, place.line, place.pos, l, p + 1);
      var front := Spanned(lines, place.line, place.pos, l - 1, |lines[l - 1]|);
      ShelteredBackConcat(front, line[..p + 1], Firm(stack, '>'));
    }
  }

  /** The same backward: at every semicolon between, some round, square or curly bracket that is closed after
      it, up to the bracket at (l, p), was opened before it. */
  lemma SemicolonsAreInsideBack(lines: seq<string>, l: nat, p: nat)
    requires l < |lines| && p < |lines[l]| && ReverseClose(lines, l, p).At?
    ensures var place := ReverseClose(lines, l, p);
            && place.line <= l && place.pos <= |lines[place.line]| && (l == place.line ==> place.pos <= p + 1)
            && var t := Spanned(lines, place.line, place.pos, l, p + 1);
               forall k :: 0 <= k < |t| && t[k] == ';' ==> Depth(t[k + 1..]) < 0
  {
    hide StartInLine;
    assert ReverseClose(lines, l, p) == ContinuedBack(lines, l, p, []);
    LinesShelterBack(lines, l, p, []);
  }

  // ---------------------------------------------------------------- operators

  /** The word `operator` stands just before position `i`. */
  predicate AfterOperator(line: string, i: nat) {
    i <= |line| && i >= 8 && line[i - 8..i] == "operator" && (i == 8 || !IsWordChar(line[i - 9]))
  }

  lemma LastOfOperator(line: string, i: nat)
    requires AfterOperator(line, i)
    ensures line[i - 1] == 'r' && line[i - 2] == 'o' && EndsWithOperator(line[..i])
  {
    assert line[i - 8..i][7] == "operator"[7] && line[i - 8..i][6] == "operator"[6];
    assert line[..i][i - 8..] == line[i - 8..i];
  }

  /** The `<` of `operator<` leaves no trace in a forward scan, and the `>` of `operator>` none in a backward
      one. */
  lemma OperatorsIgnored(line: string, i: nat, stack: seq<char>)
    requires i < |line| && AfterOperator(line, i)
    ensures line[i] == '<' ==> EndInLine(line, i, stack) == EndInLine(line, i + 1, stack)
    ensures line[i] == '>' ==> StartInLine(line, i, stack) == StartInLine(line, i - 2, stack)
  {
    LastOfOperator(line, i);
    hide EndsWithOperator;
  }

  /** But the `>` of `operator>` closes a pending `<` in a forward scan, which looks for the word one character
      too early. */
  lemma OperatorGreaterCloses(line: string, i: nat, stack: seq<char>)
    requires i < |line| && AfterOperator(line, i) && line[i] == '>'
    ensures EndInLine(line, i, stack + ['<']) == if stack == [] then Found(i + 1) else EndInLine(line, i + 1, stack)
  {
    NoOperatorBefore(line, i);
    hide EndsWithOperator, AfterOperator, EndInLine;
    assert Pop(stack + ['<']) == stack && Top(stack + ['<']) == '<';
    GreaterCloses(line, i, stack + ['<']);
  }

  lemma GreaterCloses(line: string, i: nat, stack: seq<char>)
    requires 0 < i < |line| && line[i] == '>' && line[i - 1] != '-' && !EndsWithOperator(line[..i - 1])
    requires stack != [] && Top(stack) == '<'
    ensures EndInLine(line, i, stack) == if Pop(stack) == [] then Found(i + 1) else EndInLine(line, i + 1, Pop(stack))
  {
    hide EndsWithOperator, DropAngles;
  }

  lemma NoOperatorBefore(line: string, i: nat)
    requires i < |line| && AfterOperator(line, i)
    ensures i > 0 && line[i - 1] != '-' && !EndsWithOperator(line[..i - 1])
  {
    LastOfOperator(line, i);
    hide EndsWithOperator, AfterOperator;
    var s := line[..i - 1];
    assert s[|s| - 1] == line[i - 2];
    if EndsWithOperator(s) {
      OperatorEnds(s);
    }
  }
}
