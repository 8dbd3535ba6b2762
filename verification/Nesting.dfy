/** The two bracket matchers undo each other on text without angle brackets, and what lies between the
    brackets they pair is well nested. */
module Nesting {
  import opened Brackets
  import opened WellNested

  predicate AngleFree(s: string) {
    forall k :: 0 <= k < |s| ==> s[k] != '<' && s[k] != '>'
  }

  // ---------------------------------------------------------------- lines and the long text

  function Flat(lines: seq<string>): string {
    if lines == [] then [] else lines[0] + Flat(lines[1..])
  }

  /** Where line `l` starts in the long text. */
  function Start(lines: seq<string>, l: nat): nat
    requires l <= |lines|
  {
    if l == 0 then 0 else |lines[0]| + Start(lines[1..], l - 1)
  }

  lemma {:induction false} LineInFlat(lines: seq<string>, l: nat)
    requires l < |lines|
    ensures Start(lines, l) + |lines[l]| == Start(lines, l + 1) <= |Flat(lines)|
    ensures Flat(lines)[Start(lines, l)..Start(lines, l + 1)] == lines[l]
  {
    if l > 0 {
      LineInFlat(lines[1..], l - 1);
      var n := |lines[0]|;
      assert Flat(lines)[n..] == Flat(lines[1..]);
      var a, b := Start(lines[1..], l - 1), Start(lines[1..], l);
      assert Flat(lines)[n + a..n + b] == Flat(lines[1..])[a..b];
    } else {
      assert Start(lines[1..], 0) == 0;
    }
  }

  lemma {:induction false} FlatEnd(lines: seq<string>)
    ensures Start(lines, |lines|) == |Flat(lines)|
  {
    if lines != [] {
      FlatEnd(lines[1..]);
    }
  }

  lemma {:induction false} StartsGrow(lines: seq<string>, l: nat, m: nat)
    requires l < m <= |lines|
    ensures Start(lines, l) + |lines[l]| <= Start(lines, m)
    decreases m
  {
    LineInFlat(lines, m - 1);
    if l < m - 1 {
      StartsGrow(lines, l, m - 1);
    }
  }

  /** A place and its position in the long text determine each other. */
  lemma PositionsDiffer(lines: seq<string>, l: nat, p: nat, l': nat, p': nat)
    requires l < |lines| && p < |lines[l]| && l' < |lines| && p' < |lines[l']|
    requires Start(lines, l) + p == Start(lines, l') + p'
    ensures l == l' && p == p'
  {
    if l < l' {
      StartsGrow(lines, l, l');
      assert false;
    } else if l' < l {
      StartsGrow(lines, l', l);
      assert false;
    }
  }

  lemma CharInFlat(lines: seq<string>, l: nat, i: nat)
    requires l < |lines| && i < |lines[l]|
    ensures Start(lines, l) + i < |Flat(lines)| && Flat(lines)[Start(lines, l) + i] == lines[l][i]
  {
    LineInFlat(lines, l);
    assert Flat(lines)[Start(lines, l)..Start(lines, l + 1)][i] == lines[l][i];
  }

  predicate NoAngles(stack: seq<char>) {
    forall k :: 0 <= k < |stack| ==> stack[k] != '<' && stack[k] != '>'
  }

  /** One line of a forward scan, seen in the long text. */
  lemma {:induction false} EndInLineIsFindClose(lines: seq<string>, l: nat, i: nat, stack: seq<char>)
    requires l < |lines| && i <= |lines[l]| && AngleFree(lines[l]) && NoAngles(stack)
    requires stack != [] || (i < |lines[l]| && IsOpen(lines[l][i]))
    ensures Start(lines, l) + |lines[l]| == Start(lines, l + 1) <= |Flat(lines)|
    ensures var t, at := Flat(lines), Start(lines, l) + i;
            match EndInLine(lines[l], i, stack)
            case Found(e) => 0 < e <= |lines[l]| && FindClose(t, at, stack) == Start(lines, l) + (e - 1)
            case Failed => FindClose(t, at, stack) == |t|
            case Pending(rest) =>
              rest != [] && NoAngles(rest) && FindClose(t, at, stack) == FindClose(t, Start(lines, l + 1), rest)
    decreases |lines[l]| - i
  {
    LineInFlat(lines, l);
    if i < |lines[l]| {
      CharInFlat(lines, l, i);
      var c := lines[l][i];
      if IsOpen(c) {
        EndInLineIsFindClose(lines, l, i + 1, stack + [c]);
      } else if IsClose(c) {
        if Matching(Top(stack), c) && Pop(stack) != [] {
          EndInLineIsFindClose(lines, l, i + 1, Pop(stack));
        }
      } else {
        EndInLineIsFindClose(lines, l, i + 1, stack);
      }
    }
  }

  lemma {:induction false} CloseFromIsFindClose(lines: seq<string>, l: nat, stack: seq<char>)
    requires l <= |lines| && stack != [] && NoAngles(stack) && forall line <- lines :: AngleFree(line)
    ensures Start(lines, l) <= |Flat(lines)|
    ensures var q := FindClose(Flat(lines), Start(lines, l), stack);
            match CloseFrom(lines, l, stack)
            case At(m, e) => m < |lines| && 0 < e <= |lines[m]| && q == Start(lines, m) + (e - 1) < |Flat(lines)|
            case NotFound => q == |Flat(lines)|
    decreases |lines| - l
  {
    FlatEnd(lines);
    if l < |lines| {
      assert lines[l] in lines;
      EndInLineIsFindClose(lines, l, 0, stack);
      var r := EndInLine(lines[l], 0, stack);
      if r.Found? {
        CharInFlat(lines, l, r.pos - 1);
      } else if r.Pending? {
        CloseFromIsFindClose(lines, l + 1, r.stack);
      }
    }
  }

  lemma CloseUnfold(lines: seq<string>, l: nat, p: nat)
    requires l < |lines| && p < |lines[l]| && IsOpen(lines[l][p])
    ensures Close(lines, l, p) ==
            match EndInLine(lines[l], p, [])
            case Found(pos) => At(l, pos)
            case Failed => NotFound
            case Pending(stack) => CloseFrom(lines, l + 1, stack)
  {
  }

  /** The forward matcher, seen in the long text. */
  lemma CloseIsFindClose(lines: seq<string>, l: nat, p: nat)
    requires forall line <- lines :: AngleFree(line)
    requires l < |lines| && p < |lines[l]| && IsOpen(lines[l][p])
    ensures Start(lines, l) + p < |Flat(lines)|
    ensures var q := FindClose(Flat(lines), Start(lines, l) + p, []);
            match Close(lines, l, p)
            case At(m, e) => m < |lines| && 0 < e <= |lines[m]| && q == Start(lines, m) + (e - 1) < |Flat(lines)|
            case NotFound => q == |Flat(lines)|
  {
    hide FindClose, Flat, Start;
    CloseUnfold(lines, l, p);
    assert lines[l] in lines;
    CharInFlat(lines, l, p);
    EndInLineIsFindClose(lines, l, p, []);
    var r := EndInLine(lines[l], p, []);
    if r.Found? {
      CharInFlat(lines, l, r.pos - 1);
    } else if r.Pending? {
      CloseFromIsFindClose(lines, l + 1, r.stack);
    }
  }

  /** One line of a backward scan, seen in the long text. */
  lemma {:induction false} StartInLineIsFindOpen(lines: seq<string>, l: nat, i: int, stack: seq<char>)
    requires l < |lines| && -1 <= i < |lines[l]| && AngleFree(lines[l]) && NoAngles(stack)
    requires stack != [] || (i >= 0 && IsClose(lines[l][i]))
    ensures Start(lines, l) + |lines[l]| <= |Flat(lines)|
    ensures var t, at := Flat(lines), Start(lines, l) + i + 1;
            match StartInLine(lines[l], i, stack)
            case Found(s) => s < |lines[l]| && FindOpen(t, at, stack) == Start(lines, l) + s + 1
            case Failed => FindOpen(t, at, stack) == 0
            case Pending(rest) =>
              rest != [] && NoAngles(rest) && FindOpen(t, at, stack) == FindOpen(t, Start(lines, l), rest)
    decreases i + 1
  {
    LineInFlat(lines, l);
    if i >= 0 {
      CharInFlat(lines, l, i);
      var c := lines[l][i];
      if IsClose(c) {
        StartInLineIsFindOpen(lines, l, i - 1, stack + [c]);
      } else if IsOpen(c) {
        if Matching(c, Top(stack)) && Pop(stack) != [] {
          StartInLineIsFindOpen(lines, l, i - 1, Pop(stack));
        }
      } else {
        StartInLineIsFindOpen(lines, l, i - 1, stack);
      }
    }
  }

  lemma {:induction false} OpenFromIsFindOpen(lines: seq<string>, l: nat, stack: seq<char>)
    requires l <= |lines| && stack != [] && NoAngles(stack) && forall line <- lines :: AngleFree(line)
    ensures Start(lines, l) <= |Flat(lines)|
    ensures var p := FindOpen(Flat(lines), Start(lines, l), stack);
            match OpenFrom(lines, l, stack)
            case At(m, s) => m < |lines| && s < |lines[m]| && p == Start(lines, m) + s + 1
            case NotFound => p == 0
  {
    if l > 0 {
      assert lines[l - 1] in lines;
      LineInFlat(lines, l - 1);
      StartInLineIsFindOpen(lines, l - 1, |lines[l - 1]| - 1, stack);
      var r := StartInLine(lines[l - 1], |lines[l - 1]| - 1, stack);
      if r.Pending? {
        OpenFromIsFindOpen(lines, l - 1, r.stack);
      }
    }
  }

  /** The backward matcher, seen in the long text. */
  lemma ReverseIsFindOpen(lines: seq<string>, l: nat, q: nat)
    requires forall line <- lines :: AngleFree(line)
    requires l < |lines| && q < |lines[l]| && IsClose(lines[l][q])
    ensures Start(lines, l) + q < |Flat(lines)|
    ensures var p := FindOpen(Flat(lines), Start(lines, l) + q + 1, []);
            match ReverseClose(lines, l, q)
            case At(m, s) => m < |lines| && s < |lines[m]| && p == Start(lines, m) + s + 1
            case NotFound => p == 0
  {
    assert lines[l] in lines;
    CharInFlat(lines, l, q);
    StartInLineIsFindOpen(lines, l, q, []);
    var r := StartInLine(lines[l], q, []);
    if r.Pending? {
      OpenFromIsFindOpen(lines, l, r.stack);
    }
  }

  // ---------------------------------------------------------------- the two matchers together

  /** The text strictly between two places. */
  function Between(lines: seq<string>, l: nat, p: nat, m: nat, q: nat): string
    requires l < |lines| && p < |lines[l]| && m < |lines| && q < |lines[m]|
  {
    var a, b := Start(lines, l) + p + 1, Start(lines, m) + q;
    if a <= b <= |Flat(lines)| then Flat(lines)[a..b] else []
  }

  /** Where the long text is closed at a place, the forward matcher says so, and the other way round. */
  lemma CloseAt(lines: seq<string>, l: nat, p: nat, m: nat, q: nat)
    requires forall line <- lines :: AngleFree(line)
    requires l < |lines| && p < |lines[l]| && m < |lines| && q < |lines[m]| && IsOpen(lines[l][p])
    ensures Start(lines, l) + p < |Flat(lines)| && Start(lines, m) + q < |Flat(lines)|
    ensures Close(lines, l, p) == At(m, q + 1) <==>
            FindClose(Flat(lines), Start(lines, l) + p, []) == Start(lines, m) + q
  {
    hide FindClose, Close, Start, Flat;
    CharInFlat(lines, l, p);
    CharInFlat(lines, m, q);
    CloseIsFindClose(lines, l, p);
    var close := Close(lines, l, p);
    if close.At? && Start(lines, close.line) + (close.pos - 1) == Start(lines, m) + q {
      PositionsDiffer(lines, close.line, close.pos - 1, m, q);
    }
  }

  lemma OpenAt(lines: seq<string>, l: nat, p: nat, m: nat, q: nat)
    requires forall line <- lines :: AngleFree(line)
    requires l < |lines| && p < |lines[l]| && m < |lines| && q < |lines[m]| && IsClose(lines[m][q])
    ensures Start(lines, l) + p < |Flat(lines)| && Start(lines, m) + q < |Flat(lines)|
    ensures ReverseClose(lines, m, q) == At(l, p) <==>
              FindOpen(Flat(lines), Start(lines, m) + q + 1, []) == Start(lines, l) + p + 1
  {
    hide FindOpen, ReverseClose, Start, Flat;
    CharInFlat(lines, l, p);
    CharInFlat(lines, m, q);
    ReverseIsFindOpen(lines, m, q);
    var open := ReverseClose(lines, m, q);
    if open.At? && Start(lines, open.line) + open.pos == Start(lines, l) + p {
      PositionsDiffer(lines, open.line, open.pos, l, p);
    }
  }

  /** On any number of lines without angle brackets: closing the bracket at (l, p) ends just after (m, q) if
      and only if reversing from (m, q) returns (l, p), and then the brackets are alike and the text between
      them is well nested. */
  lemma MatchersAreInverse(lines: seq<string>, l: nat, p: nat, m: nat, q: nat)
    requires forall line <- lines :: AngleFree(line)
    requires l < |lines| && p < |lines[l]| && m < |lines| && q < |lines[m]|
    requires IsOpen(lines[l][p]) && IsClose(lines[m][q])
    ensures Close(lines, l, p) == At(m, q + 1) <==> ReverseClose(lines, m, q) == At(l, p)
    ensures Close(lines, l, p) == At(m, q + 1) ==>
              Matching(lines[l][p], lines[m][q]) && Balanced(Between(lines, l, p, m, q))
  {
    var t, a, b := Flat(lines), Start(lines, l) + p, Start(lines, m) + q;
    hide FindClose, FindOpen, Close, ReverseClose, Balanced, Start, Flat;
    CharInFlat(lines, l, p);
    CharInFlat(lines, m, q);
    CloseAt(lines, l, p, m, q);
    OpenAt(lines, l, p, m, q);
    ForwardPairs(t, a, b);
    BackwardPairs(t, a, b);
  }

  /** Conversely the matchers find every pair there is. */
  lemma MatchersFindPairs(lines: seq<string>, l: nat, p: nat, m: nat, q: nat)
    requires forall line <- lines :: AngleFree(line)
    requires l < |lines| && p < |lines[l]| && m < |lines| && q < |lines[m]|
    requires Start(lines, l) + p < Start(lines, m) + q
    requires Matching(lines[l][p], lines[m][q]) && Balanced(Between(lines, l, p, m, q))
    ensures Close(lines, l, p) == At(m, q + 1) && ReverseClose(lines, m, q) == At(l, p)
  {
    hide *;
    PairInFlat(lines, l, p, m, q);
    CloseAt(lines, l, p, m, q);
    ForwardPairs(Flat(lines), Start(lines, l) + p, Start(lines, m) + q);
    MatchersAreInverse(lines, l, p, m, q);
  }

  lemma PairInFlat(lines: seq<string>, l: nat, p: nat, m: nat, q: nat)
    requires l < |lines| && p < |lines[l]| && m < |lines| && q < |lines[m]|
    requires Start(lines, l) + p < Start(lines, m) + q
    requires Matching(lines[l][p], lines[m][q]) && Balanced(Between(lines, l, p, m, q))
    ensures Start(lines, l) + p < Start(lines, m) + q < |Flat(lines)|
    ensures IsOpen(lines[l][p]) && IsClose(lines[m][q]) && Opening(Flat(lines)[Start(lines, l) + p])
    ensures Pair(Flat(lines), Start(lines, l) + p, Start(lines, m) + q)
  {
    hide Balanced, Start, Flat;
    CharInFlat(lines, l, p);
    CharInFlat(lines, m, q);
  }
}
