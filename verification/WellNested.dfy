/** Well nested text over four kinds of brackets, angle brackets included, and the two strict ways to find
    a bracket's partner in it: scanning forward with a stack of opened brackets, scanning backward with a
    stack of closed ones. */
module WellNested {
  import opened Brackets
  import opened Sequences

  predicate Opening(c: char) {
    IsOpen(c) || c == '<'
  }

  predicate Closing(c: char) {
    IsClose(c) || c == '>'
  }

  predicate Alike(open: char, close: char) {
    Matching(open, close) || (open == '<' && close == '>')
  }

  // ---------------------------------------------------------------- well nested text

  /** Every bracket of the text is closed by its like, in the right order. */
  ghost predicate Balanced(s: string)
    decreases |s|
  {
    || s == []
    || (!Opening(s[0]) && !Closing(s[0]) && Balanced(s[1..]))
    || (exists k :: 0 < k < |s| && Alike(s[0], s[k]) && Balanced(s[1..k]) && Balanced(s[k + 1..]))
  }

  lemma BalancedNothing(t: string, i: nat)
    requires i <= |t|
    ensures Balanced(t[i..i])
  {
  }

  /** How the well nested stretch from `i` to `j` begins: with some other character, when `k == i`, or with
      a bracket closed at `k`. */
  lemma BalancedCases(t: string, i: nat, j: nat) returns (k: nat)
    requires i < j <= |t| && Balanced(t[i..j])
    ensures i <= k < j
    ensures k == i ==> !Opening(t[i]) && !Closing(t[i]) && Balanced(t[i + 1..j])
    ensures k > i ==> Alike(t[i], t[k]) && Balanced(t[i + 1..k]) && Balanced(t[k + 1..j])
  {
    hide Balanced;
    var s := t[i..j];
    assert s[0] == t[i];
    var n := BalancedHead(s);
    k := i + n;
    if n == 0 {
      SliceOfSlice(t, i, j, 1, j - i);
      assert s[1..j - i] == s[1..];
    } else {
      SliceOfSlice(t, i, j, 1, n);
      SliceOfSlice(t, i, j, n + 1, j - i);
      assert s[n + 1..j - i] == s[n + 1..];
    }
  }

  lemma BalancedHead(s: string) returns (n: nat)
    requires s != [] && Balanced(s)
    ensures n < |s|
    ensures n == 0 ==> !Opening(s[0]) && !Closing(s[0]) && Balanced(s[1..])
    ensures n > 0 ==> Alike(s[0], s[n]) && Balanced(s[1..n]) && Balanced(s[n + 1..])
  {
    if !Opening(s[0]) && !Closing(s[0]) && Balanced(s[1..]) {
      n := 0;
    } else {
      n :| 0 < n < |s| && Alike(s[0], s[n]) && Balanced(s[1..n]) && Balanced(s[n + 1..]);
    }
  }

  lemma BalancedPlain(t: string, i: nat, j: nat)
    requires i < j <= |t| && !Opening(t[i]) && !Closing(t[i]) && Balanced(t[i + 1..j])
    ensures Balanced(t[i..j])
  {
    SliceOfSlice(t, i, j, 1, j - i);
    assert t[i..j][1..j - i] == t[i..j][1..];
  }

  lemma BalancedPair(t: string, i: nat, k: nat, j: nat)
    requires i < k < j <= |t| && Alike(t[i], t[k]) && Balanced(t[i + 1..k]) && Balanced(t[k + 1..j])
    ensures Balanced(t[i..j])
  {
    var s := t[i..j];
    SliceOfSlice(t, i, j, 1, k - i);
    SliceOfSlice(t, i, j, k - i + 1, j - i);
    assert s[k - i + 1..j - i] == s[k - i + 1..];
  }

  lemma {:induction false} BalancedConcat(t: string, i: nat, k: nat, j: nat)
    requires i <= k <= j <= |t| && Balanced(t[i..k]) && Balanced(t[k..j])
    ensures Balanced(t[i..j])
    decreases k - i
  {
    hide Balanced;
    if i < k {
      var n := BalancedCases(t, i, k);
      if n == i {
        BalancedConcat(t, i + 1, k, j);
        BalancedPlain(t, i, j);
      } else {
        BalancedConcat(t, n + 1, k, j);
        BalancedPair(t, i, n, j);
      }
    }
  }

  // ---------------------------------------------------------------- strict scans

  /** Where, from `i` on, the pending brackets are all closed; `|t|` when that does not happen. */
  function FindClose(t: string, i: nat, stack: seq<char>): (q: nat)
    requires i <= |t|
    ensures q <= |t|
    decreases |t| - i
  {
    if i == |t| then |t|
    else if Opening(t[i]) then FindClose(t, i + 1, stack + [t[i]])
    else if Closing(t[i]) then
      if stack == [] || !Alike(Top(stack), t[i]) then |t|
      else if Pop(stack) == [] then i
      else FindClose(t, i + 1, Pop(stack))
    else FindClose(t, i + 1, stack)
  }

  /** Where, below `i`, the pending brackets are all opened, plus one; 0 when that does not happen. */
  function FindOpen(t: string, i: nat, stack: seq<char>): (p: nat)
    requires i <= |t|
    ensures p <= i
  {
    if i == 0 then 0
    else
      var c := t[i - 1];
      if Closing(c) then FindOpen(t, i - 1, stack + [c])
      else if Opening(c) then
        if stack == [] || !Alike(c, Top(stack)) then 0
        else if Pop(stack) == [] then i
        else FindOpen(t, i - 1, Pop(stack))
      else FindOpen(t, i - 1, stack)
  }

  /** Position `q` holds the bracket that closes the one at `p`, with well nested text between. */
  ghost predicate Pair(t: string, p: nat, q: nat) {
    p < q < |t| && Alike(t[p], t[q]) && Balanced(t[p + 1..q])
  }

  lemma PopPush(stack: seq<char>, c: char)
    ensures Pop(stack + [c]) == stack && Top(stack + [c]) == c
  {
  }

  /** Well nested text leaves the pending brackets of a forward scan as they were. */
  lemma {:induction false} ForwardSkips(t: string, i: nat, j: nat, stack: seq<char>)
    requires i <= j <= |t| && stack != [] && Balanced(t[i..j])
    ensures FindClose(t, i, stack) == FindClose(t, j, stack)
    decreases j - i
  {
    hide Balanced;
    if i < j {
      var k := BalancedCases(t, i, j);
      if k == i {
        ForwardSkips(t, i + 1, j, stack);
      } else {
        ForwardSkips(t, i + 1, k, stack + [t[i]]);
        PopPush(stack, t[i]);
        ForwardSkips(t, k + 1, j, stack);
      }
    }
  }

  lemma {:induction false} BackwardSkips(t: string, i: nat, j: nat, stack: seq<char>)
    requires i <= j <= |t| && stack != [] && Balanced(t[i..j])
    ensures FindOpen(t, j, stack) == FindOpen(t, i, stack)
    decreases j - i
  {
    hide Balanced;
    if i < j {
      var k := BalancedCases(t, i, j);
      if k == i {
        BackwardSkips(t, i + 1, j, stack);
      } else {
        BackwardSkips(t, k + 1, j, stack);
        BackwardSkips(t, i + 1, k, stack + [t[k]]);
        PopPush(stack, t[k]);
      }
    }
  }

  /** A forward scan that closes everything first closes the bracket on top, after well nested text. */
  lemma {:induction false} ForwardFindsTop(t: string, i: nat, stack: seq<char>) returns (r: nat)
    requires i <= |t| && stack != [] && FindClose(t, i, stack) < |t|
    ensures i <= r < |t| && Alike(Top(stack), t[r]) && Balanced(t[i..r])
    ensures FindClose(t, i, stack) == if Pop(stack) == [] then r else FindClose(t, r + 1, Pop(stack))
    decreases |t| - i
  {
    hide Balanced;
    if Opening(t[i]) {
      PopPush(stack, t[i]);
      var inner := ForwardFindsTop(t, i + 1, stack + [t[i]]);
      r := ForwardFindsTop(t, inner + 1, stack);
      BalancedPair(t, i, inner, r);
    } else if Closing(t[i]) {
      r := i;
      BalancedNothing(t, i);
    } else {
      r := ForwardFindsTop(t, i + 1, stack);
      BalancedPlain(t, i, r);
    }
  }

  lemma {:induction false} BackwardFindsTop(t: string, i: nat, stack: seq<char>) returns (r: nat)
    requires i <= |t| && stack != [] && FindOpen(t, i, stack) > 0
    ensures r < i && Alike(t[r], Top(stack)) && Balanced(t[r + 1..i])
    ensures FindOpen(t, i, stack) == if Pop(stack) == [] then r + 1 else FindOpen(t, r, Pop(stack))
    decreases i
  {
    hide Balanced;
    var c := t[i - 1];
    BalancedNothing(t, i);
    if Closing(c) {
      PopPush(stack, c);
      var inner := BackwardFindsTop(t, i - 1, stack + [c]);
      r := BackwardFindsTop(t, inner, stack);
      BalancedPair(t, inner, i - 1, i);
      BalancedConcat(t, r + 1, inner, i);
    } else if Opening(c) {
      r := i - 1;
    } else {
      r := BackwardFindsTop(t, i - 1, stack);
      BalancedPlain(t, i - 1, i);
      BalancedConcat(t, r + 1, i - 1, i);
    }
  }

  /** Scanning forward from an opening bracket finds exactly its partner. */
  lemma ForwardPairs(t: string, p: nat, q: nat)
    requires p < |t| && q < |t| && Opening(t[p])
    ensures FindClose(t, p, []) == q <==> Pair(t, p, q)
  {
    hide Balanced;
    assert [] + [t[p]] == [t[p]];
    if FindClose(t, p, []) == q {
      var r := ForwardFindsTop(t, p + 1, [t[p]]);
    }
    if Pair(t, p, q) {
      ForwardSkips(t, p + 1, q, [t[p]]);
    }
  }

  lemma BackwardPairs(t: string, p: nat, q: nat)
    requires p < |t| && q < |t| && Closing(t[q])
    ensures FindOpen(t, q + 1, []) == p + 1 <==> Pair(t, p, q)
  {
    hide Balanced;
    assert [] + [t[q]] == [t[q]];
    if FindOpen(t, q + 1, []) == p + 1 {
      var r := BackwardFindsTop(t, q, [t[q]]);
    }
    if Pair(t, p, q) {
      BackwardSkips(t, p + 1, q, [t[q]]);
    }
  }
}
