/** The bracket matchers of the style linter: forward from an opening bracket to the one that closes it,
    backward from a closing bracket to the one that opens it, over several lines of text. */
module Brackets {

  /** What scanning one line ends with: a position, a mismatch, or brackets that are still pending. */
  datatype LineResult = Found(pos: nat) | Failed | Pending(stack: seq<char>)

  /** A place in the text: a line and a position in it. */
  datatype Place = At(line: nat, pos: nat) | NotFound

  predicate IsOpen(c: char) {
    c == '(' || c == '[' || c == '{'
  }

  predicate IsClose(c: char) {
    c == ')' || c == ']' || c == '}'
  }

  predicate Matching(open: char, close: char) {
    (open == '(' && close == ')') || (open == '[' && close == ']') || (open == '{' && close == '}')
  }

  predicate IsSpace(c: char) {
    c == ' ' || '\t' <= c <= '\r'
  }

  predicate IsWordChar(c: char) {
    'a' <= c <= 'z' || 'A' <= c <= 'Z' || '0' <= c <= '9' || c == '_'
  }

  /** The regular expression `\boperator\s*$` finds something in `s`. */
  predicate EndsWithOperator(s: string) {
    if s != [] && IsSpace(s[|s| - 1]) then EndsWithOperator(s[..|s| - 1])
    else
      var n := |s| - |"operator"|;
      n >= 0 && s[n..] == "operator" && (n == 0 || !IsWordChar(s[n - 1]))
  }

  function Top(stack: seq<char>): char
    requires stack != []
  {
    stack[|stack| - 1]
  }

  function Pop(stack: seq<char>): seq<char>
    requires stack != []
  {
    stack[..|stack| - 1]
  }

  /** The pending angle brackets on top turned out to be operators. */
  function DropAngles(stack: seq<char>, angle: char): seq<char> {
    if stack != [] && Top(stack) == angle then DropAngles(Pop(stack), angle) else stack
  }

  // ---------------------------------------------------------------- scanning forward

  /** `FindEndOfExpressionInLine` from position `i` on. */
  function EndInLine(line: string, i: nat, stack: seq<char>): LineResult
    requires i <= |line|
    decreases |line| - i
  {
    if i == |line| then Pending(stack)
    else
      var c := line[i];
      if IsOpen(c) then EndInLine(line, i + 1, stack + [c])
      else if c == '<' then
        if i > 0 && line[i - 1] == '<' then
          if stack != [] && Top(stack) == '<' then
            if Pop(stack) == [] then Failed else EndInLine(line, i + 1, Pop(stack))
          else EndInLine(line, i + 1, stack)
        else if i > 0 && EndsWithOperator(line[..i]) then EndInLine(line, i + 1, stack)
        else EndInLine(line, i + 1, stack + ['<'])
      else if IsClose(c) then
        var rest := DropAngles(stack, '<');
        if rest == [] || !Matching(Top(rest), c) then Failed
        else if Pop(rest) == [] then Found(i + 1)
        else EndInLine(line, i + 1, Pop(rest))
      else if c == '>' then
        if i > 0 && (line[i - 1] == '-' || EndsWithOperator(line[..i - 1])) then EndInLine(line, i + 1, stack)
        else if stack != [] && Top(stack) == '<' then
          if Pop(stack) == [] then Found(i + 1) else EndInLine(line, i + 1, Pop(stack))
        else EndInLine(line, i + 1, stack)
      else if c == ';' then
        var rest := DropAngles(stack, '<');
        if rest == [] then Failed else EndInLine(line, i + 1, rest)
      else EndInLine(line, i + 1, stack)
  }

  method PopAngles(stack: seq<char>, angle: char) returns (rest: seq<char>)
    ensures rest == DropAngles(stack, angle)
  {
    rest := stack;
    while rest != [] && Top(rest) == angle
      invariant DropAngles(rest, angle) == DropAngles(stack, angle)
      decreases |rest|
    {
      rest := Pop(rest);
    }
  }

  method FindEndOfExpressionInLine(line: string, startpos: nat, pending: seq<char>) returns (r: LineResult)
    requires startpos <= |line|
    ensures r == EndInLine(line, startpos, pending)
  {
    var stack := pending;
    for i := startpos to |line|
      invariant EndInLine(line, startpos, pending) == EndInLine(line, i, stack)
    {
      var c := line[i];
      if IsOpen(c) {
        stack := stack + [c];
      } else if c == '<' {
        if i > 0 && line[i - 1] == '<' {
          if stack != [] && Top(stack) == '<' {
            stack := Pop(stack);
            if stack == [] {
              return Failed;
            }
          }
        } else if i > 0 && EndsWithOperator(line[..i]) {
          continue;
        } else {
          stack := stack + ['<'];
        }
      } else if IsClose(c) {
        stack := PopAngles(stack, '<');
        if stack == [] {
          return Failed;
        }
        if Matching(Top(stack), c) {
          stack := Pop(stack);
          if stack == [] {
            return Found(i + 1);
          }
        } else {
          return Failed;
        }
      } else if c == '>' {
        if i > 0 && (line[i - 1] == '-' || EndsWithOperator(line[..i - 1])) {
          continue;
        }
        if stack != [] {
          if Top(stack) == '<' {
            stack := Pop(stack);
            if stack == [] {
              return Found(i + 1);
            }
          }
        }
      } else if c == ';' {
        stack := PopAngles(stack, '<');
        if stack == [] {
          return Failed;
        }
      }
    }
    return Pending(stack);
  }

  /** The lines from `l` on, with brackets pending. */
  function CloseFrom(lines: seq<string>, l: nat, stack: seq<char>): Place
    decreases |lines| - l
  {
    if stack == [] || l >= |lines| then NotFound
    else match EndInLine(lines[l], 0, stack)
      case Found(pos) => At(l, pos)
      case Failed => NotFound
      case Pending(rest) => CloseFrom(lines, l + 1, rest)
  }

  /** `<<` and `<=` do not open anything. */
  predicate IsShiftOrLessEqual(s: string) {
    |s| >= 2 && s[0] == '<' && (s[1] == '<' || s[1] == '=')
  }

  /** The place just after the bracket that closes the one at `p`. */
  function Close(lines: seq<string>, l: nat, p: nat): Place
    requires l < |lines| && p < |lines[l]|
  {
    var line := lines[l];
    if !(IsOpen(line[p]) || line[p] == '<') || IsShiftOrLessEqual(line[p..]) then NotFound
    else match EndInLine(line, p, [])
      case Found(pos) => At(l, pos)
      case Failed => NotFound
      case Pending(stack) => CloseFrom(lines, l + 1, stack)
  }

  method CloseExpression(lines: seq<string>, linenum: nat, pos: nat) returns (place: Place)
    requires linenum < |lines| && pos < |lines[linenum]|
    ensures place == Close(lines, linenum, pos)
  {
    var l := linenum;
    var line := lines[l];
    if !(IsOpen(line[pos]) || line[pos] == '<') || IsShiftOrLessEqual(line[pos..]) {
      return NotFound;
    }
    var r := FindEndOfExpressionInLine(line, pos, []);
    if r.Found? {
      return At(l, r.pos);
    }
    while r.Pending? && r.stack != [] && l < |lines| - 1
      invariant l < |lines| && !r.Found?
      invariant Close(lines, linenum, pos) == if r.Pending? then CloseFrom(lines, l + 1, r.stack) else NotFound
      decreases |lines| - l
    {
      l := l + 1;
      line := lines[l];
      r := FindEndOfExpressionInLine(line, 0, r.stack);
      if r.Found? {
        return At(l, r.pos);
      }
    }
    return NotFound;
  }

  // ---------------------------------------------------------------- scanning backward

  /** The regular expression `\s>=\s` matches at the front of `s`. */
  predicate IsSpacedGreaterEqual(s: string) {
    |s| >= 4 && IsSpace(s[0]) && s[1] == '>' && s[2] == '=' && IsSpace(s[3])
  }

  /** `FindStartOfExpressionInLine` from position `i` down. */
  function StartInLine(line: string, i: int, stack: seq<char>): LineResult
    requires i < |line|
    decreases if i >= 0 then i + 1 else 0
  {
    if i < 0 then Pending(stack)
    else
      var c := line[i];
      if IsClose(c) then StartInLine(line, i - 1, stack + [c])
      else if c == '>' then
        if i > 0 && (line[i - 1] == '-' || IsSpacedGreaterEqual(line[i - 1..]) || EndsWithOperator(line[..i])) then
          StartInLine(line, i - 2, stack)
        else StartInLine(line, i - 1, stack + ['>'])
      else if c == '<' then
        if i > 0 && line[i - 1] == '<' then StartInLine(line, i - 2, stack)
        else if stack != [] && Top(stack) == '>' then
          if Pop(stack) == [] then Found(i) else StartInLine(line, i - 1, Pop(stack))
        else StartInLine(line, i - 1, stack)
      else if IsOpen(c) then
        var rest := DropAngles(stack, '>');
        if rest == [] || !Matching(c, Top(rest)) then Failed
        else if Pop(rest) == [] then Found(i)
        else StartInLine(line, i - 1, Pop(rest))
      else if c == ';' then
        var rest := DropAngles(stack, '>');
        if rest == [] then Failed else StartInLine(line, i - 1, rest)
      else StartInLine(line, i - 1, stack)
  }

  method FindStartOfExpressionInLine(line: string, endpos: int, pending: seq<char>) returns (r: LineResult)
    requires endpos < |line|
    ensures r == StartInLine(line, endpos, pending)
  {
    var stack := pending;
    var i := endpos;
    while i >= 0
      invariant i < |line|
      invariant StartInLine(line, endpos, pending) == StartInLine(line, i, stack)
      decreases i + 1
    {
      var c := line[i];
      if IsClose(c) {
        stack := stack + [c];
      } else if c == '>' {
        if i > 0 && (line[i - 1] == '-' || IsSpacedGreaterEqual(line[i - 1..]) || EndsWithOperator(line[..i])) {
          i := i - 1;
        } else {
          stack := stack + ['>'];
        }
      } else if c == '<' {
        if i > 0 && line[i - 1] == '<' {
          i := i - 1;
        } else {
          if stack != [] && Top(stack) == '>' {
            stack := Pop(stack);
            if stack == [] {
              return Found(i);
            }
          }
        }
      } else if IsOpen(c) {
        stack := PopAngles(stack, '>');
        if stack == [] {
          return Failed;
        }
        if Matching(c, Top(stack)) {
          stack := Pop(stack);
          if stack == [] {
            return Found(i);
          }
        } else {
          return Failed;
        }
      } else if c == ';' {
        stack := PopAngles(stack, '>');
        if stack == [] {
          return Failed;
        }
      }
      i := i - 1;
    }
    return Pending(stack);
  }

  /** The lines before `l`, with brackets pending. */
  function OpenFrom(lines: seq<string>, l: nat, stack: seq<char>): Place
    requires l <= |lines|
  {
    if stack == [] || l == 0 then NotFound
    else match StartInLine(lines[l - 1], |lines[l - 1]| - 1, stack)
      case Found(pos) => At(l - 1, pos)
      case Failed => NotFound
      case Pending(rest) => OpenFrom(lines, l - 1, rest)
  }

  /** The place of the bracket that opens the one at `p`. */
  function ReverseClose(lines: seq<string>, l: nat, p: nat): Place
    requires l < |lines| && p < |lines[l]|
  {
    var line := lines[l];
    if !(IsClose(line[p]) || line[p] == '>') then NotFound
    else match StartInLine(line, p, [])
      case Found(pos) => At(l, pos)
      case Failed => NotFound
      case Pending(stack) => OpenFrom(lines, l, stack)
  }

  method ReverseCloseExpression(lines: seq<string>, linenum: nat, pos: nat) returns (place: Place)
    requires linenum < |lines| && pos < |lines[linenum]|
    ensures place == ReverseClose(lines, linenum, pos)
  {
    var l := linenum;
    var line := lines[l];
    if !(IsClose(line[pos]) || line[pos] == '>') {
      return NotFound;
    }
    var r := FindStartOfExpressionInLine(line, pos, []);
    if r.Found? {
      return At(l, r.pos);
    }
    while r.Pending? && r.stack != [] && l > 0
      invariant l < |lines| && !r.Found?
      invariant ReverseClose(lines, linenum, pos) == if r.Pending? then OpenFrom(lines, l, r.stack) else NotFound
      decreases l
    {
      l := l - 1;
      line := lines[l];
      r := FindStartOfExpressionInLine(line, |line| - 1, r.stack);
      if r.Found? {
        return At(l, r.pos);
      }
    }
    return NotFound;
  }
}
