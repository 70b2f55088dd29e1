// Reading the option keys of a call out of raw source text
// (config/scripts/call-site-option-keys.ts): two scanners share one lexer.
module OptionKeyScanner {
  import opened JavaScriptText
  import opened Wrappers

  datatype ScanState = Code | Line | Block | Single | Double | Template

  // The lexer one character at a time: `Skip` is the second character of a pair.
  datatype Lex = At(state: ScanState) | Skip(state: ScanState)

  predicate ClosesString(state: ScanState, current: char) {
    || (state == Single && current == '\'')
    || (state == Double && current == '"')
    || (state == Template && current == '`')
  }

  function OpensNonCode(current: char, next: char): Option<ScanState> {
    if current == '/' && next == '/' then Some(Line)
    else if current == '/' && next == '*' then Some(Block)
    else if current == '\'' then Some(Single)
    else if current == '"' then Some(Double)
    else if current == '`' then Some(Template)
    else None
  }

  predicate Opening(c: char) { c == '(' || c == '{' || c == '[' }

  predicate Closing(c: char) { c == ')' || c == '}' || c == ']' }

  // The lexer's state after `current`.
  function Step(lex: Lex, current: char, next: char): Lex {
    match lex
    case Skip(state) => At(state)
    case At(state) =>
      match state
      case Code =>
        (match OpensNonCode(current, next)
         case None => At(Code)
         case Some(other) => if other == Line || other == Block then Skip(other) else At(other))
      case Line => if current == '\n' then At(Code) else At(Line)
      case Block => if current == '*' && next == '/' then Skip(Code) else At(Block)
      case _ =>
        if current == '\\' then Skip(state)
        else if ClosesString(state, current) then At(Code)
        else At(state)
  }

  // `current` is code: outside strings and comments, and opening neither.
  predicate IsCode(lex: Lex, current: char, next: char) {
    lex == At(Code) && OpensNonCode(current, next) == None
  }

  predicate IsHole(lex: Lex, current: char, next: char) {
    lex == At(Template) && current == '$' && next == '{'
  }

  function Delta(lex: Lex, current: char, next: char): int {
    if !IsCode(lex, current, next) then 0
    else if Opening(current) then 1
    else if Closing(current) then -1
    else 0
  }

  // The character after the first; none of the comparisons made with it tells the end
  // of the text from a NUL.
  function Next(s: string): char {
    if 1 < |s| then s[1] else '\0'
  }

  // ---------------------------------------------------------------------------
  // balancedArguments

  // Where the bracket opened at the start is closed, from a given state on.
  function ClosingIndex(s: string, lex: Lex, depth: int): (found: Option<nat>)
    ensures found.Some? ==> found.value < |s| && (depth <= 0 ==> 0 < found.value)
  {
    if s == "" || IsHole(lex, s[0], Next(s)) then None
    else
      var d := depth + Delta(lex, s[0], Next(s));
      if d < depth && d <= 0 then if d == 0 then Some(0) else None
      else
        match ClosingIndex(s[1..], Step(lex, s[0], Next(s)), d)
        case None => None
        case Some(i) => Some(i + 1)
  }

  function Shift(n: nat, found: Option<nat>): Option<nat> {
    match found
    case None => None
    case Some(i) => Some(n + i)
  }

  function Suffix(text: string, index: nat): string {
    if index <= |text| then text[index..] else ""
  }

  function Balanced(text: string, openIndex: nat): Option<string> {
    match ClosingIndex(Suffix(text, openIndex), At(Code), 0)
    case None => None
    case Some(i) => Some(text[openIndex + 1..openIndex + i])
  }

  lemma ClosingStep(s: string, lex: Lex, depth: int)
    requires s != ""
    ensures ClosingIndex(s, lex, depth) == (
              var delta := Delta(lex, s[0], Next(s));
              if IsHole(lex, s[0], Next(s)) then None
              else if delta == -1 && depth <= 1 then if depth == 1 then Some(0) else None
              else Shift(1, ClosingIndex(s[1..], Step(lex, s[0], Next(s)), depth + delta)))
    ensures -1 <= Delta(lex, s[0], Next(s)) <= 1
  {
  }

  function NextAt(text: string, index: nat): char {
    if index + 1 < |text| then text[index + 1] else '\0'
  }

  // The closing position is still to be found from `index` on.
  predicate Pending(text: string, openIndex: nat, found: Option<nat>, index: nat, state: ScanState, depth: int) {
    && openIndex <= index
    && found == Shift(index - openIndex, ClosingIndex(Suffix(text, index), At(state), depth))
  }

  // One turn of the loop, which steps over the second character of a pair by itself.
  lemma BalancedTurn(text: string, openIndex: nat, found: Option<nat>, index: nat, state: ScanState, depth: int)
    requires index < |text| && Pending(text, openIndex, found, index, state, depth)
    ensures var delta := Delta(At(state), text[index], NextAt(text, index));
            var lex := Step(At(state), text[index], NextAt(text, index));
            if IsHole(At(state), text[index], NextAt(text, index)) then found == None
            else if delta == -1 && depth == 1 then found == Some(index - openIndex)
            else if delta == -1 && depth < 1 then found == None
            else if lex.At? then Pending(text, openIndex, found, index + 1, lex.state, depth + delta)
            else Pending(text, openIndex, found, index + 2, lex.state, depth)
  {
    hide ClosingIndex, Step, Delta, IsHole;
    var s := text[index..];
    var lex := Step(At(state), text[index], NextAt(text, index));
    assert s[1..] == Suffix(text, index + 1);
    ClosingStep(s, At(state), depth);
    if lex.Skip? {
      PairIsNotABracket(state, text[index], NextAt(text, index));
      SkipStep(s[1..], lex.state, depth);
      assert (if s[1..] == "" then "" else s[1..][1..]) == Suffix(text, index + 2);
    }
  }

  lemma PairIsNotABracket(state: ScanState, current: char, next: char)
    requires Step(At(state), current, next).Skip?
    ensures Delta(At(state), current, next) == 0
  {
  }

  lemma SkipFacts(state: ScanState, current: char, next: char)
    ensures Step(Skip(state), current, next) == At(state) && Delta(Skip(state), current, next) == 0
    ensures !IsHole(Skip(state), current, next)
  {
  }

  lemma NothingCloses(lex: Lex, depth: int)
    ensures ClosingIndex("", lex, depth) == None
  {
  }

  lemma SkipStep(s: string, state: ScanState, depth: int)
    ensures ClosingIndex(s, Skip(state), depth)
         == if s == "" then None else Shift(1, ClosingIndex(s[1..], At(state), depth))
    ensures ClosingIndex("", At(state), depth) == None
  {
    hide *;
    NothingCloses(Skip(state), depth);
    NothingCloses(At(state), depth);
    if s != "" {
      SkipFacts(state, s[0], Next(s));
      ClosingStep(s, Skip(state), depth);
    }
  }

  // The same turn, case by case as the loop distinguishes them.
  lemma BalancedTurnInCode(text: string, openIndex: nat, found: Option<nat>, index: nat, depth: int)
    requires index < |text| && Pending(text, openIndex, found, index, Code, depth)
    ensures var current := text[index];
            var other := OpensNonCode(current, NextAt(text, index));
            if other.Some? then
              Pending(text, openIndex, found,
                      if other.value == Line || other.value == Block then index + 2 else index + 1,
                      other.value, depth)
            else if Opening(current) then Pending(text, openIndex, found, index + 1, Code, depth + 1)
            else if !Closing(current) then Pending(text, openIndex, found, index + 1, Code, depth)
            else if depth == 1 then found == Some(index - openIndex)
            else if depth < 1 then found == None
            else Pending(text, openIndex, found, index + 1, Code, depth - 1)
  {
    BalancedTurn(text, openIndex, found, index, Code, depth);
    hide Pending;
  }

  lemma BalancedTurnOutside(text: string, openIndex: nat, found: Option<nat>, index: nat, state: ScanState, depth: int)
    requires index < |text| && state != Code && Pending(text, openIndex, found, index, state, depth)
    ensures var current, next := text[index], NextAt(text, index);
            if state == Line then
              Pending(text, openIndex, found, index + 1, if current == '\n' then Code else Line, depth)
            else if state == Block then
              if current == '*' && next == '/' then Pending(text, openIndex, found, index + 2, Code, depth)
              else Pending(text, openIndex, found, index + 1, Block, depth)
            else if current == '\\' then Pending(text, openIndex, found, index + 2, state, depth)
            else if state == Template && current == '$' && next == '{' then found == None
            else Pending(text, openIndex, found, index + 1, if ClosesString(state, current) then Code else state, depth)
  {
    BalancedTurn(text, openIndex, found, index, state, depth);
    hide Pending;
  }

  lemma BalancedStart(text: string, openIndex: nat) returns (found: Option<nat>)
    ensures Pending(text, openIndex, found, openIndex, Code, 0)
    ensures found == None ==> Balanced(text, openIndex) == None
    ensures found.Some? ==>
      && 0 < found.value && openIndex + found.value < |text|
      && Balanced(text, openIndex) == Some(text[openIndex + 1..openIndex + found.value])
  {
    found := ClosingIndex(Suffix(text, openIndex), At(Code), 0);
  }

  lemma BalancedEnd(text: string, openIndex: nat, found: Option<nat>, index: nat, state: ScanState, depth: int)
    requires |text| <= index && Pending(text, openIndex, found, index, state, depth)
    ensures found == None
  {
  }

  method BalancedArguments(text: string, openIndex: nat) returns (result: Option<string>)
    ensures result == Balanced(text, openIndex)
  {
    hide *;
    ghost var found := BalancedStart(text, openIndex);
    var depth := 0;
    var state := Code;
    var index := openIndex;
    while index < |text|
      invariant Pending(text, openIndex, found, index, state, depth)
    {
      var current := text[index];
      var next := NextAt(text, index);
      if state == Code {
        BalancedTurnInCode(text, openIndex, found, index, depth);
        var opening := OpensNonCode(current, next);
        if opening.Some? {
          state := opening.value;
          if state == Line || state == Block {
            index := index + 1;
          }
        } else if Opening(current) {
          depth := depth + 1;
        } else if Closing(current) {
          depth := depth - 1;
          if depth == 0 {
            return Some(text[openIndex + 1..index]);
          }
          if depth < 0 {
            return None;
          }
        }
        index := index + 1;
        continue;
      }
      BalancedTurnOutside(text, openIndex, found, index, state, depth);
      if state == Line {
        if current == '\n' {
          state := Code;
        }
        index := index + 1;
        continue;
      }
      if state == Block {
        if current == '*' && next == '/' {
          state := Code;
          index := index + 1;
        }
        index := index + 1;
        continue;
      }
      if current == '\\' {
        index := index + 2;
        continue;
      }
      if state == Template && current == '$' && next == '{' {
        return None;
      }
      if ClosesString(state, current) {
        state := Code;
      }
      index := index + 1;
    }
    BalancedEnd(text, openIndex, found, index, state, depth);
    return None;
  }

  // ---------------------------------------------------------------------------
  // The first closing position, said position by position

  // The lexer's state before position `i`, and the bracket depth counted in code only.
  function LexAt(s: string, i: nat): Lex
    requires i <= |s|
  {
    if i == 0 then At(Code) else Step(LexAt(s, i - 1), s[i - 1], NextAt(s, i - 1))
  }

  function DepthAt(s: string, i: nat): int
    requires i <= |s|
  {
    if i == 0 then 0 else DepthAt(s, i - 1) + Delta(LexAt(s, i - 1), s[i - 1], NextAt(s, i - 1))
  }

  predicate HoleAt(s: string, i: nat)
    requires i < |s|
  {
    IsHole(LexAt(s, i), s[i], NextAt(s, i))
  }

  predicate CloserAt(s: string, i: nat)
    requires i < |s|
  {
    Delta(LexAt(s, i), s[i], NextAt(s, i)) == -1
  }

  // The brackets are open, and no template hole was met, at every position up to `i`.
  ghost predicate OpenBefore(s: string, i: nat)
    requires i <= |s|
  {
    forall k :: 0 <= k < i ==> !HoleAt(s, k) && (CloserAt(s, k) ==> DepthAt(s, k + 1) > 0)
  }

  ghost predicate FirstClosing(s: string, i: nat) {
    0 < i < |s| && CloserAt(s, i) && DepthAt(s, i + 1) == 0 && OpenBefore(s, i)
  }

  lemma {:induction false} ClosingIndexFrom(s: string, i: nat)
    requires i <= |s| && OpenBefore(s, i)
    ensures ClosingIndex(s, At(Code), 0) == Shift(i, ClosingIndex(s[i..], LexAt(s, i), DepthAt(s, i)))
    decreases i
  {
    hide ClosingIndex, Step, Delta, IsHole;
    if i == 0 {
      assert s[0..] == s;
    } else {
      ClosingIndexFrom(s, i - 1);
      assert !HoleAt(s, i - 1) && (CloserAt(s, i - 1) ==> DepthAt(s, i) > 0);
      assert s[i - 1..][1..] == s[i..];
      ClosingStep(s[i - 1..], LexAt(s, i - 1), DepthAt(s, i - 1));
    }
  }

  // The position found is the first at which the depth is back to zero, and none is
  // found exactly when a hole, a negative depth or the end of the text comes first.
  lemma ClosingIndexIsFirst(s: string, i: nat)
    ensures ClosingIndex(s, At(Code), 0) == Some(i) <==> FirstClosing(s, i)
  {
    if FirstClosing(s, i) {
      ClosingIndexFrom(s, i);
    }
    if ClosingIndex(s, At(Code), 0) == Some(i) {
      var k := 0;
      while k < i
        invariant k <= i < |s| && OpenBefore(s, k)
      {
        ClosingIndexFrom(s, k);
        k := k + 1;
      }
      ClosingIndexFrom(s, i);
    }
  }

  lemma BalancedIsFirstClosing(text: string, openIndex: nat, arguments: string)
    requires openIndex <= |text|
    ensures Balanced(text, openIndex) == Some(arguments) <==>
              exists i :: FirstClosing(text[openIndex..], i) && arguments == text[openIndex + 1..openIndex + i]
  {
    var s := text[openIndex..];
    forall i: nat
      ensures ClosingIndex(s, At(Code), 0) == Some(i) <==> FirstClosing(s, i)
    {
      ClosingIndexIsFirst(s, i);
    }
    var found := ClosingIndex(s, At(Code), 0);
    if found.Some? {
      assert FirstClosing(s, found.value);
    }
  }

  // ---------------------------------------------------------------------------
  // objectLiteralKeys

  datatype Keys = Keys(lex: Lex, depth: int, inValue: bool, token: string, keys: seq<string>)

  function Flush(k: Keys): Keys {
    k.(token := "",
       keys := if Trim(k.token) != "" && k.depth == 0 then k.keys + [Trim(k.token)] else k.keys)
  }

  function Collect(k: Keys, current: char): Keys {
    k.(token := Gathered(k, current))
  }

  // The token with a character that belongs to a key.
  function Gathered(k: Keys, current: char): string {
    if k.inValue then k.token else k.token + [current]
  }

  lemma GatheredIs(k: Keys, current: char)
    ensures Gathered(k, current) == if k.inValue then k.token else k.token + [current]
  {
  }

  // What one character does to the scanner.
  function KeyStep(k: Keys, current: char, next: char): Keys {
    var after := k.(lex := Step(k.lex, current, next));
    if !IsCode(k.lex, current, next) then after
    else if Opening(current) then Collect(after.(depth := k.depth + 1), current)
    else if Closing(current) then Collect(after.(depth := k.depth - 1), current)
    else if current == ':' && k.depth == 0 && !k.inValue then Flush(after).(inValue := true)
    else if current == ',' && k.depth == 0 then
      if k.inValue then after.(inValue := false, token := "") else Flush(after)
    else Collect(after, current)
  }

  function KeyRun(s: string, k: Keys): Keys {
    if s == "" then k else KeyRun(s[1..], KeyStep(k, s[0], Next(s)))
  }

  function KeysAtEnd(k: Keys): seq<string> {
    if k.inValue then k.keys else Flush(k).keys
  }

  const START := Keys(At(Code), 0, false, "", [])

  function ObjectLiteralKeys(body: string): seq<string> {
    KeysAtEnd(KeyRun(body, START))
  }

  // The keys are what remains to be collected from `index` on.
  predicate Collecting(body: string, index: nat, k: Keys) {
    ObjectLiteralKeys(body) == KeysAtEnd(KeyRun(Suffix(body, index), k))
  }

  lemma SecondOfPair(s: string, k: Keys, state: ScanState)
    ensures KeysAtEnd(KeyRun(s, k.(lex := Skip(state))))
         == KeysAtEnd(KeyRun(if s == "" then s else s[1..], k.(lex := At(state))))
  {
    if s != "" {
      assert KeyStep(k.(lex := Skip(state)), s[0], Next(s)) == k.(lex := At(state));
    }
  }

  // One turn of the loop, which steps over the second character of a pair by itself.
  lemma KeyTurn(body: string, index: nat, k: Keys)
    requires index < |body| && k.lex.At? && Collecting(body, index, k)
    ensures var after := KeyStep(k, body[index], NextAt(body, index));
            if after.lex.At? then Collecting(body, index + 1, after)
            else Collecting(body, index + 2, k.(lex := At(after.lex.state)))
  {
    var s := body[index..];
    assert s[1..] == Suffix(body, index + 1);
    var after := KeyStep(k, body[index], NextAt(body, index));
    assert KeyRun(s, k) == KeyRun(s[1..], after);
    if after.lex.Skip? {
      assert after == k.(lex := Skip(after.lex.state));
      hide KeyRun, KeyStep, KeysAtEnd, ObjectLiteralKeys;
      SecondOfPair(s[1..], k, after.lex.state);
      assert (if s[1..] == "" then s[1..] else s[1..][1..]) == Suffix(body, index + 2);
    }
  }

  // The same turn, case by case as the loop distinguishes them.
  lemma KeyTurnInCode(body: string, index: nat, k: Keys)
    requires index < |body| && k.lex == At(Code) && Collecting(body, index, k)
    ensures var current := body[index];
            var other := OpensNonCode(current, NextAt(body, index));
            if other.Some? then
              Collecting(body, if other.value == Line || other.value == Block then index + 2 else index + 1,
                         k.(lex := At(other.value)))
            else if Opening(current) then Collecting(body, index + 1, k.(depth := k.depth + 1, token := Gathered(k, current)))
            else if Closing(current) then Collecting(body, index + 1, k.(depth := k.depth - 1, token := Gathered(k, current)))
            else if current == ':' && k.depth == 0 && !k.inValue then
              Collecting(body, index + 1, Flush(k).(inValue := true))
            else if current == ',' && k.depth == 0 then
              Collecting(body, index + 1, if k.inValue then k.(inValue := false, token := "") else Flush(k))
            else Collecting(body, index + 1, k.(token := Gathered(k, current)))
  {
    KeyTurn(body, index, k);
    hide Collecting, Trim;
  }

  lemma KeyTurnOutside(body: string, index: nat, k: Keys)
    requires index < |body| && k.lex.At? && k.lex != At(Code) && Collecting(body, index, k)
    ensures var current, next := body[index], NextAt(body, index);
            var state := k.lex.state;
            if state == Line then
              Collecting(body, index + 1, k.(lex := At(if current == '\n' then Code else Line)))
            else if state == Block then
              if current == '*' && next == '/' then Collecting(body, index + 2, k.(lex := At(Code)))
              else Collecting(body, index + 1, k)
            else if current == '\\' then Collecting(body, index + 2, k)
            else Collecting(body, index + 1, k.(lex := At(if ClosesString(state, current) then Code else state)))
  {
    KeyTurn(body, index, k);
    hide Collecting, Trim;
  }

  lemma KeyEnd(body: string, index: nat, k: Keys)
    requires |body| <= index && Collecting(body, index, k)
    ensures ObjectLiteralKeys(body) == if k.inValue then k.keys else Flush(k).keys
  {
  }

  lemma KeyStart(body: string)
    ensures Collecting(body, 0, Keys(At(Code), 0, false, "", []))
  {
    assert body[0..] == body;
  }

  // The closure that ends a key: pushes the trimmed token if it names something.
  method FlushToken(token: string, depth: int, keys: seq<string>, ghost k: Keys) returns (more: seq<string>)
    requires k.token == token && k.depth == depth && k.keys == keys
    ensures Flush(k) == k.(token := "", keys := more)
  {
    hide Trim;
    var name := Trim(token);
    more := keys;
    if name != "" && depth == 0 {
      more := more + [name];
    }
  }

  method CollectObjectLiteralKeys(body: string) returns (keys: seq<string>)
    ensures keys == ObjectLiteralKeys(body)
  {
    hide *;
    keys := [];
    var depth := 0;
    var state := Code;
    var inValue := false;
    var token := "";
    var index := 0;
    KeyStart(body);
    while index < |body|
      invariant Collecting(body, index, Keys(At(state), depth, inValue, token, keys))
    {
      var current := body[index];
      var next := NextAt(body, index);
      ghost var k := Keys(At(state), depth, inValue, token, keys);
      if state == Code {
        KeyTurnInCode(body, index, k);
        GatheredIs(k, current);
        var opening := OpensNonCode(current, next);
        if opening.Some? {
          state := opening.value;
          if state == Line || state == Block {
            index := index + 1;
          }
        } else if Opening(current) {
          depth := depth + 1;
          if !inValue {
            token := token + [current];
          }
        } else if Closing(current) {
          depth := depth - 1;
          if !inValue {
            token := token + [current];
          }
        } else if current == ':' && depth == 0 && !inValue {
          keys := FlushToken(token, depth, keys, k);
          token := "";
          inValue := true;
        } else if current == ',' && depth == 0 {
          if inValue {
            inValue := false;
          } else {
            keys := FlushToken(token, depth, keys, k);
          }
          token := "";
        } else if !inValue {
          token := token + [current];
        }
        index := index + 1;
        continue;
      }
      KeyTurnOutside(body, index, k);
      if state == Line {
        if current == '\n' {
          state := Code;
        }
        index := index + 1;
        continue;
      }
      if state == Block {
        if current == '*' && next == '/' {
          state := Code;
          index := index + 1;
        }
        index := index + 1;
        continue;
      }
      if current == '\\' {
        index := index + 2;
        continue;
      }
      if ClosesString(state, current) {
        state := Code;
      }
      index := index + 1;
    }
    ghost var last := Keys(At(state), depth, inValue, token, keys);
    KeyEnd(body, index, last);
    if !inValue {
      keys := FlushToken(token, depth, keys, last);
    }
  }

  // ---------------------------------------------------------------------------
  // readCallOptionKeys

  datatype CallOptionKeys =
    | Readable(keys: seq<string>)
    | NeverCloses
    | NoArgument
    | NotAnObjectLiteral
    | UnreadableKey(key: string)

  predicate IdentifierStart(c: char) {
    'a' <= c <= 'z' || 'A' <= c <= 'Z' || c == '_' || c == '$'
  }

  predicate IsIdentifier(name: string) {
    && name != "" && IdentifierStart(name[0])
    && forall k :: 0 <= k < |name| ==> IdentifierStart(name[k]) || '0' <= name[k] <= '9'
  }

  function Judge(keys: seq<string>): CallOptionKeys {
    if forall k <- keys :: IsIdentifier(k) then Readable(keys)
    else UnreadableKey(keys[FirstUnreadable(keys)])
  }

  function FirstUnreadable(keys: seq<string>): (n: nat)
    requires exists k <- keys :: !IsIdentifier(k)
    ensures n < |keys| && !IsIdentifier(keys[n]) && forall k :: 0 <= k < n ==> IsIdentifier(keys[k])
  {
    if !IsIdentifier(keys[0]) then 0 else FirstUnreadable(keys[1..]) + 1
  }

  function ReadCallOptionKeys(text: string, parenIndex: nat): CallOptionKeys {
    match Balanced(text, parenIndex)
    case None => NeverCloses
    case Some(arguments) =>
      var trimmed := Trim(arguments);
      if trimmed == "" then NoArgument
      else if trimmed[0] != '{' || trimmed[|trimmed| - 1] != '}' then NotAnObjectLiteral
      else Judge(ObjectLiteralKeys(trimmed[1..|trimmed| - 1]))
  }

  // ---------------------------------------------------------------------------
  // Exact key recovery

  // Lexically closed text: from the given state on, strings, comments and brackets all
  // end, no template hole opens, and no comma - in a key, no colon either - is at the top.
  predicate Closed(s: string, lex: Lex, depth: int, key: bool) {
    if s == "" then lex == At(Code) && depth == 0
    else
      var d := depth + Delta(lex, s[0], Next(s));
      && !IsHole(lex, s[0], Next(s)) && 0 <= d
      && !(IsCode(lex, s[0], Next(s)) && depth == 0 && (s[0] == ',' || (key && s[0] == ':')))
      && Closed(s[1..], Step(lex, s[0], Next(s)), d, key)
  }

  // The code of a text, without its strings and comments.
  function CodeText(s: string, lex: Lex): string {
    if s == "" then ""
    else (if IsCode(lex, s[0], Next(s)) then [s[0]] else "") + CodeText(s[1..], Step(lex, s[0], Next(s)))
  }

  // One property of an object literal as written: a key, shorthand or with a value.
  datatype Property = Property(key: string, value: Option<string>)

  predicate WellFormed(p: Property) {
    Closed(p.key, At(Code), 0, true) && (p.value.Some? ==> Closed(p.value.value, At(Code), 0, false))
  }

  function PropertyText(p: Property): string {
    p.key + (if p.value.Some? then ":" + p.value.value else "")
  }

  function Body(properties: seq<Property>): string {
    if properties == [] then ""
    else if |properties| == 1 then PropertyText(properties[0])
    else PropertyText(properties[0]) + "," + Body(properties[1..])
  }

  // What a property is called: its code with the blanks around it removed.  A quoted key
  // has no code, and so no name.
  function Name(p: Property): string {
    Trim(CodeText(p.key, At(Code)))
  }

  function NameOf(p: Property): seq<string> {
    if Name(p) != "" then [Name(p)] else []
  }

  function Names(properties: seq<Property>): seq<string> {
    if properties == [] then [] else NameOf(properties[0]) + Names(properties[1..])
  }

  // Text that ends a lexically closed text without joining its last character.
  predicate Separates(rest: string) {
    rest == "" || (rest[0] != '/' && rest[0] != '*' && rest[0] != '{')
  }

  lemma NextUnaffected(s: string, rest: string, lex: Lex)
    requires s != "" && Separates(rest)
    ensures var near, far := Next(s), Next(s + rest);
            && Step(lex, s[0], near) == Step(lex, s[0], far)
            && IsCode(lex, s[0], near) == IsCode(lex, s[0], far)
            && IsHole(lex, s[0], near) == IsHole(lex, s[0], far)
            && Delta(lex, s[0], near) == Delta(lex, s[0], far)
  {
  }

  function AfterText(s: string, k: Keys): Keys {
    k.(lex := At(Code), depth := 0, token := if k.inValue then k.token else k.token + CodeText(s, k.lex))
  }

  // What a character of lexically closed text does to the scanner: no colon and no comma
  // at the top takes part.
  function PlainStep(k: Keys, current: char, next: char): Keys {
    var after := k.(lex := Step(k.lex, current, next), depth := k.depth + Delta(k.lex, current, next));
    if IsCode(k.lex, current, next) then Collect(after, current) else after
  }

  lemma StepIsPlain(k: Keys, current: char, next: char)
    requires IsCode(k.lex, current, next) && k.depth == 0 ==> current != ',' && (k.inValue || current != ':')
    ensures KeyStep(k, current, next) == PlainStep(k, current, next)
  {
    hide Step, IsCode, Flush;
  }

  lemma PlainStepShape(k: Keys, current: char, next: char)
    ensures var after := PlainStep(k, current, next);
            && after.lex == Step(k.lex, current, next)
            && after.depth == k.depth + Delta(k.lex, current, next)
            && after.inValue == k.inValue
  {
    hide Step, IsCode, Delta;
  }

  lemma ClosedUnfolds(s: string, lex: Lex, depth: int, key: bool)
    requires s != "" && Closed(s, lex, depth, key)
    ensures IsCode(lex, s[0], Next(s)) && depth == 0 ==> s[0] != ',' && (!key || s[0] != ':')
    ensures Closed(s[1..], Step(lex, s[0], Next(s)), depth + Delta(lex, s[0], Next(s)), key)
  {
    hide Step, IsCode, Delta, IsHole;
  }

  lemma ClosedStep(s: string, k: Keys)
    requires s != "" && Closed(s, k.lex, k.depth, !k.inValue)
    ensures KeyStep(k, s[0], Next(s)) == PlainStep(k, s[0], Next(s))
    ensures var after := PlainStep(k, s[0], Next(s)); Closed(s[1..], after.lex, after.depth, !after.inValue)
  {
    hide *;
    ClosedUnfolds(s, k.lex, k.depth, !k.inValue);
    StepIsPlain(k, s[0], Next(s));
    PlainStepShape(k, s[0], Next(s));
  }

  lemma AfterTextStep(s: string, k: Keys)
    requires s != ""
    ensures AfterText(s[1..], PlainStep(k, s[0], Next(s))) == AfterText(s, k)
  {
    hide Step, IsCode;
    if !k.inValue {
      var rest := CodeText(s[1..], Step(k.lex, s[0], Next(s)));
      if IsCode(k.lex, s[0], Next(s)) {
        assert k.token + [s[0]] + rest == k.token + ([s[0]] + rest);
      } else {
        assert "" + rest == rest;
      }
    }
  }

  lemma PlainStepUnaffected(s: string, rest: string, k: Keys)
    requires s != "" && Separates(rest)
    ensures KeyStep(k, s[0], Next(s + rest)) == KeyStep(k, s[0], Next(s))
  {
    NextUnaffected(s, rest, k.lex);
    hide Step, IsCode, Flush;
  }

  lemma KeyRunStep(s: string, rest: string, k: Keys)
    requires s != ""
    ensures KeyRun(s + rest, k) == KeyRun(s[1..] + rest, KeyStep(k, s[0], Next(s + rest)))
  {
    assert (s + rest)[0] == s[0] && (s + rest)[1..] == s[1..] + rest;
  }

  lemma {:induction false} KeysOverClosed(s: string, rest: string, k: Keys)
    requires Closed(s, k.lex, k.depth, !k.inValue) && Separates(rest)
    ensures KeyRun(s + rest, k) == KeyRun(rest, AfterText(s, k))
  {
    if s == "" {
      assert s + rest == rest && k.token + "" == k.token;
    } else {
      hide *;
      ClosedStep(s, k);
      AfterTextStep(s, k);
      PlainStepUnaffected(s, rest, k);
      KeyRunStep(s, rest, k);
      KeysOverClosed(s[1..], rest, PlainStep(k, s[0], Next(s)));
    }
  }

  lemma {:induction false} ClosingOverClosed(s: string, rest: string, lex: Lex, depth: int, outer: int, key: bool)
    requires Closed(s, lex, depth, key) && Separates(rest) && 0 < outer
    ensures ClosingIndex(s + rest, lex, outer + depth) == Shift(|s|, ClosingIndex(rest, At(Code), outer))
    decreases |s|
  {
    hide ClosingIndex, Step, IsCode, IsHole;
    if s == "" {
      assert s + rest == rest;
    } else {
      NextUnaffected(s, rest, lex);
      assert (s + rest)[0] == s[0] && (s + rest)[1..] == s[1..] + rest;
      ClosingStep(s + rest, lex, outer + depth);
      ClosingOverClosed(s[1..], rest, Step(lex, s[0], Next(s)), depth + Delta(lex, s[0], Next(s)), outer, key);
    }
  }

  function Fresh(keys: seq<string>): Keys {
    Keys(At(Code), 0, false, "", keys)
  }

  // The scanner just after a property that starts a fresh key.
  function AfterProperty(p: Property, keys: seq<string>): Keys {
    if p.value.Some? then Fresh(keys + NameOf(p)).(inValue := true)
    else Fresh(keys).(token := CodeText(p.key, At(Code)))
  }

  lemma FlushName(p: Property, keys: seq<string>)
    ensures Flush(Fresh(keys).(token := CodeText(p.key, At(Code)))) == Fresh(keys + NameOf(p))
  {
    hide Trim, CodeText;
    assert keys + [] == keys;
  }

  lemma KeysOverColon(k: Keys, rest: string)
    requires k.lex == At(Code) && k.depth == 0 && !k.inValue
    ensures KeyRun(":" + rest, k) == KeyRun(rest, Flush(k).(inValue := true))
  {
    assert (":" + rest)[1..] == rest;
    assert KeyStep(k, ':', Next(":" + rest)) == Flush(k).(inValue := true);
  }

  lemma KeysOverComma(k: Keys, rest: string)
    requires k.lex == At(Code) && k.depth == 0
    ensures KeyRun("," + rest, k) == KeyRun(rest, if k.inValue then k.(inValue := false, token := "") else Flush(k))
  {
    assert ("," + rest)[1..] == rest;
  }

  lemma PropertyKeys(p: Property, rest: string, keys: seq<string>)
    requires WellFormed(p) && Separates(rest)
    ensures KeyRun(PropertyText(p) + rest, Fresh(keys)) == KeyRun(rest, AfterProperty(p, keys))
  {
    hide KeyRun, Closed, CodeText, Flush;
    assert "" + CodeText(p.key, At(Code)) == CodeText(p.key, At(Code));
    var named := Fresh(keys).(token := CodeText(p.key, At(Code)));
    if p.value.None? {
      assert PropertyText(p) + rest == p.key + rest;
      KeysOverClosed(p.key, rest, Fresh(keys));
    } else {
      var follow := p.value.value + rest;
      assert PropertyText(p) + rest == p.key + (":" + follow);
      KeysOverClosed(p.key, ":" + follow, Fresh(keys));
      KeysOverColon(named, follow);
      FlushName(p, keys);
      KeysOverClosed(p.value.value, rest, AfterProperty(p, keys));
    }
  }

  lemma PropertyEnds(p: Property, keys: seq<string>, rest: string)
    ensures KeysAtEnd(AfterProperty(p, keys)) == keys + NameOf(p)
    ensures KeyRun("," + rest, AfterProperty(p, keys)) == KeyRun(rest, Fresh(keys + NameOf(p)))
  {
    hide KeyRun, CodeText, Flush, NameOf;
    FlushName(p, keys);
    KeysOverComma(AfterProperty(p, keys), rest);
  }

  lemma BodyUnfolds(properties: seq<Property>)
    requires properties != []
    ensures Names(properties) == NameOf(properties[0]) + Names(properties[1..])
    ensures Body(properties) == PropertyText(properties[0])
                              + (if |properties| == 1 then "" else "," + Body(properties[1..]))
  {
    if |properties| == 1 {
      assert PropertyText(properties[0]) + "" == PropertyText(properties[0]);
    }
  }

  lemma BodyKeysOfFew(properties: seq<Property>, keys: seq<string>)
    requires |properties| <= 1 && forall k :: 0 <= k < |properties| ==> WellFormed(properties[k])
    ensures KeysAtEnd(KeyRun(Body(properties), Fresh(keys))) == keys + Names(properties)
  {
    if properties == [] {
      assert keys + [] == keys;
    } else {
      var p := properties[0];
      assert Names(properties[1..]) == [] && NameOf(p) + [] == NameOf(p);
      assert KeyRun("", AfterProperty(p, keys)) == AfterProperty(p, keys);
      hide KeyRun, Names, Body, KeysAtEnd, PropertyText, AfterProperty, WellFormed, NameOf;
      BodyUnfolds(properties);
      PropertyKeys(p, "", keys);
      PropertyEnds(p, keys, "");
    }
  }

  lemma {:induction false} BodyKeys(properties: seq<Property>, keys: seq<string>)
    requires forall k :: 0 <= k < |properties| ==> WellFormed(properties[k])
    ensures KeysAtEnd(KeyRun(Body(properties), Fresh(keys))) == keys + Names(properties)
    decreases |properties|
  {
    hide *;
    if |properties| <= 1 {
      BodyKeysOfFew(properties, keys);
    } else {
      var p, tail := properties[0], properties[1..];
      BodyUnfolds(properties);
      CommaSeparates(Body(tail));
      PropertyKeys(p, "," + Body(tail), keys);
      PropertyEnds(p, keys, Body(tail));
      BodyKeys(tail, keys + NameOf(p));
      assert keys + NameOf(p) + Names(tail) == keys + (NameOf(p) + Names(tail));
    }
  }

  lemma CommaSeparates(s: string)
    ensures Separates("," + s)
  {
  }

  // Reading `s` takes the search for the closing bracket from depth `from` to `to`.
  predicate Passes(s: string, rest: string, from: int, to: int) {
    ClosingIndex(s + rest, At(Code), from) == Shift(|s|, ClosingIndex(rest, At(Code), to))
  }

  lemma PassesBoth(a: string, b: string, rest: string, from: int, middle: int, to: int)
    requires Passes(a, b + rest, from, middle) && Passes(b, rest, middle, to)
    ensures Passes(a + b, rest, from, to)
  {
    hide ClosingIndex;
    assert a + b + rest == a + (b + rest);
  }

  lemma PassesChar(c: char, rest: string, depth: int)
    requires c != '/' && c != '\'' && c != '"' && c != '`' && !Opening(c) && !Closing(c) && 0 < depth
    ensures Passes([c], rest, depth, depth)
  {
    assert ([c] + rest)[1..] == rest;
  }

  lemma PassesBracket(c: char, rest: string, depth: int)
    ensures Opening(c) && 0 <= depth ==> Passes([c], rest, depth, depth + 1)
    ensures Closing(c) && 1 < depth ==> Passes([c], rest, depth, depth - 1)
  {
    assert ([c] + rest)[1..] == rest;
  }

  predicate Blank(s: string) {
    forall k :: 0 <= k < |s| ==> IsSpace(s[k])
  }

  lemma {:induction false} PassesBlanks(s: string, rest: string, depth: int)
    requires Blank(s) && 0 < depth
    ensures Passes(s, rest, depth, depth)
    decreases |s|
  {
    if s == "" {
      assert s + rest == rest;
    } else {
      hide Passes;
      PassesChar(s[0], s[1..] + rest, depth);
      PassesBlanks(s[1..], rest, depth);
      PassesBoth([s[0]], s[1..], rest, depth, depth, depth);
      assert [s[0]] + s[1..] == s;
    }
  }

  lemma PassesClosed(s: string, rest: string, outer: int, key: bool)
    requires Closed(s, At(Code), 0, key) && Separates(rest) && 0 < outer
    ensures Passes(s, rest, outer, outer)
  {
    ClosingOverClosed(s, rest, At(Code), 0, outer, key);
  }

  lemma PassesProperty(p: Property, rest: string, outer: int)
    requires WellFormed(p) && Separates(rest) && 0 < outer
    ensures Passes(PropertyText(p), rest, outer, outer)
  {
    hide Passes, Closed;
    if p.value.None? {
      assert PropertyText(p) == p.key;
      PassesClosed(p.key, rest, outer, true);
    } else {
      var value := p.value.value;
      PassesClosed(value, rest, outer, false);
      PassesChar(':', value + rest, outer);
      PassesBoth(":", value, rest, outer, outer, outer);
      assert ":" + value + rest == ":" + (value + rest);
      PassesClosed(p.key, ":" + value + rest, outer, true);
      PassesBoth(p.key, ":" + value, rest, outer, outer, outer);
    }
  }

  lemma PassesNothing(rest: string, outer: int)
    ensures Passes(Body([]), rest, outer, outer)
  {
    hide ClosingIndex;
    assert "" + rest == rest;
  }

  lemma {:induction false} PassesBody(properties: seq<Property>, rest: string, outer: int)
    requires forall k :: 0 <= k < |properties| ==> WellFormed(properties[k])
    requires Separates(rest) && 0 < outer
    ensures Passes(Body(properties), rest, outer, outer)
    decreases |properties|
  {
    hide *;
    if properties == [] {
      PassesNothing(rest, outer);
    } else {
      BodyUnfolds(properties);
      var first := PropertyText(properties[0]);
      if |properties| == 1 {
        PassesProperty(properties[0], rest, outer);
        assert first + "" == first;
      } else {
        var tail := Body(properties[1..]);
        PassesBody(properties[1..], rest, outer);
        CommaIsPlain();
        PassesChar(',', tail + rest, outer);
        PassesBoth(",", tail, rest, outer, outer, outer);
        assert "," + tail + rest == "," + (tail + rest);
        CommaSeparates(tail + rest);
        PassesProperty(properties[0], "," + tail + rest, outer);
        PassesBoth(first, "," + tail, rest, outer, outer, outer);
      }
    }
  }

  lemma CommaIsPlain()
    ensures !Opening(',') && !Closing(',')
  {
  }

  // An object literal as the only argument of a call, blanks around it.
  function Literal(properties: seq<Property>): string {
    "{" + Body(properties) + "}"
  }

  function CallText(lead: string, properties: seq<Property>, trail: string): string {
    "(" + (lead + Literal(properties) + trail) + ")"
  }

  lemma PassesLiteral(properties: seq<Property>, rest: string)
    requires forall k :: 0 <= k < |properties| ==> WellFormed(properties[k])
    ensures Passes(Literal(properties), rest, 1, 1)
  {
    hide Passes, WellFormed, Body;
    var body := Body(properties);
    PassesBracket('}', rest, 2);
    assert Separates("}" + rest);
    PassesBody(properties, "}" + rest, 2);
    PassesBoth(body, "}", rest, 2, 2, 1);
    PassesBracket('{', body + "}" + rest, 1);
    PassesBoth("{", body + "}", rest, 1, 2, 1);
    assert "{" + (body + "}") == Literal(properties);
  }

  lemma OpeningParenthesis()
    ensures Opening('(')
  {
  }

  lemma CloserCloses(rest: string)
    requires rest != "" && rest[0] == ')'
    ensures ClosingIndex(rest, At(Code), 1) == Some(0)
  {
  }

  lemma ClosesNow(s: string, rest: string)
    requires rest != "" && rest[0] == ')' && Passes(s, rest, 0, 1)
    ensures ClosingIndex(s + rest, At(Code), 0) == Some(|s|)
  {
    hide ClosingIndex;
    CloserCloses(rest);
  }

  lemma PassesArguments(lead: string, properties: seq<Property>, trail: string, rest: string)
    requires Blank(lead) && Blank(trail) && forall k :: 0 <= k < |properties| ==> WellFormed(properties[k])
    ensures Passes(lead + Literal(properties) + trail, rest, 1, 1)
  {
    hide *;
    var literal := Literal(properties);
    PassesBlanks(trail, rest, 1);
    PassesLiteral(properties, trail + rest);
    PassesBoth(literal, trail, rest, 1, 1, 1);
    PassesBlanks(lead, literal + trail + rest, 1);
    PassesBoth(lead, literal + trail, rest, 1, 1, 1);
    assert lead + (literal + trail) == lead + literal + trail;
  }

  lemma CallCloses(lead: string, properties: seq<Property>, trail: string, after: string)
    requires Blank(lead) && Blank(trail) && forall k :: 0 <= k < |properties| ==> WellFormed(properties[k])
    ensures ClosingIndex(CallText(lead, properties, trail) + after, At(Code), 0)
         == Some(|CallText(lead, properties, trail)| - 1)
  {
    var rest := ")" + after;
    var arguments := lead + Literal(properties) + trail;
    assert CallText(lead, properties, trail) == "(" + arguments + ")";
    hide *;
    PassesArguments(lead, properties, trail, rest);
    OpeningParenthesis();
    PassesBracket('(', arguments + rest, 0);
    PassesBoth("(", arguments, rest, 0, 1, 1);
    ClosesNow("(" + arguments, rest);
    assert CallText(lead, properties, trail) + after == "(" + arguments + rest;
  }

  lemma {:induction false} TrimStartBlanks(blanks: string, s: string)
    requires Blank(blanks) && s != "" && !IsSpace(s[0])
    ensures TrimStart(blanks + s) == s
  {
    if blanks == "" {
      assert blanks + s == s;
    } else {
      assert (blanks + s)[1..] == blanks[1..] + s;
      TrimStartBlanks(blanks[1..], s);
    }
  }

  lemma {:induction false} TrimEndBlanks(s: string, blanks: string)
    requires Blank(blanks) && s != "" && !IsSpace(s[|s| - 1])
    ensures TrimEnd(s + blanks) == s
    decreases |blanks|
  {
    if blanks == "" {
      assert s + blanks == s;
    } else {
      var t := s + blanks;
      assert t[..|t| - 1] == s + blanks[..|blanks| - 1];
      TrimEndBlanks(s, blanks[..|blanks| - 1]);
    }
  }

  lemma TrimBlanks(lead: string, s: string, trail: string)
    requires Blank(lead) && Blank(trail) && s != "" && !IsSpace(s[0]) && !IsSpace(s[|s| - 1])
    ensures Trim(lead + s + trail) == s
  {
    assert lead + s + trail == lead + (s + trail);
    TrimStartBlanks(lead, s + trail);
    TrimEndBlanks(s, trail);
  }

  lemma CallArguments(before: string, lead: string, properties: seq<Property>, trail: string, after: string)
    requires Blank(lead) && Blank(trail) && forall k :: 0 <= k < |properties| ==> WellFormed(properties[k])
    ensures Balanced(before + CallText(lead, properties, trail) + after, |before|)
         == Some(lead + Literal(properties) + trail)
  {
    CallCloses(lead, properties, trail, after);
    hide WellFormed, Blank, Literal, ClosingIndex;
    var call := CallText(lead, properties, trail);
    var text := before + call + after;
    assert text[|before|..] == call + after;
    assert text[|before| + 1..|before| + (|call| - 1)] == lead + Literal(properties) + trail;
  }

  // Whatever strings, comments and nested brackets keys and values hold, the names of a
  // one-object call are read exactly, in order: they are returned when each of them is
  // an identifier, and otherwise the call is reported as unreadable.
  lemma {:induction false} ReadsExactlyTheNames(before: string, lead: string, properties: seq<Property>,
                                                trail: string, after: string)
    requires Blank(lead) && Blank(trail) && forall k :: 0 <= k < |properties| ==> WellFormed(properties[k])
    ensures ReadCallOptionKeys(before + CallText(lead, properties, trail) + after, |before|)
         == Judge(Names(properties))
  {
    var literal := Literal(properties);
    CallArguments(before, lead, properties, trail, after);
    assert literal[0] == '{' && literal[|literal| - 1] == '}';
    assert literal[1..|literal| - 1] == Body(properties);
    TrimBlanks(lead, literal, trail);
    BodyKeys(properties, []);
    assert [] + Names(properties) == Names(properties);
    hide Judge, WellFormed, Blank, Balanced, Trim, Names, KeyRun, Body, Literal;
  }

  lemma {:induction false} NamesMembers(properties: seq<Property>, name: string)
    ensures name in Names(properties) <==> name != "" && exists i :: 0 <= i < |properties| && Name(properties[i]) == name
  {
    hide Name;
    if properties != [] {
      NamesMembers(properties[1..], name);
      assert name in Names(properties) <==> name in NameOf(properties[0]) || name in Names(properties[1..]);
      if exists i :: 0 <= i < |properties[1..]| && Name(properties[1..][i]) == name {
        var i :| 0 <= i < |properties[1..]| && Name(properties[1..][i]) == name;
        assert properties[i + 1] == properties[1..][i];
      }
      if exists i :: 0 < i < |properties| && Name(properties[i]) == name {
        var i :| 0 < i < |properties| && Name(properties[i]) == name;
        assert properties[1..][i - 1] == properties[i];
      }
    }
  }

  // Some character of the text is neither blank nor part of a comment.
  predicate HasContent(s: string, lex: Lex) {
    s != ""
    && (IsContent(lex, s[0], Next(s)) || HasContent(s[1..], Step(lex, s[0], Next(s))))
  }

  predicate IsContent(lex: Lex, current: char, next: char) {
    var state := lex.state;
    if lex == At(Code) then
      match OpensNonCode(current, next)
      case None => !IsSpace(current)
      case Some(other) => other != Line && other != Block
    else state != Code && state != Line && state != Block
  }

  // A property stands for a key of the object: it is more than the gap that a trailing
  // comma leaves behind.
  predicate CarriesKey(p: Property) {
    HasContent(p.key, At(Code))
  }

  function KeyCount(properties: seq<Property>): nat {
    if properties == [] then 0 else (if CarriesKey(properties[0]) then 1 else 0) + KeyCount(properties[1..])
  }

  lemma {:induction false} TrimOfBlank(s: string)
    requires forall k :: 0 <= k < |s| ==> IsSpace(s[k])
    ensures Trim(s) == ""
  {
    TrimStartOfBlank(s);
  }

  lemma {:induction false} TrimStartOfBlank(s: string)
    requires forall k :: 0 <= k < |s| ==> IsSpace(s[k])
    ensures TrimStart(s) == ""
  {
    if s != "" {
      TrimStartOfBlank(s[1..]);
    }
  }

  lemma CodeIsContent(lex: Lex, current: char, next: char)
    requires IsCode(lex, current, next) && !IsSpace(current)
    ensures IsContent(lex, current, next)
  {
  }

  lemma {:induction false} NoContentIsBlankCode(s: string, lex: Lex)
    requires !HasContent(s, lex)
    ensures forall k :: 0 <= k < |CodeText(s, lex)| ==> IsSpace(CodeText(s, lex)[k])
  {
    hide IsCode, IsContent, Step, IsSpace;
    if s != "" {
      NoContentIsBlankCode(s[1..], Step(lex, s[0], Next(s)));
      if IsCode(lex, s[0], Next(s)) && !IsSpace(s[0]) {
        CodeIsContent(lex, s[0], Next(s));
      }
    }
  }

  // What has a name stands for a key.
  lemma NamedCarriesKey(p: Property)
    ensures Name(p) != "" ==> CarriesKey(p)
  {
    if !CarriesKey(p) {
      NoContentIsBlankCode(p.key, At(Code));
      TrimOfBlank(CodeText(p.key, At(Code)));
    }
  }

  lemma {:induction false} NamesLength(properties: seq<Property>)
    ensures |Names(properties)| <= KeyCount(properties)
    ensures |Names(properties)| < KeyCount(properties)
       <==> exists i :: 0 <= i < |properties| && CarriesKey(properties[i]) && Name(properties[i]) == ""
  {
    hide Name, CarriesKey;
    if properties != [] {
      NamedCarriesKey(properties[0]);
      NamesLength(properties[1..]);
      assert forall i :: 0 < i < |properties| ==> properties[i] == properties[1..][i - 1];
      assert forall i :: 0 <= i < |properties[1..]| ==> properties[1..][i] == properties[i + 1];
    }
  }

  lemma NamesAreIdentifiers(properties: seq<Property>)
    ensures (forall name <- Names(properties) :: IsIdentifier(name))
       <==> forall i :: 0 <= i < |properties| ==> Name(properties[i]) == "" || IsIdentifier(Name(properties[i]))
  {
    hide Name, Names, IsIdentifier;
    forall i | 0 <= i < |properties|
      ensures Name(properties[i]) != "" ==> Name(properties[i]) in Names(properties)
    {
      NamesMembers(properties, Name(properties[i]));
    }
    forall name | name in Names(properties)
      ensures exists i :: 0 <= i < |properties| && Name(properties[i]) == name && name != ""
    {
      NamesMembers(properties, name);
    }
  }

  // Readable when all keys are identifiers, and otherwise the first that is none is named.
  lemma JudgedExactly(keys: seq<string>, n: nat)
    ensures Judge(keys) == Readable(keys) <==> forall k :: 0 <= k < |keys| ==> IsIdentifier(keys[k])
    ensures n < |keys| && !IsIdentifier(keys[n]) && (forall k :: 0 <= k < n ==> IsIdentifier(keys[k])) ==>
      Judge(keys) == UnreadableKey(keys[n])
  {
    hide IsIdentifier;
    assert forall k :: 0 <= k < |keys| ==> keys[k] in keys;
  }

  // What the text between the parentheses leads to.
  function Verdict(core: string): CallOptionKeys {
    if core == "" then NoArgument
    else if core[0] != '{' || core[|core| - 1] != '}' then NotAnObjectLiteral
    else Judge(ObjectLiteralKeys(core[1..|core| - 1]))
  }

  lemma VerdictOf(text: string, parenIndex: nat)
    ensures ReadCallOptionKeys(text, parenIndex) == match Balanced(text, parenIndex)
                                                    case None => NeverCloses
                                                    case Some(arguments) => Verdict(Trim(arguments))
    ensures ReadCallOptionKeys(text, parenIndex) == NeverCloses <==> Balanced(text, parenIndex) == None
  {
    hide Trim, ObjectLiteralKeys, Balanced;
  }

  lemma BalancedAt(text: string, openIndex: nat, i: nat)
    requires openIndex <= |text|
    ensures FirstClosing(text[openIndex..], i) ==>
      openIndex + i < |text| && i > 0 && Balanced(text, openIndex) == Some(text[openIndex + 1..openIndex + i])
  {
    ClosingIndexIsFirst(text[openIndex..], i);
    hide ClosingIndex, CloserAt, OpenBefore, DepthAt;
  }

  lemma BalancedNever(text: string, openIndex: nat)
    requires openIndex <= |text|
    ensures Balanced(text, openIndex) == None <==> forall k :: !FirstClosing(text[openIndex..], k)
  {
    hide FirstClosing;
    var found := ClosingIndex(text[openIndex..], At(Code), 0);
    forall k: nat
      ensures found == Some(k) <==> FirstClosing(text[openIndex..], k)
    {
      ClosingIndexIsFirst(text[openIndex..], k);
    }
  }

  // Every text, whatever it holds: a call that never closes, one without an argument and
  // one whose argument is no object literal are told apart, and else the keys are judged.
  lemma VerdictsExactly(text: string, parenIndex: nat, lead: string, core: string, trail: string, i: nat)
    requires parenIndex <= |text| && Blank(lead) && Blank(trail)
    requires core != "" ==> !IsSpace(core[0]) && !IsSpace(core[|core| - 1])
    ensures ReadCallOptionKeys(text, parenIndex) == NeverCloses <==> forall k :: !FirstClosing(text[parenIndex..], k)
    ensures FirstClosing(text[parenIndex..], i) && text[parenIndex + 1..parenIndex + i] == lead + core + trail ==>
      ReadCallOptionKeys(text, parenIndex)
      == if core == "" then NoArgument
         else if core[0] != '{' || core[|core| - 1] != '}' then NotAnObjectLiteral
         else Judge(ObjectLiteralKeys(core[1..|core| - 1]))
  {
    if core == "" {
      TrimOfBlank(lead + core + trail);
    } else {
      TrimBlanks(lead, core, trail);
    }
    hide Trim, IsSpace, ObjectLiteralKeys, FirstClosing, Balanced, ReadCallOptionKeys, Judge, Blank;
    VerdictOf(text, parenIndex);
    BalancedNever(text, parenIndex);
    BalancedAt(text, parenIndex, i);
  }

  // A call is promised to be readable only when no key is missed.  It is reported readable
  // with a key missing exactly when some property that stands for a key has no code in it -
  // as a quoted key has none - and every name there is is an identifier.
  lemma {:induction false} MissesKeysSilently(before: string, lead: string, properties: seq<Property>,
                                              trail: string, after: string)
    requires Blank(lead) && Blank(trail) && forall k :: 0 <= k < |properties| ==> WellFormed(properties[k])
    ensures var call := ReadCallOptionKeys(before + CallText(lead, properties, trail) + after, |before|);
            call.Readable? && |call.keys| < KeyCount(properties) <==>
              && (exists i :: 0 <= i < |properties| && CarriesKey(properties[i]) && Name(properties[i]) == "")
              && (forall i :: 0 <= i < |properties| ==> Name(properties[i]) == "" || IsIdentifier(Name(properties[i])))
  {
    ReadsExactlyTheNames(before, lead, properties, trail, after);
    NamesLength(properties);
    NamesAreIdentifiers(properties);
    hide Name, Names, WellFormed, Blank, CallText, ReadCallOptionKeys, IsIdentifier, FirstUnreadable, CarriesKey, KeyCount;
  }

  lemma SpaceIsPlain(c: char, next: char)
    requires IsSpace(c)
    ensures Step(At(Code), c, next) == At(Code) && IsCode(At(Code), c, next) && !IsContent(At(Code), c, next)
    ensures Delta(At(Code), c, next) == 0 && !IsHole(At(Code), c, next) && c != ',' && c != ':'
  {
  }

  lemma {:induction false} GapIsClosed(gap: string)
    requires Blank(gap)
    ensures Closed(gap, At(Code), 0, true) && !HasContent(gap, At(Code)) && CodeText(gap, At(Code)) == gap
  {
    hide Step, IsCode, IsHole, Delta, IsSpace, IsContent;
    if gap != "" {
      SpaceIsPlain(gap[0], Next(gap));
      GapIsClosed(gap[1..]);
      assert [gap[0]] + gap[1..] == gap;
    }
  }

  lemma {:induction false} NamesBoth(a: seq<Property>, b: seq<Property>)
    ensures Names(a + b) == Names(a) + Names(b)
    ensures KeyCount(a + b) == KeyCount(a) + KeyCount(b)
  {
    hide NameOf, CarriesKey;
    if a == [] {
      assert a + b == b;
    } else {
      assert (a + b)[1..] == a[1..] + b;
      NamesBoth(a[1..], b);
    }
  }

  lemma OneProperty(p: Property)
    ensures Names([p]) == NameOf(p) && KeyCount([p]) == if CarriesKey(p) then 1 else 0
  {
    hide NameOf, CarriesKey;
    assert [p][1..] == [] && NameOf(p) + [] == NameOf(p);
  }

  lemma GapIsNoKey(gap: string)
    requires Blank(gap)
    ensures var last := Property(gap, None); WellFormed(last) && Names([last]) == [] && KeyCount([last]) == 0
  {
    GapIsClosed(gap);
    TrimOfBlank(gap);
    OneProperty(Property(gap, None));
    hide Closed, HasContent, CodeText, Trim, Names, KeyCount, Blank;
  }

  // A trailing comma, with blanks behind it or none, adds neither a key nor a name.
  lemma TrailingCommaMissesNothing(before: string, lead: string, properties: seq<Property>, gap: string,
                                   trail: string, after: string)
    requires Blank(lead) && Blank(gap) && Blank(trail)
    requires forall k :: 0 <= k < |properties| ==> WellFormed(properties[k])
    ensures var all := properties + [Property(gap, None)];
            && ReadCallOptionKeys(before + CallText(lead, all, trail) + after, |before|) == Judge(Names(properties))
            && KeyCount(all) == KeyCount(properties)
  {
    hide *;
    var last := Property(gap, None);
    var all := properties + [last];
    GapIsNoKey(gap);
    NamesBoth(properties, [last]);
    ReadsExactlyTheNames(before, lead, all, trail, after);
    assert Names(properties) + [] == Names(properties);
  }

  // ---------------------------------------------------------------------------
  // Keys written plainly

  lemma IdentifierChar(c: char, next: char)
    requires IdentifierStart(c) || '0' <= c <= '9'
    ensures Step(At(Code), c, next) == At(Code) && IsCode(At(Code), c, next)
    ensures Delta(At(Code), c, next) == 0 && !IsHole(At(Code), c, next) && c != ',' && c != ':'
  {
  }

  lemma {:induction false} IdentifierIsKey(name: string)
    requires forall k :: 0 <= k < |name| ==> IdentifierStart(name[k]) || '0' <= name[k] <= '9'
    ensures Closed(name, At(Code), 0, true) && CodeText(name, At(Code)) == name
  {
    hide Step, IsCode, IsHole, Delta, IdentifierStart;
    if name != "" {
      IdentifierIsKey(name[1..]);
      IdentifierChar(name[0], Next(name));
      assert [name[0]] + name[1..] == name;
    }
  }

  lemma IdentifierName(name: string, value: Option<string>)
    requires IsIdentifier(name)
    ensures NameOf(Property(name, value)) == [name] && Closed(name, At(Code), 0, true)
  {
    IdentifierIsKey(name);
    assert "" + name + "" == name;
    TrimBlanks("", name, "");
  }

  lemma {:induction false} IdentifierNames(keys: seq<string>, values: seq<Option<string>>, properties: seq<Property>)
    requires |keys| == |values| == |properties|
    requires forall k :: 0 <= k < |keys| ==> IsIdentifier(keys[k]) && properties[k] == Property(keys[k], values[k])
    ensures Names(properties) == keys
  {
    if keys != [] {
      IdentifierName(keys[0], values[0]);
      IdentifierNames(keys[1..], values[1..], properties[1..]);
      assert [keys[0]] + keys[1..] == keys;
    }
  }

  // Identifier keys, shorthand or with lexically closed values, are all recovered.
  lemma ExactKeyRecovery(before: string, lead: string, keys: seq<string>, values: seq<Option<string>>,
                         trail: string, after: string)
    requires Blank(lead) && Blank(trail) && |keys| == |values|
    requires forall k :: 0 <= k < |keys| ==> IsIdentifier(keys[k])
    requires forall k :: 0 <= k < |keys| ==>
      values[k].Some? ==> Closed(values[k].value, At(Code), 0, false)
    ensures var properties := seq(|keys|, k requires 0 <= k < |keys| => Property(keys[k], values[k]));
            ReadCallOptionKeys(before + CallText(lead, properties, trail) + after, |before|) == Readable(keys)
  {
    hide Closed, CodeText;
    var properties := seq(|keys|, k requires 0 <= k < |keys| => Property(keys[k], values[k]));
    forall k | 0 <= k < |properties|
      ensures WellFormed(properties[k])
    {
      IdentifierName(keys[k], values[k]);
    }
    IdentifierNames(keys, values, properties);
    ReadsExactlyTheNames(before, lead, properties, trail, after);
  }
}
