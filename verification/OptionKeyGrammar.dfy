// What may stand in the calls the option scanner reads, spelled out character by character,
// and what the scanner makes of it (config/scripts/call-site-option-keys.ts).
module OptionKeyGrammar {
  import opened JavaScriptText
  import opened OptionKeyScanner
  import opened Wrappers

  // ---------------------------------------------------------------------------
  // Texts spelled out: what strings, templates, comments and brackets are, said without
  // the lexer

  datatype Chunk =
    | Plain(c: char)
    | LineComment(body: string)
    | BlockComment(body: string)
    | Quoted(body: string, mark: char)
    | TemplateLiteral(body: string)
    | Nested(open: char, inner: seq<Chunk>)

  function Closer(open: char): char {
    if open == '(' then ')' else if open == '[' then ']' else '}'
  }

  function ChunkText(ch: Chunk): string
    decreases ch, 1
  {
    match ch
    case Plain(c) => [c]
    case LineComment(body) => "//" + body + "\n"
    case BlockComment(body) => "/*" + body + "*/"
    case Quoted(body, mark) => [mark] + body + [mark]
    case TemplateLiteral(body) => "`" + body + "`"
    case Nested(open, inner) => [open] + ChunkTexts(inner) + [Closer(open)]
  }

  function ChunkTexts(chunks: seq<Chunk>): string
    decreases chunks, 0
  {
    if chunks == [] then "" else ChunkText(chunks[0]) + ChunkTexts(chunks[1..])
  }

  // What is code of a text: all but comments, strings and templates.
  function ChunkCode(ch: Chunk): string
    decreases ch, 1
  {
    match ch
    case Plain(c) => [c]
    case Nested(open, inner) => [open] + ChunkCodes(inner) + [Closer(open)]
    case _ => ""
  }

  function ChunkCodes(chunks: seq<Chunk>): string
    decreases chunks, 0
  {
    if chunks == [] then "" else ChunkCode(chunks[0]) + ChunkCodes(chunks[1..])
  }

  // The inside of a string: the mark does not occur but behind a backslash, and every
  // backslash has a character behind it.
  predicate StringBody(body: string, mark: char) {
    body == ""
    || (if body[0] == '\\' then 2 <= |body| && StringBody(body[2..], mark)
        else body[0] != mark && StringBody(body[1..], mark))
  }

  // The inside of a template has no hole either.
  predicate TemplateBody(body: string) {
    body == ""
    || (if body[0] == '\\' then 2 <= |body| && TemplateBody(body[2..])
        else body[0] != '`' && !(body[0] == '$' && 2 <= |body| && body[1] == '{') && TemplateBody(body[1..]))
  }

  predicate Spelled(ch: Chunk)
    decreases ch, 1
  {
    match ch
    case Plain(c) => c !in "'\"`([{)]}"
    case LineComment(body) => '\n' !in body
    case BlockComment(body) => BlockBody(body)
    case Quoted(body, mark) => (mark == '\'' || mark == '"') && StringBody(body, mark)
    case TemplateLiteral(body) => TemplateBody(body)
    case Nested(open, inner) => open in "([{" && SpelledAll(inner, [Closer(open)])
  }

  // A slash on its own opens no comment with what is behind it.
  predicate Follows(ch: Chunk, rest: string) {
    ch == Plain('/') ==> rest == "" || (rest[0] != '/' && rest[0] != '*')
  }

  predicate SpelledAll(chunks: seq<Chunk>, rest: string)
    decreases chunks, 0
  {
    chunks == []
    || (Spelled(chunks[0]) && Follows(chunks[0], ChunkTexts(chunks[1..]) + rest) && SpelledAll(chunks[1..], rest))
  }

  // Outside all brackets a key holds no comma and no colon, and a value no comma.
  predicate AtTop(ch: Chunk, key: bool) {
    ch.Plain? ==> ch.c != ',' && (key ==> ch.c != ':')
  }

  // Reading on from `s` comes to the same as reading on from `t`: for closedness, for the
  // code there is, and for the search for a closing bracket.
  predicate LeadsTo(s: string, lex: Lex, d: nat, t: string, after: Lex, e: nat, code: string, key: bool, outer: nat) {
    && |t| <= |s|
    && Closed(s, lex, d, key) == Closed(t, after, e, key)
    && CodeText(s, lex) == code + CodeText(t, after)
    && ClosingIndex(s, lex, outer + d) == Shift(|s| - |t|, ClosingIndex(t, after, outer + e))
  }

  lemma LeadsOn(s: string, lex: Lex, d: nat, t: string, middle: Lex, e: nat, u: string, after: Lex, f: nat,
                one: string, two: string, key: bool, outer: nat)
    requires LeadsTo(s, lex, d, t, middle, e, one, key, outer) && LeadsTo(t, middle, e, u, after, f, two, key, outer)
    ensures LeadsTo(s, lex, d, u, after, f, one + two, key, outer)
  {
    hide Closed, CodeText, ClosingIndex;
    assert one + (two + CodeText(u, after)) == one + two + CodeText(u, after);
  }

  // The same where neither step holds code.
  lemma QuietOn(s: string, lex: Lex, t: string, middle: Lex, u: string, after: Lex, d: nat, key: bool, outer: nat)
    requires LeadsTo(s, lex, d, t, middle, d, "", key, outer) && LeadsTo(t, middle, d, u, after, d, "", key, outer)
    ensures LeadsTo(s, lex, d, u, after, d, "", key, outer)
  {
    hide LeadsTo;
    LeadsOn(s, lex, d, t, middle, d, u, after, d, "", "", key, outer);
    assert "" + "" == "";
  }

  lemma LeadsToItself(s: string, lex: Lex, d: nat, key: bool, outer: nat)
    ensures LeadsTo(s, lex, d, s, lex, d, "", key, outer)
  {
    hide Closed, ClosingIndex, CodeText;
    assert "" + CodeText(s, lex) == CodeText(s, lex);
  }

  // One character.
  lemma CharLeads(c: char, t: string, lex: Lex, d: nat, e: nat, key: bool, outer: nat)
    requires outer + d > 0 && outer + e > 0 && !IsHole(lex, c, Next([c] + t)) && e == d + Delta(lex, c, Next([c] + t))
    requires IsCode(lex, c, Next([c] + t)) && d == 0 ==> c != ',' && (key ==> c != ':')
    ensures LeadsTo([c] + t, lex, d, t, Step(lex, c, Next([c] + t)), e,
                    if IsCode(lex, c, Next([c] + t)) then [c] else "", key, outer)
  {
    var s := [c] + t;
    assert s[0] == c && s[1..] == t;
    ClosingStep(s, lex, outer + d);
    ClosedStarts(s, lex, d, key);
    CodeTextStarts(s, lex);
    hide IsCode, IsHole, Delta, Step, Closed, CodeText, ClosingIndex;
  }

  lemma ClosedStarts(s: string, lex: Lex, depth: int, key: bool)
    requires s != ""
    ensures Closed(s, lex, depth, key) == (
              var d := depth + Delta(lex, s[0], Next(s));
              && !IsHole(lex, s[0], Next(s)) && 0 <= d
              && !(IsCode(lex, s[0], Next(s)) && depth == 0 && (s[0] == ',' || (key && s[0] == ':')))
              && Closed(s[1..], Step(lex, s[0], Next(s)), d, key))
  {
    hide IsCode, IsHole, Delta, Step;
  }

  lemma CodeTextStarts(s: string, lex: Lex)
    requires s != ""
    ensures CodeText(s, lex)
         == (if IsCode(lex, s[0], Next(s)) then [s[0]] else "") + CodeText(s[1..], Step(lex, s[0], Next(s)))
  {
    hide IsCode, Step;
  }

  // A character that is no code.
  lemma SilentLeads(c: char, t: string, lex: Lex, after: Lex, d: nat, key: bool, outer: nat)
    requires outer + d > 0 && !IsHole(lex, c, Next([c] + t)) && !IsCode(lex, c, Next([c] + t))
    requires Step(lex, c, Next([c] + t)) == after
    ensures LeadsTo([c] + t, lex, d, t, after, d, "", key, outer)
  {
    SilentIsFlat(lex, c, Next([c] + t));
    hide IsCode, IsHole, Delta, Step, LeadsTo;
    CharLeads(c, t, lex, d, d, key, outer);
  }

  lemma SilentIsFlat(lex: Lex, c: char, next: char)
    ensures !IsCode(lex, c, next) ==> Delta(lex, c, next) == 0
  {
  }

  // A code character that is no bracket.
  lemma PlainLeads(c: char, t: string, d: nat, key: bool, outer: nat)
    requires outer + d > 0 && Spelled(Plain(c)) && Follows(Plain(c), t) && (d == 0 ==> AtTop(Plain(c), key))
    ensures LeadsTo([c] + t, At(Code), d, t, At(Code), d, [c], key, outer)
  {
    PlainFacts(c, t);
    hide IsCode, IsHole, Delta, Step, LeadsTo, Spelled, Follows;
    CharLeads(c, t, At(Code), d, d, key, outer);
  }

  lemma PlainFacts(c: char, t: string)
    requires Spelled(Plain(c)) && Follows(Plain(c), t)
    ensures var next := Next([c] + t);
            IsCode(At(Code), c, next) && !IsHole(At(Code), c, next)
            && Delta(At(Code), c, next) == 0 && Step(At(Code), c, next) == At(Code)
  {
    assert t != "" ==> ([c] + t)[1] == t[0];
  }

  lemma BracketFacts(open: char, next: char)
    requires open in "([{"
    ensures IsCode(At(Code), open, next) && !IsHole(At(Code), open, next)
    ensures Delta(At(Code), open, next) == 1 && Step(At(Code), open, next) == At(Code)
    ensures IsCode(At(Code), Closer(open), next) && !IsHole(At(Code), Closer(open), next)
    ensures Delta(At(Code), Closer(open), next) == -1 && Step(At(Code), Closer(open), next) == At(Code)
    ensures open != ',' && open != ':' && Closer(open) != ',' && Closer(open) != ':'
  {
  }

  lemma OutsideFacts(c: char, next: char)
    ensures !IsCode(At(Line), c, next) && !IsHole(At(Line), c, next)
    ensures Step(At(Line), c, next) == if c == '\n' then At(Code) else At(Line)
    ensures !IsCode(At(Block), c, next) && !IsHole(At(Block), c, next)
    ensures Step(At(Block), c, next) == if c == '*' && next == '/' then Skip(Code) else At(Block)
    ensures forall state :: !IsCode(Skip(state), c, next) && !IsHole(Skip(state), c, next)
                            && Step(Skip(state), c, next) == At(state)
  {
  }

  lemma OpeningFacts(next: char)
    ensures !IsCode(At(Code), '/', '/') && !IsHole(At(Code), '/', '/') && Step(At(Code), '/', '/') == Skip(Line)
    ensures !IsCode(At(Code), '/', '*') && !IsHole(At(Code), '/', '*') && Step(At(Code), '/', '*') == Skip(Block)
    ensures !IsCode(At(Code), '`', next) && !IsHole(At(Code), '`', next) && Step(At(Code), '`', next) == At(Template)
    ensures !IsCode(At(Code), '\'', next) && !IsHole(At(Code), '\'', next) && Step(At(Code), '\'', next) == At(Single)
    ensures !IsCode(At(Code), '"', next) && !IsHole(At(Code), '"', next) && Step(At(Code), '"', next) == At(Double)
  {
  }

  // A string or template with its mark, and what a character inside it does.
  predicate Marks(state: ScanState, mark: char) {
    (state == Single && mark == '\'') || (state == Double && mark == '"') || (state == Template && mark == '`')
  }

  lemma InsideFacts(state: ScanState, mark: char, c: char, next: char)
    requires Marks(state, mark)
    ensures !IsCode(At(state), c, next)
    ensures !(state == Template && c == '$' && next == '{') ==> !IsHole(At(state), c, next)
    ensures Step(At(state), c, next) == if c == '\\' then Skip(state) else if c == mark then At(Code) else At(state)
    ensures mark != '\\' && mark != '$'
  {
  }

  lemma {:induction false} LineLeads(body: string, t: string, d: nat, key: bool, outer: nat)
    requires outer + d > 0 && '\n' !in body
    ensures LeadsTo(body + "\n" + t, At(Line), d, t, At(Code), d, "", key, outer)
    decreases |body|
  {
    hide *;
    if body == "" {
      OutsideFacts('\n', Next(['\n'] + t));
      SilentLeads('\n', t, At(Line), At(Code), d, key, outer);
      assert body + "\n" + t == ['\n'] + t;
    } else {
      var u := body[1..] + "\n" + t;
      assert body + "\n" + t == [body[0]] + u;
      OutsideFacts(body[0], Next([body[0]] + u));
      SilentLeads(body[0], u, At(Line), At(Line), d, key, outer);
      LineLeads(body[1..], t, d, key, outer);
      QuietOn([body[0]] + u, At(Line), u, At(Line), t, At(Code), d, key, outer);
    }
  }

  lemma BlockEnds(t: string, d: nat, key: bool, outer: nat)
    requires outer + d > 0
    ensures LeadsTo("*/" + t, At(Block), d, t, At(Code), d, "", key, outer)
  {
    hide *;
    var u := ['/'] + t;
    SecondOf('*', u);
    OutsideFacts('*', '/');
    OutsideFacts('/', Next(u));
    SilentLeads('*', u, At(Block), Skip(Code), d, key, outer);
    SilentLeads('/', t, Skip(Code), At(Code), d, key, outer);
    QuietOn(['*'] + u, At(Block), u, Skip(Code), t, At(Code), d, key, outer);
    assert "*/" + t == ['*'] + u;
  }

  // No star in front of a slash inside.
  predicate BlockBody(body: string) {
    forall i :: 0 <= i < |body| - 1 && body[i] == '*' ==> body[i + 1] != '/'
  }

  lemma {:induction false} BlockLeads(body: string, t: string, d: nat, key: bool, outer: nat)
    requires outer + d > 0 && BlockBody(body)
    ensures LeadsTo(body + "*/" + t, At(Block), d, t, At(Code), d, "", key, outer)
    decreases |body|
  {
    hide LeadsTo, IsCode, IsHole, Step, Next;
    if body == "" {
      BlockEnds(t, d, key, outer);
      assert body + "*/" + t == "*/" + t;
    } else {
      var u := body[1..] + "*/" + t;
      assert body + "*/" + t == [body[0]] + u && u != "";
      SecondOf(body[0], u);
      assert body[0] == '*' ==> u[0] != '/';
      OutsideFacts(body[0], u[0]);
      SilentLeads(body[0], u, At(Block), At(Block), d, key, outer);
      BlockLeads(body[1..], t, d, key, outer);
      QuietOn([body[0]] + u, At(Block), u, At(Block), t, At(Code), d, key, outer);
    }
  }

  lemma SecondOf(c: char, t: string)
    ensures Next([c] + t) == if t == "" then '\0' else t[0]
  {
  }

  // The inside of a string or template, up to its closing mark.
  predicate Inside(body: string, state: ScanState, mark: char) {
    Marks(state, mark) && if state == Template then TemplateBody(body) else StringBody(body, mark)
  }

  lemma InsideUnfolds(body: string, state: ScanState, mark: char)
    requires Inside(body, state, mark) && body != ""
    ensures Marks(state, mark)
    ensures if body[0] == '\\' then 2 <= |body| && Inside(body[2..], state, mark)
            else body[0] != mark && Inside(body[1..], state, mark)
                 && !(state == Template && body[0] == '$' && 2 <= |body| && body[1] == '{')
  {
  }

  lemma EscapeLeads(state: ScanState, mark: char, c: char, u: string, d: nat, key: bool, outer: nat)
    requires outer + d > 0 && Marks(state, mark)
    ensures LeadsTo(['\\', c] + u, At(state), d, u, At(state), d, "", key, outer)
  {
    hide *;
    var v := [c] + u;
    InsideFacts(state, mark, '\\', Next(['\\'] + v));
    OutsideFacts(c, Next(v));
    SilentLeads('\\', v, At(state), Skip(state), d, key, outer);
    SilentLeads(c, u, Skip(state), At(state), d, key, outer);
    QuietOn(['\\'] + v, At(state), v, Skip(state), u, At(state), d, key, outer);
    assert ['\\', c] + u == ['\\'] + v;
  }

  lemma CharInside(state: ScanState, mark: char, c: char, u: string, d: nat, key: bool, outer: nat)
    requires outer + d > 0 && Marks(state, mark) && c != '\\' && u != ""
    requires state == Template && c == '$' ==> u[0] != '{'
    ensures LeadsTo([c] + u, At(state), d, u, if c == mark then At(Code) else At(state), d, "", key, outer)
  {
    hide *;
    SecondOf(c, u);
    InsideFacts(state, mark, c, u[0]);
    SilentLeads(c, u, At(state), if c == mark then At(Code) else At(state), d, key, outer);
  }

  lemma MarkEnds(state: ScanState, mark: char, t: string, d: nat, key: bool, outer: nat)
    requires outer + d > 0 && Marks(state, mark)
    ensures LeadsTo([mark] + t, At(state), d, t, At(Code), d, "", key, outer)
  {
    hide *;
    InsideFacts(state, mark, mark, Next([mark] + t));
    SilentLeads(mark, t, At(state), At(Code), d, key, outer);
  }

  lemma {:induction false} InsideLeads(body: string, state: ScanState, mark: char, t: string, d: nat, key: bool, outer: nat)
    requires outer + d > 0 && Inside(body, state, mark)
    ensures LeadsTo(body + [mark] + t, At(state), d, t, At(Code), d, "", key, outer)
    decreases |body|
  {
    hide *;
    InsideMarks(body, state, mark);
    if body == "" {
      MarkEnds(state, mark, t, d, key, outer);
      assert body + [mark] + t == [mark] + t;
    } else {
      InsideUnfolds(body, state, mark);
      var n := if body[0] == '\\' then 2 else 1;
      var u := body[n..] + [mark] + t;
      if n == 2 {
        EscapeLeads(state, mark, body[1], u, d, key, outer);
        assert body + [mark] + t == ['\\', body[1]] + u;
      } else {
        NoBraceMark(state, mark);
        assert u[0] == if 2 <= |body| then body[1] else mark;
        CharInside(state, mark, body[0], u, d, key, outer);
        assert body + [mark] + t == [body[0]] + u;
      }
      InsideLeads(body[n..], state, mark, t, d, key, outer);
      QuietOn(body + [mark] + t, At(state), u, At(state), t, At(Code), d, key, outer);
    }
  }

  lemma NoBraceMark(state: ScanState, mark: char)
    ensures Marks(state, mark) ==> mark != '{'
  {
  }

  lemma InsideMarks(body: string, state: ScanState, mark: char)
    requires Inside(body, state, mark)
    ensures Marks(state, mark)
  {
  }

  lemma SilentText(ch: Chunk, t: string)
    requires Spelled(ch) && !ch.Plain? && !ch.Nested?
    ensures ChunkCode(ch) == ""
    ensures ch.LineComment? ==> '\n' !in ch.body && ChunkText(ch) + t == ['/', '/'] + (ch.body + "\n" + t)
    ensures ch.BlockComment? ==> BlockBody(ch.body) && ChunkText(ch) + t == ['/', '*'] + (ch.body + "*/" + t)
    ensures ch.Quoted? ==> Inside(ch.body, if ch.mark == '"' then Double else Single, ch.mark)
                           && ChunkText(ch) + t == [ch.mark] + (ch.body + [ch.mark] + t)
    ensures ch.TemplateLiteral? ==> Inside(ch.body, Template, '`') && ChunkText(ch) + t == ['`'] + (ch.body + ['`'] + t)
  {
    hide StringBody, TemplateBody, BlockBody;
  }

  // A comment, a string or a template leads to what is behind it and holds no code.
  lemma SilentChunkLeads(ch: Chunk, t: string, d: nat, key: bool, outer: nat)
    requires outer + d > 0 && Spelled(ch) && !ch.Plain? && !ch.Nested?
    ensures LeadsTo(ChunkText(ch) + t, At(Code), d, t, At(Code), d, ChunkCode(ch), key, outer)
  {
    hide *;
    SilentText(ch, t);
    match ch
    case LineComment(body) =>
      var u := body + "\n" + t;
      PairLeads('/', Line, u, d, key, outer);
      LineLeads(body, t, d, key, outer);
      QuietOn(['/', '/'] + u, At(Code), u, At(Line), t, At(Code), d, key, outer);
    case BlockComment(body) =>
      var u := body + "*/" + t;
      PairLeads('*', Block, u, d, key, outer);
      BlockLeads(body, t, d, key, outer);
      QuietOn(['/', '*'] + u, At(Code), u, At(Block), t, At(Code), d, key, outer);
    case Quoted(body, mark) => MarkLeads(if mark == '"' then Double else Single, mark, body, t, d, key, outer);
    case TemplateLiteral(body) => MarkLeads(Template, '`', body, t, d, key, outer);
  }

  lemma MarkLeads(state: ScanState, mark: char, body: string, t: string, d: nat, key: bool, outer: nat)
    requires outer + d > 0 && Inside(body, state, mark)
    ensures LeadsTo([mark] + (body + [mark] + t), At(Code), d, t, At(Code), d, "", key, outer)
  {
    InsideMarks(body, state, mark);
    var u := body + [mark] + t;
    OpeningFacts(Next([mark] + u));
    hide LeadsTo, IsCode, IsHole, Step, Next, Inside;
    SilentLeads(mark, u, At(Code), At(state), d, key, outer);
    InsideLeads(body, state, mark, t, d, key, outer);
    QuietOn([mark] + u, At(Code), u, At(state), t, At(Code), d, key, outer);
  }

  lemma PairLeads(second: char, state: ScanState, u: string, d: nat, key: bool, outer: nat)
    requires outer + d > 0 && ((second == '/' && state == Line) || (second == '*' && state == Block))
    ensures LeadsTo(['/', second] + u, At(Code), d, u, At(state), d, "", key, outer)
  {
    hide *;
    var v := [second] + u;
    SecondOf('/', v);
    OpeningFacts('/');
    OutsideFacts(second, Next(v));
    SilentLeads('/', v, At(Code), Skip(state), d, key, outer);
    SilentLeads(second, u, Skip(state), At(state), d, key, outer);
    QuietOn(['/'] + v, At(Code), v, Skip(state), u, At(state), d, key, outer);
    assert ['/', second] + u == ['/'] + v;
  }

  lemma NestedText(ch: Chunk, t: string)
    requires ch.Nested? && Spelled(ch)
    ensures ch.open in "([{" && SpelledAll(ch.inner, [Closer(ch.open)])
    ensures ChunkText(ch) + t == [ch.open] + (ChunkTexts(ch.inner) + ([Closer(ch.open)] + t))
    ensures ChunkCode(ch) == [ch.open] + (ChunkCodes(ch.inner) + [Closer(ch.open)])
  {
    hide SpelledAll, ChunkTexts, ChunkCodes, Closer;
  }

  lemma PlainText(ch: Chunk)
    requires ch.Plain?
    ensures ChunkText(ch) == [ch.c] == ChunkCode(ch)
  {
  }

  // Any text spelled in this way leads to what is behind it, and its code is the code said.
  lemma {:induction false} ChunkLeads(ch: Chunk, t: string, d: nat, key: bool, outer: nat)
    requires outer + d > 0 && Spelled(ch) && Follows(ch, t) && (d == 0 ==> AtTop(ch, key))
    ensures LeadsTo(ChunkText(ch) + t, At(Code), d, t, At(Code), d, ChunkCode(ch), key, outer)
    decreases ch, 1
  {
    hide *;
    if ch.Plain? {
      PlainText(ch);
      PlainLeads(ch.c, t, d, key, outer);
    } else if ch.Nested? {
      var open, inner := ch.open, ch.inner;
      var u := [Closer(open)] + t;
      var v := ChunkTexts(inner) + u;
      NestedText(ch, t);
      SpelledBefore(inner, [Closer(open)], t);
      ChunksLead(inner, u, d + 1, key, outer);
      BracketLeads(open, v, t, d, key, outer);
      LeadsOn(v, At(Code), d + 1, u, At(Code), d + 1, t, At(Code), d, ChunkCodes(inner), [Closer(open)], key, outer);
      LeadsOn([open] + v, At(Code), d, v, At(Code), d + 1, t, At(Code), d, [open],
              ChunkCodes(inner) + [Closer(open)], key, outer);
    } else {
      SilentChunkLeads(ch, t, d, key, outer);
    }
  }

  lemma BracketLeads(open: char, v: string, t: string, d: nat, key: bool, outer: nat)
    requires outer + d > 0 && open in "([{"
    ensures LeadsTo([open] + v, At(Code), d, v, At(Code), d + 1, [open], key, outer)
    ensures LeadsTo([Closer(open)] + t, At(Code), d + 1, t, At(Code), d, [Closer(open)], key, outer)
  {
    BracketFacts(open, Next([open] + v));
    BracketFacts(open, Next([Closer(open)] + t));
    hide LeadsTo, IsCode, IsHole, Step, Next, Delta, Closer;
    CharLeads(open, v, At(Code), d, d + 1, key, outer);
    CharLeads(Closer(open), t, At(Code), d + 1, d, key, outer);
  }

  lemma {:induction false} SpelledBefore(chunks: seq<Chunk>, a: string, b: string)
    requires SpelledAll(chunks, a) && a != ""
    ensures SpelledAll(chunks, a + b)
  {
    hide Spelled, ChunkTexts;
    if chunks != [] {
      SpelledBefore(chunks[1..], a, b);
      assert ChunkTexts(chunks[1..]) + (a + b) == ChunkTexts(chunks[1..]) + a + b;
    }
  }

  lemma {:induction false} ChunksLead(chunks: seq<Chunk>, t: string, d: nat, key: bool, outer: nat)
    requires outer + d > 0 && SpelledAll(chunks, t) && (d == 0 ==> forall k :: 0 <= k < |chunks| ==> AtTop(chunks[k], key))
    ensures LeadsTo(ChunkTexts(chunks) + t, At(Code), d, t, At(Code), d, ChunkCodes(chunks), key, outer)
    decreases chunks, 0
  {
    if chunks == [] {
      hide LeadsTo;
      LeadsToItself(t, At(Code), d, key, outer);
      assert ChunkTexts(chunks) + t == t;
    } else {
      var ch, later := chunks[0], chunks[1..];
      var u := ChunkTexts(later) + t;
      assert ChunkTexts(chunks) + t == ChunkText(ch) + u;
      hide LeadsTo, Spelled, ChunkText, ChunkCode, AtTop, Follows;
      ChunkLeads(ch, u, d, key, outer);
      ChunksLead(later, t, d, key, outer);
      LeadsOn(ChunkText(ch) + u, At(Code), d, u, At(Code), d, t, At(Code), d, ChunkCode(ch), ChunkCodes(later), key, outer);
    }
  }

  lemma NothingIsClosed()
    ensures Closed("", At(Code), 0, true) && Closed("", At(Code), 0, false) && CodeText("", At(Code)) == ""
  {
  }

  // Spelled texts in a row are lexically closed, and their code is the code said.
  lemma SpelledIsClosed(chunks: seq<Chunk>, key: bool)
    requires SpelledAll(chunks, "") && forall k :: 0 <= k < |chunks| ==> AtTop(chunks[k], key)
    ensures Closed(ChunkTexts(chunks), At(Code), 0, key) && CodeText(ChunkTexts(chunks), At(Code)) == ChunkCodes(chunks)
  {
    ChunksLead(chunks, "", 0, key, 1);
    NothingIsClosed();
    hide Closed, CodeText, ClosingIndex, SpelledAll, AtTop;
    assert ChunkTexts(chunks) + "" == ChunkTexts(chunks) && ChunkCodes(chunks) + "" == ChunkCodes(chunks);
  }

  lemma InsideBeforeHole(body: string, c: char, next: char)
    requires TemplateBody(body) && body != "" && c == body[0]
    ensures c != '\\' ==>
      (2 <= |body| ==> next == body[1]) && (|body| == 1 ==> next == '$') ==>
        !IsHole(At(Template), c, next) && Step(At(Template), c, next) == At(Template)
    ensures Delta(At(Template), c, next) == 0 && Delta(Skip(Template), c, next) == 0
    ensures !IsHole(Skip(Template), c, next) && Step(Skip(Template), c, next) == At(Template)
    ensures c == '\\' ==> !IsHole(At(Template), c, next) && Step(At(Template), c, next) == Skip(Template)
  {
  }

  lemma SkippedChar(c: char, next: char)
    ensures Delta(Skip(Template), c, next) == 0 && !IsHole(Skip(Template), c, next)
    ensures Step(Skip(Template), c, next) == At(Template)
  {
  }

  lemma BodyUnescapes(body: string)
    requires TemplateBody(body) && body != ""
    ensures if body[0] == '\\' then 2 <= |body| && TemplateBody(body[2..]) else TemplateBody(body[1..])
  {
  }

  lemma HoleStops(rest: string, depth: int)
    ensures ClosingIndex("${" + rest, At(Template), depth) == None
  {
  }

  lemma {:induction false} HoleIsFound(body: string, rest: string, depth: int)
    requires TemplateBody(body)
    ensures ClosingIndex(body + "${" + rest, At(Template), depth) == None
    decreases |body|
  {
    hide *;
    var s := body + "${" + rest;
    if body == "" {
      assert s == "${" + rest;
      HoleStops(rest, depth);
    } else {
      BodyUnescapes(body);
      NextOf(s);
      InsideBeforeHole(body, s[0], Next(s));
      ClosingStep(s, At(Template), depth);
      if body[0] == '\\' {
        var t := body[1..] + "${" + rest;
        assert s[1..] == t && t[1..] == body[2..] + "${" + rest;
        SkippedChar(t[0], Next(t));
        ClosingStep(t, Skip(Template), depth);
        HoleIsFound(body[2..], rest, depth);
        NoneShifted();
      } else {
        assert s[1..] == body[1..] + "${" + rest;
        HoleIsFound(body[1..], rest, depth);
        NoneShifted();
      }
    }
  }

  lemma NextOf(s: string)
    ensures Next(s) == if 1 < |s| then s[1] else '\0'
  {
  }

  lemma NoneShifted()
    ensures forall n: nat :: Shift(n, None) == None
  {
  }

  // A bracket, some text and a template with a hole behind it never close.
  lemma OpenThenHole(open: char, chunks: seq<Chunk>, body: string, rest: string)
    requires open in "([{" && SpelledAll(chunks, "`") && TemplateBody(body)
    ensures ClosingIndex([open] + (ChunkTexts(chunks) + ("`" + (body + "${" + rest))), At(Code), 0) == None
  {
    var hole := body + "${" + rest;
    var inside := ChunkTexts(chunks) + ("`" + hole);
    SpelledBefore(chunks, "`", hole);
    hide *;
    NoneShifted();
    BracketFacts(open, Next([open] + inside));
    ClosingStep([open] + inside, At(Code), 0);
    assert ([open] + inside)[1..] == inside;
    ChunksLead(chunks, "`" + hole, 1, false, 0);
    LeadsToClosing(inside, "`" + hole, 1, ChunkCodes(chunks));
    OpeningFacts(Next("`" + hole));
    SilentIsFlat(At(Code), '`', Next("`" + hole));
    ClosingStep("`" + hole, At(Code), 1);
    assert ("`" + hole)[1..] == hole;
    HoleIsFound(body, rest, 1);
  }

  lemma LeadsToClosing(s: string, t: string, d: nat, code: string)
    requires LeadsTo(s, At(Code), d, t, At(Code), d, code, false, 0)
    ensures |t| <= |s| && ClosingIndex(s, At(Code), d) == Shift(|s| - |t|, ClosingIndex(t, At(Code), d))
  {
    hide ClosingIndex, Closed, CodeText;
  }

  // A template with a hole makes the call unreadable, wherever in it and whatever follows.
  lemma HoleNeverCloses(before: string, open: char, chunks: seq<Chunk>, body: string, rest: string)
    requires open in "([{" && SpelledAll(chunks, "`") && TemplateBody(body)
    ensures ReadCallOptionKeys(before + ([open] + (ChunkTexts(chunks) + ("`" + (body + "${" + rest)))), |before|)
         == NeverCloses
  {
    var call := [open] + (ChunkTexts(chunks) + ("`" + (body + "${" + rest)));
    assert Suffix(before + call, |before|) == call;
    OpenThenHole(open, chunks, body, rest);
    hide ClosingIndex, SpelledAll, ChunkTexts, TemplateBody, Trim, Judge;
  }

  // ---------------------------------------------------------------------------
  // Calls spelled out

  // A property as it is written: gaps around an identifier, and a value or none.
  datatype Entry = Entry(before: seq<Chunk>, key: string, after: seq<Chunk>, value: Option<seq<Chunk>>)

  // Blanks and comments.
  predicate IsGap(ch: Chunk) {
    Spelled(ch) && ((ch.Plain? && IsSpace(ch.c)) || ch.LineComment? || ch.BlockComment?)
  }

  predicate AllGaps(chunks: seq<Chunk>) {
    forall k :: 0 <= k < |chunks| ==> IsGap(chunks[k])
  }

  predicate SpelledEntry(e: Entry) {
    && AllGaps(e.before) && AllGaps(e.after) && IsIdentifier(e.key)
    && (e.value.Some? ==> SpelledAll(e.value.value, "")
                          && forall k :: 0 <= k < |e.value.value| ==> AtTop(e.value.value[k], false))
  }

  function Letters(s: string): (chunks: seq<Chunk>)
    ensures |chunks| == |s| && forall k :: 0 <= k < |s| ==> chunks[k] == Plain(s[k])
  {
    seq(|s|, k requires 0 <= k < |s| => Plain(s[k]))
  }

  function KeyChunks(e: Entry): seq<Chunk> {
    e.before + Letters(e.key) + e.after
  }

  function PropertyOf(e: Entry): Property {
    Property(ChunkTexts(KeyChunks(e)), if e.value.Some? then Some(ChunkTexts(e.value.value)) else None)
  }

  lemma {:induction false} ChunkCodesBoth(a: seq<Chunk>, b: seq<Chunk>)
    ensures ChunkCodes(a + b) == ChunkCodes(a) + ChunkCodes(b)
  {
    hide ChunkCode;
    if a == [] {
      assert a + b == b;
    } else {
      assert (a + b)[1..] == a[1..] + b;
      ChunkCodesBoth(a[1..], b);
    }
  }

  lemma {:induction false} CodeOfLetters(s: string)
    ensures ChunkCodes(Letters(s)) == s
  {
    if s != "" {
      assert Letters(s)[1..] == Letters(s[1..]);
      CodeOfLetters(s[1..]);
      assert [s[0]] + s[1..] == s;
    }
  }

  lemma {:induction false} CodeOfGaps(chunks: seq<Chunk>)
    requires AllGaps(chunks)
    ensures Blank(ChunkCodes(chunks))
  {
    hide IsSpace, Spelled;
    if chunks != [] {
      CodeOfGaps(chunks[1..]);
    }
  }

  // Without a slash of its own any row of chunks is spelled.
  lemma {:induction false} SpelledWithoutSlash(chunks: seq<Chunk>, rest: string)
    requires forall k :: 0 <= k < |chunks| ==> Spelled(chunks[k]) && chunks[k] != Plain('/')
    ensures SpelledAll(chunks, rest)
  {
    hide Spelled, ChunkTexts;
    if chunks != [] {
      SpelledWithoutSlash(chunks[1..], rest);
    }
  }

  lemma GapIsPlain(ch: Chunk)
    requires IsGap(ch)
    ensures Spelled(ch) && ch != Plain('/') && AtTop(ch, true)
  {
  }

  lemma LetterIsPlain(c: char)
    requires IdentifierStart(c) || '0' <= c <= '9'
    ensures Spelled(Plain(c)) && c != '/' && AtTop(Plain(c), true) && !IsSpace(c)
  {
  }

  lemma KeyChunksArePlain(e: Entry)
    requires SpelledEntry(e)
    ensures forall k :: 0 <= k < |KeyChunks(e)| ==>
      Spelled(KeyChunks(e)[k]) && KeyChunks(e)[k] != Plain('/') && AtTop(KeyChunks(e)[k], true)
  {
    forall k | 0 <= k < |e.before|
      ensures Spelled(e.before[k]) && e.before[k] != Plain('/') && AtTop(e.before[k], true)
    {
      GapIsPlain(e.before[k]);
    }
    forall k | 0 <= k < |e.after|
      ensures Spelled(e.after[k]) && e.after[k] != Plain('/') && AtTop(e.after[k], true)
    {
      GapIsPlain(e.after[k]);
    }
    forall k | 0 <= k < |e.key|
      ensures Spelled(Plain(e.key[k])) && e.key[k] != '/' && AtTop(Plain(e.key[k]), true)
    {
      LetterIsPlain(e.key[k]);
    }
    hide Spelled, AtTop, IdentifierStart, IsGap;
  }

  lemma EntryIsNamed(e: Entry)
    requires SpelledEntry(e)
    ensures WellFormed(PropertyOf(e)) && Name(PropertyOf(e)) == e.key && IsIdentifier(e.key)
  {
    KeyChunksArePlain(e);
    SpelledWithoutSlash(KeyChunks(e), "");
    SpelledIsClosed(KeyChunks(e), true);
    if e.value.Some? {
      SpelledIsClosed(e.value.value, false);
    }
    ChunkCodesBoth(e.before + Letters(e.key), e.after);
    ChunkCodesBoth(e.before, Letters(e.key));
    CodeOfLetters(e.key);
    CodeOfGaps(e.before);
    CodeOfGaps(e.after);
    LetterIsPlain(e.key[0]);
    LetterIsPlain(e.key[|e.key| - 1]);
    hide Spelled, SpelledAll, AtTop, IdentifierStart, IsGap, AllGaps, ChunkTexts, ChunkCodes, Closed, CodeText, IsSpace;
    TrimBlanks(ChunkCodes(e.before), e.key, ChunkCodes(e.after));
  }

  function PropertiesOf(entries: seq<Entry>): (properties: seq<Property>)
    ensures |properties| == |entries| && forall k :: 0 <= k < |entries| ==> properties[k] == PropertyOf(entries[k])
  {
    seq(|entries|, k requires 0 <= k < |entries| => PropertyOf(entries[k]))
  }

  function KeysOf(entries: seq<Entry>): (keys: seq<string>)
    ensures |keys| == |entries| && forall k :: 0 <= k < |entries| ==> keys[k] == entries[k].key
  {
    seq(|entries|, k requires 0 <= k < |entries| => entries[k].key)
  }

  lemma {:induction false} NamesAre(properties: seq<Property>, keys: seq<string>)
    requires |properties| == |keys|
    requires forall k :: 0 <= k < |keys| ==> Name(properties[k]) == keys[k] && keys[k] != ""
    ensures Names(properties) == keys
  {
    hide Name;
    if keys != [] {
      NamesAre(properties[1..], keys[1..]);
      assert [keys[0]] + keys[1..] == keys;
    }
  }

  // Every call of one object literal as it may be written - identifier keys, shorthand or
  // with values of any strings, templates, comments and nested brackets, comments and
  // blanks around the keys - is read as exactly its keys, in order.
  lemma ReadsSpelledKeys(before: string, lead: string, entries: seq<Entry>, trail: string, after: string)
    requires Blank(lead) && Blank(trail) && forall k :: 0 <= k < |entries| ==> SpelledEntry(entries[k])
    ensures ReadCallOptionKeys(before + CallText(lead, PropertiesOf(entries), trail) + after, |before|)
         == Readable(KeysOf(entries))
  {
    forall k | 0 <= k < |entries|
      ensures WellFormed(PropertyOf(entries[k])) && Name(PropertyOf(entries[k])) == entries[k].key
      ensures IsIdentifier(entries[k].key) && entries[k].key != ""
    {
      EntryIsNamed(entries[k]);
    }
    hide WellFormed, Name, SpelledEntry, PropertyOf, Names, Blank, CallText, ReadCallOptionKeys, IdentifierStart;
    NamesAre(PropertiesOf(entries), KeysOf(entries));
    ReadsExactlyTheNames(before, lead, PropertiesOf(entries), trail, after);
  }

  // Every quoted key, in either kind of quotes and with any escapes, stands for a key but
  // has no code, so it has no name: the call is read as if the property were not there,
  // against the promise that what cannot be read is reported.
  lemma QuotedKeyHasNoName(body: string, mark: char, value: Option<string>)
    requires Spelled(Quoted(body, mark))
    ensures var p := Property(ChunkText(Quoted(body, mark)), value);
            Closed(p.key, At(Code), 0, true) && CarriesKey(p) && NameOf(p) == []
  {
    var chunks := [Quoted(body, mark)];
    var text := ChunkText(Quoted(body, mark));
    assert chunks[1..] == [] && text + "" == text && ChunkTexts(chunks) == text;
    assert ChunkCodes(chunks) == "" + "";
    SpelledIsClosed(chunks, true);
    assert text[0] == mark;
    assert IsContent(At(Code), text[0], Next(text));
  }
}
