// Command lines of the orchestration recovery step: two POSIX printers and the parser
// that reads a command back (src/cli/orchestration-mutation-recovery.ts and
// src/cli/shell-command-quote.ts).
module ShellWords {
  import opened JavaScriptText
  import opened Wrappers

  predicate EscapableInDouble(c: char) { c == '"' || c == '\\' }

  predicate Escapable(c: char) { c == ' ' || c == '\\' || c == '\'' || c == '"' }

  datatype Quote = Unquoted | Single | Double

  // The words still to come at `s`, given the word being built.
  function Words(s: string, quote: Quote, part: string, started: bool): Option<seq<string>>
    decreases |s|
  {
    if s == "" then
      if quote != Unquoted then None else Some(if started then [part] else [])
    else
      match quote
      case Single =>
        if s[0] == '\'' then Words(s[1..], Unquoted, part, true)
        else Words(s[1..], Single, part + [s[0]], true)
      case Double =>
        if s[0] == '"' then Words(s[1..], Unquoted, part, true)
        else if s[0] == '\\' && 1 < |s| && EscapableInDouble(s[1]) then
          Words(s[2..], Double, part + [s[1]], true)
        else Words(s[1..], Double, part + [s[0]], true)
      case Unquoted =>
        if s[0] == '\'' then Words(s[1..], Single, part, true)
        else if s[0] == '"' then Words(s[1..], Double, part, true)
        else if IsSpace(s[0]) then
          if started then Cons(part, Words(s[1..], Unquoted, "", false))
          else Words(s[1..], Unquoted, part, false)
        else if s[0] == '\\' && 1 < |s| && Escapable(s[1]) then
          Words(s[2..], Unquoted, part + [s[1]], true)
        else Words(s[1..], Unquoted, part + [s[0]], true)
  }

  function Cons(word: string, rest: Option<seq<string>>): Option<seq<string>> {
    match rest
    case None => None
    case Some(words) => Some([word] + words)
  }

  function Append(words: seq<string>, rest: Option<seq<string>>): Option<seq<string>> {
    match rest
    case None => None
    case Some(more) => Some(words + more)
  }

  function Parsed(value: string): Option<seq<string>> {
    match Words(value, Unquoted, "", false)
    case None => None
    case Some(words) => if |words| > 0 then Some(words) else None
  }

  method ParseCommandLine(value: string) returns (result: Option<seq<string>>)
    ensures result == Parsed(value)
  {
    var parts: seq<string> := [];
    var part := "";
    var quote := Unquoted;
    var tokenStarted := false;
    var index := 0;
    AppendNothing(Words(value, Unquoted, "", false));
    assert value[0..] == value;
    while index < |value|
      invariant 0 <= index <= |value|
      invariant !tokenStarted ==> part == ""
      invariant Append(parts, Words(value[index..], quote, part, tokenStarted))
             == Words(value, Unquoted, "", false)
    {
      var character := value[index];
      ghost var here := value[index..];
      assert here[0] == character && here[1..] == value[index + 1..];
      assert 1 < |here| ==> here[1] == value[index + 1] && here[2..] == value[index + 2..];
      if quote == Single {
        if character == '\'' {
          quote := Unquoted;
        } else {
          part := part + [character];
        }
        tokenStarted := true;
        index := index + 1;
        continue;
      }
      if quote == Double {
        if character == '"' {
          quote := Unquoted;
        } else if character == '\\' && index + 1 < |value| && EscapableInDouble(value[index + 1]) {
          index := index + 1;
          part := part + [value[index]];
        } else {
          part := part + [character];
        }
        tokenStarted := true;
        index := index + 1;
        continue;
      }
      if character == '\'' || character == '"' {
        quote := if character == '\'' then Single else Double;
        tokenStarted := true;
      } else if IsSpace(character) {
        if tokenStarted {
          AppendCons(parts, part, Words(value[index + 1..], Unquoted, "", false));
          parts := parts + [part];
          part := "";
          tokenStarted := false;
        }
      } else if character == '\\' && index + 1 < |value| && Escapable(value[index + 1]) {
        index := index + 1;
        part := part + [value[index]];
        tokenStarted := true;
      } else {
        part := part + [character];
        tokenStarted := true;
      }
      index := index + 1;
    }
    assert value[index..] == "";
    if quote != Unquoted {
      return None;
    }
    assert parts + [] == parts;
    if tokenStarted {
      parts := parts + [part];
    }
    return if |parts| > 0 then Some(parts) else None;
  }

  lemma AppendNothing(rest: Option<seq<string>>)
    ensures Append([], rest) == rest
  {
    if rest.Some? {
      assert [] + rest.value == rest.value;
    }
  }

  lemma AppendCons(parts: seq<string>, part: string, rest: Option<seq<string>>)
    ensures Append(parts, Cons(part, rest)) == Append(parts + [part], rest)
  {
    if rest.Some? {
      assert parts + ([part] + rest.value) == parts + [part] + rest.value;
    }
  }

  // ---------------------------------------------------------------------------
  // The grammar of lines: any mixture of bare, escaped and quoted pieces, and gaps

  datatype Piece =
    | Bare(c: char)
    | Escaped(c: char)
    | Backslash               // one that escapes nothing
    | InSingle(body: string)
    | InDouble(raw: string)   // as written between the quotes
    | Gap(c: char)

  predicate WellFormed(p: Piece) {
    match p
    case Bare(c) => !IsSpace(c) && c != '\'' && c != '"' && c != '\\'
    case Escaped(c) => c in " \\'\""
    case Backslash => true
    case InSingle(body) => '\'' !in body
    case InDouble(raw) => Enclosed(raw)
    case Gap(c) => IsSpace(c)
  }

  // No double quote ends the text early, and none is escaped by a backslash at its end.
  predicate Enclosed(raw: string)
    decreases |raw|
  {
    raw == ""
    || (if raw[0] == '\\' then 2 <= |raw| && Enclosed(if raw[1] == '"' || raw[1] == '\\' then raw[2..] else raw[1..])
        else raw[0] != '"' && Enclosed(raw[1..]))
  }

  function Unescaped(raw: string): string
    decreases |raw|
  {
    if raw == "" then ""
    else if raw[0] == '\\' && 2 <= |raw| && (raw[1] == '"' || raw[1] == '\\') then [raw[1]] + Unescaped(raw[2..])
    else [raw[0]] + Unescaped(raw[1..])
  }

  function PieceText(p: Piece): string {
    match p
    case Bare(c) => [c]
    case Escaped(c) => ['\\', c]
    case Backslash => "\\"
    case InSingle(body) => "'" + body + "'"
    case InDouble(raw) => "\"" + raw + "\""
    case Gap(c) => [c]
  }

  function PieceMeaning(p: Piece): string {
    match p
    case Bare(c) => [c]
    case Escaped(c) => [c]
    case Backslash => "\\"
    case InSingle(body) => body
    case InDouble(raw) => Unescaped(raw)
    case Gap(_) => ""
  }

  function Text(line: seq<Piece>): string {
    if line == [] then "" else PieceText(line[0]) + Text(line[1..])
  }

  // A backslash that escapes nothing stands before nothing it could escape.
  predicate Fits(p: Piece, rest: string) {
    p.Backslash? ==> rest == "" || rest[0] !in " \\'\""
  }

  predicate WellFormedLine(line: seq<Piece>) {
    line == [] || (WellFormed(line[0]) && Fits(line[0], Text(line[1..])) && WellFormedLine(line[1..]))
  }

  // The words a line means, given the word that has been begun: gaps separate them.
  function LineWords(line: seq<Piece>, part: string, started: bool): seq<string> {
    if line == [] then if started then [part] else []
    else if line[0].Gap? then (if started then [part] else []) + LineWords(line[1..], if started then "" else part, false)
    else LineWords(line[1..], part + PieceMeaning(line[0]), true)
  }

  lemma {:induction false} ReadSingle(body: string, rest: string, part: string)
    requires '\'' !in body
    ensures Words(body + "'" + rest, Single, part, true) == Words(rest, Unquoted, part + body, true)
  {
    var s := body + "'" + rest;
    if body == "" {
      assert s[0] == '\'' && s[1..] == rest && part + body == part;
    } else {
      assert s[0] == body[0] && s[1..] == body[1..] + "'" + rest;
      ReadSingle(body[1..], rest, part + [body[0]]);
      assert part + [body[0]] + body[1..] == part + body;
    }
  }

  // What one character, or one escaped character, does between double quotes.
  lemma DoubleStep(c: char, next: string, part: string)
    ensures c != '"' && (c == '\\' ==> next != "" && !EscapableInDouble(next[0])) ==>
      Words([c] + next, Double, part, true) == Words(next, Double, part + [c], true)
    ensures EscapableInDouble(c) ==>
      Words(['\\', c] + next, Double, part, true) == Words(next, Double, part + [c], true)
  {
    assert ([c] + next)[1..] == next && (['\\', c] + next)[2..] == next;
  }

  lemma DoubleEnds(rest: string, part: string)
    ensures Words("\"" + rest, Double, part, true) == Words(rest, Unquoted, part, true)
  {
    assert ("\"" + rest)[1..] == rest;
  }

  lemma {:induction false} ReadDouble(raw: string, rest: string, part: string)
    requires Enclosed(raw)
    ensures Words(raw + "\"" + rest, Double, part, true) == Words(rest, Unquoted, part + Unescaped(raw), true)
    decreases |raw|
  {
    hide Words;
    if raw == "" {
      assert raw + "\"" + rest == "\"" + rest && part + "" == part;
      DoubleEnds(rest, part);
    } else if raw[0] == '\\' && EscapableInDouble(raw[1]) {
      var next := raw[2..] + "\"" + rest;
      assert raw + "\"" + rest == ['\\', raw[1]] + next;
      DoubleStep(raw[1], next, part);
      ReadDouble(raw[2..], rest, part + [raw[1]]);
      assert part + [raw[1]] + Unescaped(raw[2..]) == part + ([raw[1]] + Unescaped(raw[2..]));
    } else {
      var next := raw[1..] + "\"" + rest;
      assert raw + "\"" + rest == [raw[0]] + next;
      DoubleStep(raw[0], next, part);
      ReadDouble(raw[1..], rest, part + [raw[0]]);
      assert part + [raw[0]] + Unescaped(raw[1..]) == part + ([raw[0]] + Unescaped(raw[1..]));
    }
  }

  lemma ReadQuoted(p: Piece, rest: string, part: string, started: bool)
    requires WellFormed(p) && (p.InSingle? || p.InDouble?)
    ensures Words(PieceText(p) + rest, Unquoted, part, started) == Words(rest, Unquoted, part + PieceMeaning(p), true)
  {
    var s := PieceText(p) + rest;
    match p {
      case InSingle(body) =>
        assert s[0] == '\'' && s[1..] == body + "'" + rest;
        assert Words(s, Unquoted, part, started) == Words(s[1..], Single, part, true);
        hide Words;
        ReadSingle(body, rest, part);
      case InDouble(raw) =>
        assert s[0] == '"' && s[1..] == raw + "\"" + rest;
        assert Words(s, Unquoted, part, started) == Words(s[1..], Double, part, true);
        hide Words;
        ReadDouble(raw, rest, part);
    }
  }

  lemma ReadOutside(c: char, rest: string, part: string, started: bool)
    ensures WellFormed(Bare(c)) ==>
      Words([c] + rest, Unquoted, part, started) == Words(rest, Unquoted, part + [c], true)
    ensures Escapable(c) ==>
      Words(['\\', c] + rest, Unquoted, part, started) == Words(rest, Unquoted, part + [c], true)
    ensures IsSpace(c) ==>
      Words([c] + rest, Unquoted, part, started)
      == if started then Cons(part, Words(rest, Unquoted, "", false)) else Words(rest, Unquoted, part, false)
    ensures Fits(Backslash, rest) ==>
      Words("\\" + rest, Unquoted, part, started) == Words(rest, Unquoted, part + "\\", true)
  {
    assert ([c] + rest)[1..] == rest && (['\\', c] + rest)[2..] == rest && ("\\" + rest)[1..] == rest;
  }

  // What one piece does to the parser.
  lemma ReadPiece(p: Piece, rest: string, part: string, started: bool)
    requires WellFormed(p) && Fits(p, rest)
    ensures Words(PieceText(p) + rest, Unquoted, part, started) == (
              if !p.Gap? then Words(rest, Unquoted, part + PieceMeaning(p), true)
              else if started then Cons(part, Words(rest, Unquoted, "", false))
              else Words(rest, Unquoted, part, false))
  {
    hide Words;
    match p
    case Bare(c) => ReadOutside(c, rest, part, started);
    case Escaped(c) => ReadOutside(c, rest, part, started);
    case Backslash => ReadOutside('\\', rest, part, started);
    case Gap(c) => ReadOutside(c, rest, part, started);
    case _ => ReadQuoted(p, rest, part, started);
  }

  lemma NothingToRead(part: string, started: bool)
    ensures Words(Text([]), Unquoted, part, started) == Some(LineWords([], part, started))
  {
  }

  // The parser understands every line: it reads the words that the pieces mean.
  lemma {:induction false} ParserReadsEveryStyle(line: seq<Piece>, part: string, started: bool)
    requires WellFormedLine(line)
    ensures Words(Text(line), Unquoted, part, started) == Some(LineWords(line, part, started))
    decreases |line|
  {
    hide Words;
    if line == [] {
      NothingToRead(part, started);
    } else {
      var p, rest := line[0], line[1..];
      ReadPiece(p, Text(rest), part, started);
      if p.Gap? {
        ParserReadsEveryStyle(rest, if started then "" else part, false);
        assert [] + LineWords(rest, part, false) == LineWords(rest, part, false);
      } else {
        ParserReadsEveryStyle(rest, part + PieceMeaning(p), true);
      }
      hide PieceMeaning, PieceText, WellFormedLine;
    }
  }

  // ---------------------------------------------------------------------------
  // Every line that parses is one of these

  lemma {:induction false} CloseSingle(s: string, part: string) returns (body: string, rest: string)
    requires Words(s, Single, part, true).Some?
    ensures '\'' !in body && s == body + "'" + rest
  {
    if s[0] == '\'' {
      body, rest := "", s[1..];
    } else {
      body, rest := CloseSingle(s[1..], part + [s[0]]);
      body := [s[0]] + body;
    }
  }

  lemma EnclosedMore(c: char, raw: string)
    requires Enclosed(raw)
    ensures EscapableInDouble(c) ==> Enclosed(['\\', c] + raw)
    ensures c != '"' && c != '\\' ==> Enclosed([c] + raw)
    ensures raw != "" && !EscapableInDouble(raw[0]) ==> Enclosed("\\" + raw)
  {
    assert (['\\', c] + raw)[2..] == raw && ([c] + raw)[1..] == raw && ("\\" + raw)[1..] == raw;
  }

  lemma {:induction false} CloseDouble(s: string, part: string) returns (raw: string, rest: string)
    requires Words(s, Double, part, true).Some?
    ensures Enclosed(raw) && s == raw + "\"" + rest
    decreases |s|
  {
    hide Enclosed;
    if s[0] == '"' {
      raw, rest := "", s[1..];
      NothingEnclosed();
    } else if s[0] == '\\' && 1 < |s| && EscapableInDouble(s[1]) {
      raw, rest := CloseDouble(s[2..], part + [s[1]]);
      EnclosedMore(s[1], raw);
      raw := ['\\', s[1]] + raw;
    } else {
      raw, rest := CloseDouble(s[1..], part + [s[0]]);
      EnclosedMore(s[0], raw);
      raw := [s[0]] + raw;
    }
  }

  lemma NothingEnclosed()
    ensures Enclosed("")
  {
  }

  // The piece a line starts with, and what follows it.
  lemma FirstOf(s: string, part: string, started: bool) returns (p: Piece, rest: string)
    requires s != "" && Words(s, Unquoted, part, started).Some?
    ensures WellFormed(p) && Fits(p, rest) && s == PieceText(p) + rest
  {
    if s[0] == '\'' {
      var body;
      body, rest := CloseSingle(s[1..], part);
      p := InSingle(body);
    } else if s[0] == '"' {
      var raw;
      raw, rest := CloseDouble(s[1..], part);
      p := InDouble(raw);
    } else if IsSpace(s[0]) {
      p, rest := Gap(s[0]), s[1..];
    } else if s[0] == '\\' && 1 < |s| && Escapable(s[1]) {
      p, rest := Escaped(s[1]), s[2..];
    } else if s[0] == '\\' {
      p, rest := Backslash, s[1..];
    } else {
      p, rest := Bare(s[0]), s[1..];
    }
  }

  lemma ConsSome(word: string, rest: Option<seq<string>>)
    ensures Cons(word, rest).Some? <==> rest.Some?
  {
  }

  lemma PieceIsNotEmpty(p: Piece)
    ensures PieceText(p) != ""
  {
  }

  lemma LineUnfolds(p: Piece, rest: seq<Piece>)
    ensures Text([p] + rest) == PieceText(p) + Text(rest)
    ensures WellFormedLine([p] + rest) <==> WellFormed(p) && Fits(p, Text(rest)) && WellFormedLine(rest)
    ensures forall part, started :: LineWords([p] + rest, part, started) == (
              if p.Gap? then (if started then [part] else []) + LineWords(rest, if started then "" else part, false)
              else LineWords(rest, part + PieceMeaning(p), true))
    ensures Text([]) == "" && WellFormedLine([])
  {
    assert ([p] + rest)[1..] == rest;
    hide PieceText, PieceMeaning, WellFormed, Fits;
  }

  lemma {:induction false} ReadingOf(s: string, part: string, started: bool) returns (line: seq<Piece>)
    requires Words(s, Unquoted, part, started).Some?
    ensures WellFormedLine(line) && Text(line) == s
    decreases |s|
  {
    hide *;
    if s == "" {
      line := [];
      LineUnfolds(Backslash, []);
    } else {
      var p, rest := FirstOf(s, part, started);
      ReadPiece(p, rest, part, started);
      PieceIsNotEmpty(p);
      var later;
      if p.Gap? && started {
        ConsSome(part, Words(rest, Unquoted, "", false));
        later := ReadingOf(rest, "", false);
      } else if p.Gap? {
        later := ReadingOf(rest, part, false);
      } else {
        later := ReadingOf(rest, part + PieceMeaning(p), true);
      }
      line := [p] + later;
      LineUnfolds(p, later);
    }
  }

  // So the parser accepts exactly the lines of this grammar that hold a word, and reads
  // exactly what they mean.
  lemma ParsesExactlyTheGrammar(value: string, words: seq<string>)
    ensures Parsed(value) == Some(words)
       <==> words != []
            && exists line :: WellFormedLine(line) && Text(line) == value && LineWords(line, "", false) == words
  {
    hide Words, WellFormedLine, Text, LineWords;
    if line :| WellFormedLine(line) && Text(line) == value && LineWords(line, "", false) == words {
      ParserReadsEveryStyle(line, "", false);
    }
    if Parsed(value) == Some(words) {
      var line := ReadingOf(value, "", false);
      ParserReadsEveryStyle(line, "", false);
    }
  }

  // ---------------------------------------------------------------------------
  // Words joined by spaces

  function Join(texts: seq<string>): string {
    if texts == [] then ""
    else if |texts| == 1 then texts[0]
    else texts[0] + " " + Join(texts[1..])
  }

  // A piece of a word that fits before anything.
  predicate Closed(p: Piece) {
    WellFormed(p) && !p.Gap? && !p.Backslash?
  }

  predicate AllClosed(word: seq<Piece>) {
    forall k :: 0 <= k < |word| ==> Closed(word[k])
  }

  function Meaning(word: seq<Piece>): string {
    if word == [] then "" else PieceMeaning(word[0]) + Meaning(word[1..])
  }

  lemma {:induction false} WordThen(word: seq<Piece>, rest: seq<Piece>, part: string, started: bool)
    requires AllClosed(word) && WellFormedLine(rest)
    ensures WellFormedLine(word + rest) && Text(word + rest) == Text(word) + Text(rest)
    ensures LineWords(word + rest, part, started) == LineWords(rest, part + Meaning(word), started || word != [])
    decreases |word|
  {
    hide WellFormedLine, LineWords, PieceText, PieceMeaning, WellFormed;
    if word == [] {
      assert word + rest == rest && Text(word) + Text(rest) == Text(rest) && part + Meaning(word) == part;
    } else {
      assert word + rest == [word[0]] + (word[1..] + rest);
      WordThen(word[1..], rest, part + PieceMeaning(word[0]), true);
      LineUnfolds(word[0], word[1..] + rest);
      assert part + PieceMeaning(word[0]) + Meaning(word[1..]) == part + Meaning(word);
      assert PieceText(word[0]) + (Text(word[1..]) + Text(rest)) == Text(word) + Text(rest);
    }
  }

  function LineOf(words: seq<seq<Piece>>): seq<Piece> {
    if words == [] then []
    else if |words| == 1 then words[0]
    else words[0] + ([Gap(' ')] + LineOf(words[1..]))
  }

  // A word that is written as `text` and means `value`.
  predicate Spells(word: seq<Piece>, text: string, value: string) {
    word != [] && AllClosed(word) && Text(word) == text && Meaning(word) == value
  }

  lemma SpelledThen(word: seq<Piece>, text: string, value: string, rest: seq<Piece>)
    requires Spells(word, text, value) && WellFormedLine(rest)
    ensures WellFormedLine(word + rest) && Text(word + rest) == text + Text(rest)
    ensures LineWords(word + rest, "", false) == LineWords(rest, value, true)
  {
    WordThen(word, rest, "", false);
    assert "" + value == value;
    hide WellFormedLine, LineWords, Text;
  }

  lemma GapThen(rest: seq<Piece>, part: string)
    requires WellFormedLine(rest)
    ensures var line := [Gap(' ')] + rest;
            && WellFormedLine(line) && Text(line) == " " + Text(rest)
            && LineWords(line, part, true) == [part] + LineWords(rest, "", false)
  {
    LineUnfolds(Gap(' '), rest);
    hide WellFormedLine, LineWords, Text;
  }

  lemma NoMore(part: string)
    ensures WellFormedLine([]) && Text([]) == "" && LineWords([], part, true) == [part]
  {
  }

  lemma JoinUnfolds(texts: seq<string>, words: seq<seq<Piece>>)
    requires |texts| == |words| > 0
    ensures if |texts| == 1 then Join(texts) == texts[0] && LineOf(words) == words[0]
            else Join(texts) == texts[0] + (" " + Join(texts[1..]))
                 && LineOf(words) == words[0] + ([Gap(' ')] + LineOf(words[1..]))
  {
  }

  lemma {:induction false} JoinedLine(words: seq<seq<Piece>>, texts: seq<string>, command: seq<string>)
    requires |words| == |texts| == |command| > 0
    requires forall k :: 0 <= k < |words| ==> Spells(words[k], texts[k], command[k])
    ensures WellFormedLine(LineOf(words)) && Text(LineOf(words)) == Join(texts)
    ensures LineWords(LineOf(words), "", false) == command
    decreases |words|
  {
    hide *;
    JoinUnfolds(texts, words);
    if |words| == 1 {
      NoMore(command[0]);
      SpelledThen(words[0], texts[0], command[0], []);
      assert words[0] + [] == words[0] && texts[0] + "" == texts[0];
    } else {
      JoinedLine(words[1..], texts[1..], command[1..]);
      GapThen(LineOf(words[1..]), command[0]);
      SpelledThen(words[0], texts[0], command[0], [Gap(' ')] + LineOf(words[1..]));
      assert [command[0]] + command[1..] == command;
    }
  }

  // Printing every value with a printer whose outputs are words, then joining, is
  // undone by the parser.
  lemma ReadSpelled(words: seq<seq<Piece>>, texts: seq<string>, command: seq<string>)
    requires |words| == |texts| == |command| > 0
    requires forall k :: 0 <= k < |words| ==> Spells(words[k], texts[k], command[k])
    ensures Parsed(Join(texts)) == Some(command)
  {
    hide Spells, Join, LineOf, WellFormedLine, LineWords, Text, Words;
    JoinedLine(words, texts, command);
    ParserReadsEveryStyle(LineOf(words), "", false);
  }

  // ---------------------------------------------------------------------------
  // The two POSIX printers

  predicate Alphanumeric(c: char) {
    'a' <= c <= 'z' || 'A' <= c <= 'Z' || '0' <= c <= '9'
  }

  function ReplaceQuotes(value: string, with: string): string {
    if value == "" then ""
    else (if value[0] == '\'' then with else [value[0]]) + ReplaceQuotes(value[1..], with)
  }

  predicate Among(value: string, extra: string) {
    value != "" && forall k :: 0 <= k < |value| ==> Alphanumeric(value[k]) || value[k] in extra
  }

  // shellQuote
  function ShellQuote(value: string): string {
    if Among(value, "_./:@%+=,-") then value
    else "'" + ReplaceQuotes(value, "'\"'\"'") + "'"
  }

  // quoteCliCommandArgument on a POSIX platform
  function QuoteCliCommandArgument(value: string): string {
    if Among(value, "._:/@-") then value
    else "'" + ReplaceQuotes(value, "'\\''") + "'"
  }

  lemma {:induction false} ReplacingNeverShortens(value: string, with: string)
    requires with != ""
    ensures |ReplaceQuotes(value, with)| >= |value|
  {
    if value != "" {
      ReplacingNeverShortens(value[1..], with);
    }
  }

  // A value is printed as it stands exactly when it is not empty and made of letters, digits
  // and the few signs that no shell minds.
  lemma PrintedAsItStands(value: string)
    ensures ShellQuote(value) == value <==>
              value != "" && forall k :: 0 <= k < |value| ==> Alphanumeric(value[k]) || value[k] in "_./:@%+=,-"
    ensures QuoteCliCommandArgument(value) == value <==>
              value != "" && forall k :: 0 <= k < |value| ==> Alphanumeric(value[k]) || value[k] in "._:/@-"
  {
    ReplacingNeverShortens(value, "'\"'\"'");
    ReplacingNeverShortens(value, "'\\''");
    hide ReplaceQuotes, Alphanumeric;
  }

  function BarePieces(value: string): seq<Piece> {
    if value == "" then [] else [Bare(value[0])] + BarePieces(value[1..])
  }

  lemma {:induction false} BarePiecesRead(value: string)
    requires forall k :: 0 <= k < |value| ==> WellFormed(Bare(value[k]))
    ensures Text(BarePieces(value)) == value == Meaning(BarePieces(value))
    ensures AllClosed(BarePieces(value)) && (value != "" ==> BarePieces(value) != [])
  {
    if value != "" {
      BarePiecesRead(value[1..]);
      assert value == [value[0]] + value[1..];
    }
  }

  // A single-quoted value that leaves its quotes to a piece of another style.
  function QuotedPieces(value: string, apostrophe: Piece): (pieces: seq<Piece>)
    ensures pieces != [] && pieces[0].InSingle?
  {
    if value == "" then [InSingle("")]
    else
      var rest := QuotedPieces(value[1..], apostrophe);
      if value[0] == '\'' then [InSingle(""), apostrophe] + rest
      else [InSingle([value[0]] + rest[0].body)] + rest[1..]
  }

  lemma FirstPiece(p: Piece, rest: seq<Piece>)
    ensures Text([p] + rest) == PieceText(p) + Text(rest)
    ensures Meaning([p] + rest) == PieceMeaning(p) + Meaning(rest)
    ensures AllClosed([p] + rest) <==> Closed(p) && AllClosed(rest)
  {
    assert ([p] + rest)[1..] == rest;
    assert forall k :: 0 <= k < |rest| ==> ([p] + rest)[k + 1] == rest[k];
  }

  lemma QuoteApostrophe(middle: string, replaced: string)
    ensures "''" + (middle + ("'" + replaced + "'")) == "'" + ("'" + middle + "'" + replaced) + "'"
  {
    var left := "''" + (middle + ("'" + replaced + "'"));
    var right := "'" + ("'" + middle + "'" + replaced) + "'";
    assert |left| == |right|;
  }

  lemma SpellApostrophe(rest: seq<Piece>, apostrophe: Piece, replaced: string, value: string)
    requires Closed(apostrophe) && PieceMeaning(apostrophe) == "'"
    requires Spells(rest, "'" + replaced + "'", value)
    ensures Spells([InSingle(""), apostrophe] + rest,
                   "'" + ("'" + PieceText(apostrophe) + "'" + replaced) + "'", "'" + value)
  {
    hide *;
    var tail := [apostrophe] + rest;
    var word := [InSingle(""), apostrophe] + rest;
    SpellsIs(rest, "'" + replaced + "'", value);
    SpellsIs(word, "'" + ("'" + PieceText(apostrophe) + "'" + replaced) + "'", "'" + value);
    FirstPiece(apostrophe, rest);
    SingleQuoted("", tail);
    assert [InSingle("")] + tail == word;
    assert "'" + "" + "'" + Text(tail) == "''" + Text(tail) && "" + Meaning(tail) == Meaning(tail);
    QuoteApostrophe(PieceText(apostrophe), replaced);
  }

  // Text abstracted away from pieces: a character put right after the opening quote.
  lemma InsertAfterQuote(c: char, body: string, tail: string, replaced: string)
    requires "'" + body + "'" + tail == "'" + replaced + "'"
    ensures "'" + ([c] + body) + "'" + tail == "'" + ([c] + replaced) + "'"
  {
    assert ("'" + body + "'" + tail)[1..] == body + "'" + tail;
    assert ("'" + replaced + "'")[1..] == replaced + "'";
    assert "'" + ([c] + body) + "'" + tail == "'" + [c] + (body + "'" + tail);
    assert "'" + ([c] + replaced) + "'" == "'" + [c] + (replaced + "'");
  }

  lemma SingleQuoted(body: string, rest: seq<Piece>)
    ensures var word := [InSingle(body)] + rest;
            && Text(word) == "'" + body + "'" + Text(rest) && Meaning(word) == body + Meaning(rest)
            && (AllClosed(word) <==> '\'' !in body && AllClosed(rest))
  {
    FirstPiece(InSingle(body), rest);
    hide Text, Meaning, AllClosed;
  }

  lemma SpellsIs(word: seq<Piece>, text: string, value: string)
    ensures Spells(word, text, value) <==> word != [] && AllClosed(word) && Text(word) == text && Meaning(word) == value
  {
  }

  lemma SpellOrdinary(rest: seq<Piece>, c: char, replaced: string, value: string)
    requires rest != [] && rest[0].InSingle? && c != '\''
    requires Spells(rest, "'" + replaced + "'", value)
    ensures Spells([InSingle([c] + rest[0].body)] + rest[1..], "'" + ([c] + replaced) + "'", [c] + value)
  {
    hide *;
    var body, tail := rest[0].body, rest[1..];
    var word := [InSingle([c] + body)] + tail;
    SpellsIs(rest, "'" + replaced + "'", value);
    SpellsIs(word, "'" + ([c] + replaced) + "'", [c] + value);
    assert [InSingle(body)] + tail == rest;
    SingleQuoted(body, tail);
    SingleQuoted([c] + body, tail);
    InsertAfterQuote(c, body, Text(tail), replaced);
    assert [c] + body + Meaning(tail) == [c] + (body + Meaning(tail));
  }

  lemma {:induction false} QuotedPiecesSpell(value: string, apostrophe: Piece)
    requires Closed(apostrophe) && PieceMeaning(apostrophe) == "'"
    ensures Spells(QuotedPieces(value, apostrophe),
                   "'" + ReplaceQuotes(value, "'" + PieceText(apostrophe) + "'") + "'", value)
  {
    if value == "" {
      FirstPiece(InSingle(""), []);
      assert [InSingle("")] + [] == QuotedPieces(value, apostrophe);
    } else {
      hide Spells;
      var rest := QuotedPieces(value[1..], apostrophe);
      var replaced := ReplaceQuotes(value[1..], "'" + PieceText(apostrophe) + "'");
      QuotedPiecesSpell(value[1..], apostrophe);
      assert [value[0]] + value[1..] == value;
      if value[0] == '\'' {
        SpellApostrophe(rest, apostrophe, replaced, value[1..]);
      } else {
        SpellOrdinary(rest, value[0], replaced, value[1..]);
      }
    }
  }

  lemma ShellQuoteIsAWord(value: string) returns (word: seq<Piece>)
    ensures Spells(word, ShellQuote(value), value)
  {
    if Among(value, "_./:@%+=,-") {
      BarePiecesRead(value);
      word := BarePieces(value);
    } else {
      var apostrophe := InDouble("'");
      assert Enclosed("'") && Unescaped("'") == "'" + Unescaped("");
      QuotedPiecesSpell(value, apostrophe);
      assert "'" + PieceText(apostrophe) + "'" == "'\"'\"'";
      word := QuotedPieces(value, apostrophe);
    }
  }

  lemma QuoteCliCommandArgumentIsAWord(value: string) returns (word: seq<Piece>)
    ensures Spells(word, QuoteCliCommandArgument(value), value)
  {
    if Among(value, "._:/@-") {
      BarePiecesRead(value);
      word := BarePieces(value);
    } else {
      QuotedPiecesSpell(value, Escaped('\''));
      assert "'" + PieceText(Escaped('\'')) + "'" == "'\\''";
      word := QuotedPieces(value, Escaped('\''));
    }
  }

  function ShellQuoted(command: seq<string>): (texts: seq<string>)
    ensures |texts| == |command| && forall k :: 0 <= k < |command| ==> texts[k] == ShellQuote(command[k])
  {
    seq(|command|, k requires 0 <= k < |command| => ShellQuote(command[k]))
  }

  function CliQuoted(command: seq<string>): (texts: seq<string>)
    ensures |texts| == |command| && forall k :: 0 <= k < |command| ==> texts[k] == QuoteCliCommandArgument(command[k])
  {
    seq(|command|, k requires 0 <= k < |command| => QuoteCliCommandArgument(command[k]))
  }

  // renderCommand for a POSIX shell
  function RenderCommand(command: seq<string>): string {
    Join(ShellQuoted(command))
  }

  lemma NothingJoined(texts: seq<string>)
    requires texts == []
    ensures Parsed(Join(texts)) == None
  {
  }

  lemma RenderIs(command: seq<string>)
    ensures RenderCommand(command) == Join(ShellQuoted(command))
  {
    hide Join, ShellQuoted;
  }

  // A rendered recovery command is read back as the same command, whatever strings it
  // holds - unless it is empty.
  lemma RenderRoundTrip(command: seq<string>)
    ensures Parsed(RenderCommand(command)) == Some(command) <==> command != []
  {
    hide *;
    RenderIs(command);
    if command == [] {
      NothingJoined(ShellQuoted(command));
    } else {
      var words: seq<seq<Piece>> := [];
      for i := 0 to |command|
        invariant |words| == i
        invariant forall k :: 0 <= k < i ==> Spells(words[k], ShellQuote(command[k]), command[k])
      {
        var word := ShellQuoteIsAWord(command[i]);
        words := words + [word];
      }
      ReadSpelled(words, ShellQuoted(command), command);
    }
  }

  // The same for the words of the other printer, joined by spaces.
  lemma CliArgumentsRoundTrip(command: seq<string>)
    ensures Parsed(Join(CliQuoted(command))) == Some(command) <==> command != []
  {
    hide *;
    if command == [] {
      NothingJoined(CliQuoted(command));
    } else {
      var words: seq<seq<Piece>> := [];
      for i := 0 to |command|
        invariant |words| == i
        invariant forall k :: 0 <= k < i ==> Spells(words[k], QuoteCliCommandArgument(command[k]), command[k])
      {
        var word := QuoteCliCommandArgumentIsAWord(command[i]);
        words := words + [word];
      }
      ReadSpelled(words, CliQuoted(command), command);
    }
  }
}
