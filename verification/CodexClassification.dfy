// Leading words of a shell command, its launch prefix, and the Codex subcommand it runs
// (src/cli/codex-command-classification.ts).
module CodexClassification {
  import opened JavaScriptText
  import opened Wrappers

  // ---------------------------------------------------------------------------
  // tokenizeLeadingShellWords

  // All words of a command: quotes group, blanks separate, and an empty word is no word.
  function Words(s: string, quote: Option<char>, current: string): seq<string> {
    if s == "" then if current != "" then [current] else []
    else if quote.Some? then
      if s[0] == quote.value then Words(s[1..], None, current) else Words(s[1..], quote, current + [s[0]])
    else if s[0] == '"' || s[0] == '\'' then Words(s[1..], Some(s[0]), current)
    else if IsSpace(s[0]) then (if current != "" then [current] else []) + Words(s[1..], None, "")
    else Words(s[1..], None, current + [s[0]])
  }

  function Take(words: seq<string>, n: nat): seq<string> {
    if |words| <= n then words else words[..n]
  }

  method TokenizeLeadingShellWords(command: string, limit: nat) returns (tokens: seq<string>)
    ensures limit >= 1 ==> tokens == Take(Words(command, None, ""), limit)
    ensures limit == 0 ==> tokens == [] || tokens == Take(Words(command, None, ""), 1)
  {
    tokens := [];
    var current := "";
    var quote: Option<char> := None;
    ghost var all := Words(command, None, "");
    for i := 0 to |command|
      invariant tokens + Words(command[i..], quote, current) == all
      invariant |tokens| < limit || tokens == []
    {
      var ch := command[i];
      ghost var rest := command[i..];
      assert rest[0] == ch && rest[1..] == command[i + 1..];
      if quote.Some? {
        if ch == quote.value {
          quote := None;
        } else {
          current := current + [ch];
        }
        continue;
      }
      if ch == '"' || ch == '\'' {
        quote := Some(ch);
        continue;
      }
      if IsSpace(ch) {
        if current != "" {
          ghost var later := Words(command[i + 1..], None, "");
          assert tokens + ([current] + later) == tokens + [current] + later;
          tokens := tokens + [current];
          if |tokens| >= limit {
            return;
          }
          current := "";
        }
        continue;
      }
      current := current + [ch];
    }
    assert command[|command|..] == "";
    if current != "" && |tokens| < limit {
      tokens := tokens + [current];
    }
  }

  // ---------------------------------------------------------------------------
  // What command lines mean, said without the tokenizer

  // A line in pieces: bare characters, quoted runs, gaps, and at its end perhaps a run whose
  // quote is never closed.
  datatype Piece = Bare(c: char) | Run(mark: char, body: string) | Gap(c: char) | OpenRun(mark: char, body: string)

  predicate IsMark(c: char) { c == '"' || c == '\'' }

  predicate SpelledPiece(p: Piece) {
    match p
    case Bare(c) => !IsSpace(c) && !IsMark(c)
    case Run(mark, body) => IsMark(mark) && mark !in body
    case Gap(c) => IsSpace(c)
    case OpenRun(mark, body) => IsMark(mark) && mark !in body
  }

  function PieceText(p: Piece): string {
    match p
    case Bare(c) => [c]
    case Run(mark, body) => [mark] + (body + [mark])
    case Gap(c) => [c]
    case OpenRun(mark, body) => [mark] + body
  }

  function PieceMeaning(p: Piece): string {
    match p
    case Bare(c) => [c]
    case Run(_, body) => body
    case Gap(_) => ""
    case OpenRun(_, body) => body
  }

  function PieceTexts(line: seq<Piece>): string {
    if line == [] then "" else PieceText(line[0]) + PieceTexts(line[1..])
  }

  predicate SpelledLine(line: seq<Piece>) {
    line == []
    || (SpelledPiece(line[0]) && (line[0].OpenRun? ==> |line| == 1) && SpelledLine(line[1..]))
  }

  // The words of a line, given the one begun: gaps end them, and an empty one is none.
  function LineWords(line: seq<Piece>, current: string): seq<string> {
    if line == [] then WordIfAny(current)
    else if line[0].Gap? then WordIfAny(current) + LineWords(line[1..], "")
    else LineWords(line[1..], current + PieceMeaning(line[0]))
  }

  function WordIfAny(current: string): seq<string> {
    if current != "" then [current] else []
  }

  lemma WordsStart(c: char, t: string, current: string)
    ensures !IsSpace(c) && !IsMark(c) ==> Words([c] + t, None, current) == Words(t, None, current + [c])
    ensures IsMark(c) ==> Words([c] + t, None, current) == Words(t, Some(c), current)
    ensures IsSpace(c) ==> Words([c] + t, None, current) == WordIfAny(current) + Words(t, None, "")
    ensures Words("", None, current) == WordIfAny(current)
    ensures forall mark :: Words([c] + t, Some(mark), current)
                           == if c == mark then Words(t, None, current) else Words(t, Some(mark), current + [c])
    ensures forall mark :: Words("", Some(mark), current) == WordIfAny(current)
  {
    assert ([c] + t)[1..] == t;
  }

  lemma {:induction false} RunIsRead(body: string, mark: char, t: string, current: string)
    requires mark !in body
    ensures Words(body + [mark] + t, Some(mark), current) == Words(t, None, current + body)
    ensures Words(body, Some(mark), current) == WordIfAny(current + body)
    decreases |body|
  {
    hide Words;
    if body == "" {
      WordsStart(mark, t, current);
      assert body + [mark] + t == [mark] + t && current + body == current;
    } else {
      var u := body[1..] + [mark] + t;
      WordsStart(body[0], u, current);
      WordsStart(body[0], body[1..], current);
      RunIsRead(body[1..], mark, t, current + [body[0]]);
      assert body + [mark] + t == [body[0]] + u && [body[0]] + body[1..] == body;
      assert current + [body[0]] + body[1..] == current + body;
    }
  }

  lemma RunPieceIsRead(mark: char, body: string, t: string, current: string)
    requires IsMark(mark) && mark !in body
    ensures Words([mark] + body + [mark] + t, None, current) == Words(t, None, current + body)
    ensures Words([mark] + body, None, current) == Words("", None, current + body)
  {
    hide Words, IsSpace;
    WordsStart(' ', "", current + body);
    WordsStart(mark, body + [mark] + t, current);
    WordsStart(mark, body, current);
    RunIsRead(body, mark, t, current);
    RunIsRead(body, mark, "", current);
    assert [mark] + body + [mark] + t == [mark] + (body + [mark] + t);
  }

  lemma PieceIsRead(p: Piece, t: string, current: string)
    requires SpelledPiece(p) && (p.OpenRun? ==> t == "")
    ensures Words(PieceText(p) + t, None, current)
         == if p.Gap? then WordIfAny(current) + Words(t, None, "") else Words(t, None, current + PieceMeaning(p))
  {
    hide Words, IsSpace, IsMark;
    match p
    case Bare(c) => WordsStart(c, t, current);
    case Gap(c) => WordsStart(c, t, current);
    case Run(mark, body) =>
      RunPieceIsRead(mark, body, t, current);
      assert PieceText(p) + t == [mark] + body + [mark] + t;
    case OpenRun(mark, body) =>
      RunPieceIsRead(mark, body, t, current);
      assert PieceText(p) + t == [mark] + body;
  }

  lemma NothingIsRead(current: string)
    ensures Words(PieceTexts([]), None, current) == LineWords([], current)
  {
  }

  // Every line is read as the words it means.
  lemma {:induction false} LineIsRead(line: seq<Piece>, current: string)
    requires SpelledLine(line)
    ensures Words(PieceTexts(line), None, current) == LineWords(line, current)
    decreases |line|
  {
    hide Words, PieceText, PieceMeaning, SpelledPiece;
    if line == [] {
      NothingIsRead(current);
    } else {
      PieceIsRead(line[0], PieceTexts(line[1..]), current);
      LineIsRead(line[1..], if line[0].Gap? then "" else current + PieceMeaning(line[0]));
    }
  }

  lemma {:induction false} RunOf(s: string, mark: char) returns (body: string, rest: string, closed: bool)
    ensures mark !in body && s == if closed then body + [mark] + rest else body
    ensures !closed ==> rest == ""
  {
    if s == "" {
      body, rest, closed := "", "", false;
    } else if s[0] == mark {
      body, rest, closed := "", s[1..], true;
    } else {
      body, rest, closed := RunOf(s[1..], mark);
      body := [s[0]] + body;
    }
  }

  lemma {:induction false} LineOfText(s: string) returns (line: seq<Piece>)
    ensures SpelledLine(line) && PieceTexts(line) == s
    decreases |s|
  {
    if s == "" {
      line := [];
    } else {
      var p, rest := Bare(s[0]), s[1..];
      if IsMark(s[0]) {
        var body, closed;
        body, rest, closed := RunOf(s[1..], s[0]);
        p := if closed then Run(s[0], body) else OpenRun(s[0], body);
      } else if IsSpace(s[0]) {
        p := Gap(s[0]);
      }
      assert s == PieceText(p) + rest && SpelledPiece(p);
      assert p.OpenRun? ==> rest == "";
      var later := LineOfText(rest);
      line := [p] + later;
      assert line[1..] == later;
      TextIsEmpty(later);
    }
  }

  lemma TextIsEmpty(line: seq<Piece>)
    ensures PieceTexts(line) == "" ==> line == []
  {
  }

  // So every text whatever is a line of this kind, and its words are what the line means.
  lemma WordsExactly(s: string, words: seq<string>)
    ensures Words(s, None, "") == words
       <==> exists line :: SpelledLine(line) && PieceTexts(line) == s && LineWords(line, "") == words
  {
    hide Words, SpelledLine, PieceTexts, LineWords;
    var line := LineOfText(s);
    LineIsRead(line, "");
    forall other | SpelledLine(other) && PieceTexts(other) == s
      ensures LineWords(other, "") == Words(s, None, "")
    {
      LineIsRead(other, "");
    }
  }

  // A word in pieces, and its meaning.
  predicate SpelledWord(word: seq<Piece>) {
    forall k :: 0 <= k < |word| ==> SpelledPiece(word[k]) && (word[k].Bare? || word[k].Run?)
  }

  function Meaning(word: seq<Piece>): string {
    if word == [] then "" else PieceMeaning(word[0]) + Meaning(word[1..])
  }

  predicate AllGaps(gap: seq<Piece>) {
    forall k :: 0 <= k < |gap| ==> gap[k].Gap? && SpelledPiece(gap[k])
  }

  lemma {:induction false} WordThen(word: seq<Piece>, rest: seq<Piece>, current: string)
    requires SpelledWord(word) && SpelledLine(rest)
    ensures SpelledLine(word + rest) && LineWords(word + rest, current) == LineWords(rest, current + Meaning(word))
    decreases |word|
  {
    hide SpelledPiece, PieceMeaning;
    if word == [] {
      assert word + rest == rest && current + "" == current;
    } else {
      assert (word + rest)[1..] == word[1..] + rest;
      WordThen(word[1..], rest, current + PieceMeaning(word[0]));
      assert current + PieceMeaning(word[0]) + Meaning(word[1..]) == current + Meaning(word);
    }
  }

  lemma {:induction false} GapThen(gap: seq<Piece>, rest: seq<Piece>, current: string)
    requires AllGaps(gap) && SpelledLine(rest)
    ensures SpelledLine(gap + rest)
    ensures LineWords(gap + rest, current)
         == if gap == [] then LineWords(rest, current) else WordIfAny(current) + LineWords(rest, "")
    decreases |gap|
  {
    hide SpelledPiece;
    if gap == [] {
      assert gap + rest == rest;
    } else {
      assert (gap + rest)[1..] == gap[1..] + rest;
      GapThen(gap[1..], rest, "");
      assert WordIfAny("") + LineWords(rest, "") == LineWords(rest, "");
    }
  }

  // Words with a gap before each of them and one at the end.
  function LineOf(gaps: seq<seq<Piece>>, words: seq<seq<Piece>>): seq<Piece>
    requires |gaps| == |words| + 1
  {
    if words == [] then gaps[0] else gaps[0] + (words[0] + LineOf(gaps[1..], words[1..]))
  }

  function Meanings(words: seq<seq<Piece>>): (values: seq<string>)
    ensures |values| == |words| && forall k :: 0 <= k < |words| ==> values[k] == Meaning(words[k])
  {
    seq(|words|, k requires 0 <= k < |words| => Meaning(words[k]))
  }

  lemma LineStart()
    ensures SpelledLine([]) && forall current :: LineWords([], current) == WordIfAny(current)
  {
  }

  lemma LineOfUnfolds(gaps: seq<seq<Piece>>, words: seq<seq<Piece>>)
    requires |gaps| == |words| + 1
    ensures LineOf(gaps, words) == if words == [] then gaps[0] else gaps[0] + (words[0] + LineOf(gaps[1..], words[1..]))
  {
  }

  lemma MeaningsUnfold(words: seq<seq<Piece>>)
    ensures Meanings(words) == if words == [] then [] else [Meaning(words[0])] + Meanings(words[1..])
  {
    hide Meaning;
  }

  lemma Regrouped(a: seq<string>, b: string, c: seq<string>)
    ensures a + ([b] + c) == a + [b] + c && [] + c == c
  {
  }

  lemma WordIs(current: string)
    ensures WordIfAny(current) == if current != "" then [current] else []
  {
  }

  // A gap in front of a word, or none at the start.
  lemma GapAndWord(gap: seq<Piece>, word: seq<Piece>, later: seq<Piece>, current: string)
    requires AllGaps(gap) && SpelledWord(word) && SpelledLine(later) && (current != "" ==> gap != [])
    ensures SpelledLine(gap + (word + later))
    ensures LineWords(gap + (word + later), current) == WordIfAny(current) + LineWords(later, Meaning(word))
  {
    hide *;
    WordThen(word, later, "");
    WordThen(word, later, current);
    GapThen(gap, word + later, current);
    WordIs(current);
    assert "" + Meaning(word) == Meaning(word);
    assert [] + LineWords(later, Meaning(word)) == LineWords(later, Meaning(word));
  }

  lemma {:induction false} LineMeans(gaps: seq<seq<Piece>>, words: seq<seq<Piece>>, current: string)
    requires |gaps| == |words| + 1 && forall k :: 0 <= k < |gaps| ==> AllGaps(gaps[k])
    requires forall k :: 0 <= k < |words| ==> SpelledWord(words[k]) && Meaning(words[k]) != ""
    requires forall k :: 0 < k < |words| ==> gaps[k] != []
    requires current != "" && words != [] ==> gaps[0] != []
    ensures SpelledLine(LineOf(gaps, words))
    ensures LineWords(LineOf(gaps, words), current) == WordIfAny(current) + Meanings(words)
    decreases |words|
  {
    hide *;
    LineOfUnfolds(gaps, words);
    MeaningsUnfold(words);
    if words == [] {
      LineStart();
      WordIs("");
      GapThen(gaps[0], [], current);
      assert gaps[0] + [] == gaps[0];
      assert WordIfAny(current) + [] == WordIfAny(current);
    } else {
      LineMeans(gaps[1..], words[1..], Meaning(words[0]));
      GapAndWord(gaps[0], words[0], LineOf(gaps[1..], words[1..]), current);
      WordIs(Meaning(words[0]));
    }
  }

  // Any nonempty words, spelled of bare characters and quoted runs in any mixture, with any
  // blanks between and around them, are read as exactly those words.
  lemma {:induction false} SpelledWordsAreRead(gaps: seq<seq<Piece>>, words: seq<seq<Piece>>)
    requires |gaps| == |words| + 1 && forall k :: 0 <= k < |gaps| ==> AllGaps(gaps[k])
    requires forall k :: 0 <= k < |words| ==> SpelledWord(words[k]) && Meaning(words[k]) != ""
    requires forall k :: 0 < k < |words| ==> gaps[k] != []
    ensures Words(PieceTexts(LineOf(gaps, words)), None, "") == Meanings(words)
  {
    hide *;
    LineMeans(gaps, words, "");
    LineIsRead(LineOf(gaps, words), "");
    WordIs("");
    assert [] + Meanings(words) == Meanings(words);
  }

  // ---------------------------------------------------------------------------
  // stripShellLaunchPrefix

  predicate NameStart(c: char) {
    'a' <= c <= 'z' || 'A' <= c <= 'Z' || c == '_'
  }

  // A name followed by an equals sign.
  predicate IsShellAssignment(token: string) {
    token != "" && NameStart(token[0]) && NameThenEquals(token[1..])
  }

  predicate NameThenEquals(s: string) {
    s != "" && (s[0] == '=' || ((NameStart(s[0]) || '0' <= s[0] <= '9') && NameThenEquals(s[1..])))
  }

  function Basename(command: string): string {
    if command == "" then ""
    else
      var last := command[|command| - 1];
      if last == '/' || last == '\\' then "" else Basename(command[..|command| - 1]) + [last]
  }

  predicate IsEnv(command: string) {
    var base := Basename(command);
    && |base| == 3
    && (base[0] == 'e' || base[0] == 'E')
    && (base[1] == 'n' || base[1] == 'N')
    && (base[2] == 'v' || base[2] == 'V')
  }

  predicate StartsWithDash(token: string) {
    token != "" && token[0] == '-'
  }

  predicate IsUnset(token: string) {
    token == "-u" || token == "--unset"
  }

  function DropAssignments(tokens: seq<string>): seq<string> {
    if tokens != [] && tokens[0] != "" && IsShellAssignment(tokens[0]) then DropAssignments(tokens[1..]) else tokens
  }

  function DropEnvOptions(tokens: seq<string>): seq<string>
    decreases |tokens|
  {
    if tokens == [] || tokens[0] == "" then tokens
    else if IsShellAssignment(tokens[0]) then DropEnvOptions(tokens[1..])
    else if IsUnset(tokens[0]) then DropEnvOptions(if |tokens| >= 2 then tokens[2..] else [])
    else if StartsWithDash(tokens[0]) then DropEnvOptions(tokens[1..])
    else tokens
  }

  function Stripped(tokens: seq<string>): seq<string> {
    var remaining := DropAssignments(tokens);
    if remaining != [] && remaining[0] != "" && IsEnv(remaining[0]) then DropEnvOptions(remaining[1..]) else remaining
  }

  method StripShellLaunchPrefix(tokens: seq<string>) returns (remaining: seq<string>)
    ensures remaining == Stripped(tokens)
  {
    remaining := tokens;
    while remaining != [] && remaining[0] != "" && IsShellAssignment(remaining[0])
      invariant DropAssignments(remaining) == DropAssignments(tokens)
      decreases |remaining|
    {
      remaining := remaining[1..];
    }
    if remaining != [] && remaining[0] != "" && IsEnv(remaining[0]) {
      remaining := remaining[1..];
      ghost var options := remaining;
      while remaining != [] && remaining[0] != ""
        invariant DropEnvOptions(remaining) == DropEnvOptions(options)
        decreases |remaining|
      {
        var token := remaining[0];
        if IsShellAssignment(token) {
          remaining := remaining[1..];
          continue;
        }
        if IsUnset(token) {
          remaining := if |remaining| >= 2 then remaining[2..] else [];
          continue;
        }
        if "--unset=" <= token {
          remaining := remaining[1..];
          continue;
        }
        if StartsWithDash(token) {
          remaining := remaining[1..];
          continue;
        }
        break;
      }
    }
  }

  // What may stand between `env` and the command it launches.
  datatype EnvOption = Assignment(token: string) | Unset(flag: string, name: string) | Dashed(token: string)

  predicate WellFormedOption(o: EnvOption) {
    match o
    case Assignment(token) => IsShellAssignment(token)
    case Unset(flag, _) => IsUnset(flag)
    case Dashed(token) => StartsWithDash(token) && !IsUnset(token)
  }

  function OptionText(o: EnvOption): seq<string> {
    match o
    case Assignment(token) => [token]
    case Unset(flag, name) => [flag, name]
    case Dashed(token) => [token]
  }

  function OptionTexts(options: seq<EnvOption>): seq<string> {
    if options == [] then [] else OptionText(options[0]) + OptionTexts(options[1..])
  }

  predicate AllAssignments(tokens: seq<string>) {
    forall k :: 0 <= k < |tokens| ==> IsShellAssignment(tokens[k])
  }

  lemma {:induction false} DropAssignmentsPrefix(assignments: seq<string>, rest: seq<string>)
    requires AllAssignments(assignments)
    requires rest == [] || !IsShellAssignment(rest[0])
    ensures DropAssignments(assignments + rest) == rest
  {
    if assignments == [] {
      assert assignments + rest == rest;
    } else {
      assert (assignments + rest)[1..] == assignments[1..] + rest;
      DropAssignmentsPrefix(assignments[1..], rest);
    }
  }

  lemma DashIsNoAssignment(token: string)
    ensures StartsWithDash(token) ==> !IsShellAssignment(token) && token != ""
    ensures IsUnset(token) ==> StartsWithDash(token)
    ensures IsShellAssignment(token) ==> token != ""
  {
  }

  lemma DropOption(o: EnvOption, rest: seq<string>)
    requires WellFormedOption(o)
    ensures DropEnvOptions(OptionText(o) + rest) == DropEnvOptions(rest)
  {
    DashIsNoAssignment(OptionText(o)[0]);
    hide IsShellAssignment, StartsWithDash, IsUnset;
    assert (OptionText(o) + rest)[|OptionText(o)|..] == rest;
  }

  lemma DropNothing(rest: seq<string>)
    requires rest == [] || (!IsShellAssignment(rest[0]) && !StartsWithDash(rest[0]))
    ensures DropEnvOptions(rest) == rest
  {
  }

  lemma {:induction false} DropEnvOptionsPrefix(options: seq<EnvOption>, rest: seq<string>)
    requires forall k :: 0 <= k < |options| ==> WellFormedOption(options[k])
    requires rest == [] || (!IsShellAssignment(rest[0]) && !StartsWithDash(rest[0]))
    ensures DropEnvOptions(OptionTexts(options) + rest) == rest
    decreases |options|
  {
    hide DropEnvOptions, WellFormedOption, OptionText, IsShellAssignment, StartsWithDash;
    if options == [] {
      assert OptionTexts(options) + rest == rest;
      DropNothing(rest);
    } else {
      assert OptionTexts(options) + rest == OptionText(options[0]) + (OptionTexts(options[1..]) + rest);
      DropOption(options[0], OptionTexts(options[1..]) + rest);
      DropEnvOptionsPrefix(options[1..], rest);
    }
  }

  lemma StrippedWithoutEnv(tokens: seq<string>, command: seq<string>)
    requires DropAssignments(tokens) == command && (command == [] || !IsEnv(command[0]))
    ensures Stripped(tokens) == command
  {
    hide DropAssignments, IsEnv;
  }

  lemma StrippedWithEnv(tokens: seq<string>, env: string, rest: seq<string>)
    requires DropAssignments(tokens) == [env] + rest && IsEnv(env)
    ensures Stripped(tokens) == DropEnvOptions(rest)
  {
    EnvIsNotEmpty(env);
    hide DropAssignments, IsEnv, DropEnvOptions;
    assert ([env] + rest)[1..] == rest;
  }

  lemma EnvIsNotEmpty(command: string)
    requires IsEnv(command)
    ensures command != ""
  {
  }

  // Any assignments, and any `env` with any options, are stripped, and a command that
  // starts with neither a dash nor an assignment is left as it was.
  lemma StripLeavesCommand(assignments: seq<string>, env: Option<string>, options: seq<EnvOption>, command: seq<string>)
    requires AllAssignments(assignments)
    requires forall k :: 0 <= k < |options| ==> WellFormedOption(options[k])
    requires command == [] || (!IsShellAssignment(command[0]) && !StartsWithDash(command[0]))
    requires if env.Some? then IsEnv(env.value) && !IsShellAssignment(env.value)
             else options == [] && (command == [] || !IsEnv(command[0]))
    ensures Stripped(assignments + (if env.Some? then [env.value] + OptionTexts(options) else []) + command) == command
  {
    hide Stripped, DropAssignments, DropEnvOptions, IsEnv, IsShellAssignment, StartsWithDash, WellFormedOption, OptionTexts,
      AllAssignments;
    if env.None? {
      assert assignments + [] + command == assignments + command;
      DropAssignmentsPrefix(assignments, command);
      StrippedWithoutEnv(assignments + command, command);
    } else {
      var rest := OptionTexts(options) + command;
      assert assignments + ([env.value] + OptionTexts(options)) + command == assignments + ([env.value] + rest);
      DropAssignmentsPrefix(assignments, [env.value] + rest);
      DropEnvOptionsPrefix(options, command);
      StrippedWithEnv(assignments + ([env.value] + rest), env.value, rest);
    }
  }

  // ---------------------------------------------------------------------------
  // findCodexSubcommand

  datatype Subcommand = Subcommand(value: string, index: nat)

  function OptionName(token: string): string {
    if token == "" || token[0] == '=' then "" else [token[0]] + OptionName(token[1..])
  }

  predicate IsHelpFlag(token: string) { token == "--help" || token == "-h" }

  predicate IsVersionFlag(token: string) { token == "--version" || token == "-V" }

  // The search from the start of `rest`, whose first token has the given index.
  function Find(rest: seq<string>, index: nat, withValues: set<string>, switches: set<string>): Option<Subcommand>
    decreases |rest|
  {
    if rest == [] then None
    else
      var token, name := rest[0], OptionName(rest[0]);
      if token == "--" then
        if |rest| > 1 && rest[1] != "" then Some(Subcommand("<prompt>", index + 1)) else None
      else if IsHelpFlag(name) || IsVersionFlag(name) then
        Some(Subcommand(if IsVersionFlag(name) then "version" else "help", index))
      else if name in withValues then
        if name == token then Find(if |rest| >= 2 then rest[2..] else [], index + 2, withValues, switches)
        else Find(rest[1..], index + 1, withValues, switches)
      else if name in switches then Find(rest[1..], index + 1, withValues, switches)
      else Some(Subcommand(token, index))
  }

  method FindCodexSubcommand(tokens: seq<string>, startIndex: nat, withValues: set<string>, switches: set<string>)
    returns (found: Option<Subcommand>)
    ensures found ==
      if startIndex <= |tokens| then Find(tokens[startIndex..], startIndex, withValues, switches) else None
  {
    var i := startIndex;
    while i < |tokens|
      invariant startIndex <= i
      invariant startIndex <= |tokens| ==>
        Find(tokens[startIndex..], startIndex, withValues, switches)
        == Find(if i <= |tokens| then tokens[i..] else [], i, withValues, switches)
    {
      var token := tokens[i];
      ghost var rest := tokens[i..];
      assert rest[0] == token && rest[1..] == tokens[i + 1..];
      assert |rest| >= 2 ==> rest[1] == tokens[i + 1] && rest[2..] == tokens[i + 2..];
      if token == "--" {
        return if i + 1 < |tokens| && tokens[i + 1] != "" then Some(Subcommand("<prompt>", i + 1)) else None;
      }
      var optionName := OptionName(token);
      if IsHelpFlag(optionName) || IsVersionFlag(optionName) {
        return Some(Subcommand(if IsVersionFlag(optionName) then "version" else "help", i));
      }
      if optionName in withValues {
        if optionName == token {
          i := i + 1;
        }
        i := i + 1;
        continue;
      }
      if optionName in switches {
        i := i + 1;
        continue;
      }
      return Some(Subcommand(token, i));
    }
    return None;
  }

  // A flag with all that belongs to it.
  datatype Flag = Valued(name: string, value: string) | Single(token: string)

  predicate CompleteFlag(f: Flag, withValues: set<string>, switches: set<string>) {
    var name := OptionName(FlagTexts(f)[0]);
    && FlagTexts(f)[0] != "--" && !IsHelpFlag(name) && !IsVersionFlag(name)
    && (match f
        case Valued(text, _) => text in withValues && name == text
        case Single(token) => (name in withValues && name != token) || (name !in withValues && name in switches))
  }

  function FlagTexts(f: Flag): (texts: seq<string>)
    ensures |texts| >= 1
  {
    match f
    case Valued(name, value) => [name, value]
    case Single(token) => [token]
  }

  function AllFlagTexts(flags: seq<Flag>): seq<string> {
    if flags == [] then [] else FlagTexts(flags[0]) + AllFlagTexts(flags[1..])
  }

  lemma FlagIsSkipped(f: Flag, rest: seq<string>, index: nat, withValues: set<string>, switches: set<string>)
    requires CompleteFlag(f, withValues, switches)
    ensures Find(FlagTexts(f) + rest, index, withValues, switches)
         == Find(rest, index + |FlagTexts(f)|, withValues, switches)
  {
    var all := FlagTexts(f) + rest;
    assert all[|FlagTexts(f)|..] == rest && all[0] == FlagTexts(f)[0];
  }

  lemma {:induction false} FlagsAreSkipped(flags: seq<Flag>, rest: seq<string>, index: nat,
                                           withValues: set<string>, switches: set<string>)
    requires forall k :: 0 <= k < |flags| ==> CompleteFlag(flags[k], withValues, switches)
    ensures Find(AllFlagTexts(flags) + rest, index, withValues, switches)
         == Find(rest, index + |AllFlagTexts(flags)|, withValues, switches)
    decreases |flags|
  {
    hide *;
    FlagTextsSplit(flags, rest);
    if flags != [] {
      FlagIsSkipped(flags[0], AllFlagTexts(flags[1..]) + rest, index, withValues, switches);
      FlagsAreSkipped(flags[1..], rest, index + |FlagTexts(flags[0])|, withValues, switches);
    }
  }

  lemma FlagTextsSplit(flags: seq<Flag>, rest: seq<string>)
    ensures flags == [] ==> AllFlagTexts(flags) == [] && AllFlagTexts(flags) + rest == rest
    ensures flags != [] ==>
      && AllFlagTexts(flags) + rest == FlagTexts(flags[0]) + (AllFlagTexts(flags[1..]) + rest)
      && |AllFlagTexts(flags)| == |FlagTexts(flags[0])| + |AllFlagTexts(flags[1..])|
  {
    hide FlagTexts;
  }

  function Shifted(found: Option<Subcommand>, places: nat): Option<Subcommand> {
    match found
    case None => None
    case Some(sub) => Some(Subcommand(sub.value, sub.index + places))
  }

  lemma {:induction false} FindShifts(rest: seq<string>, index: nat, more: nat,
                                      withValues: set<string>, switches: set<string>)
    ensures Find(rest, index + more, withValues, switches) == Shifted(Find(rest, index, withValues, switches), more)
    decreases |rest|
  {
    if rest != [] {
      FindShifts(rest[1..], index + 1, more, withValues, switches);
      if |rest| >= 2 {
        FindShifts(rest[2..], index + 2, more, withValues, switches);
      } else {
        FindShifts([], index + 2, more, withValues, switches);
      }
    }
  }

  // Known complete flags before a subcommand - other than help and version - only move
  // where it is found.
  lemma FlagsOnlyShift(flags: seq<Flag>, rest: seq<string>, withValues: set<string>, switches: set<string>)
    requires forall k :: 0 <= k < |flags| ==> CompleteFlag(flags[k], withValues, switches)
    ensures Find(AllFlagTexts(flags) + rest, 0, withValues, switches)
         == Shifted(Find(rest, 0, withValues, switches), |AllFlagTexts(flags)|)
  {
    FlagsAreSkipped(flags, rest, 0, withValues, switches);
    FindShifts(rest, 0, |AllFlagTexts(flags)|, withValues, switches);
  }

  // What is found at a token that stands behind complete flags: a prompt behind two dashes,
  // help or version by their flags, nothing at a flag whose value is missing, and the token
  // itself if it is no known flag.
  predicate FoundAt(found: Option<Subcommand>, token: string, more: seq<string>, n: nat,
                    withValues: set<string>, switches: set<string>) {
    if token == "--" then found == if more != [] && more[0] != "" then Some(Subcommand("<prompt>", n + 1)) else None
    else if IsHelpFlag(token) then found == Some(Subcommand("help", n))
    else if IsVersionFlag(token) then found == Some(Subcommand("version", n))
    else
      && ('=' !in token && token in withValues && more == [] ==> found == None)
      && ('=' !in token && token !in withValues && token !in switches ==> found == Some(Subcommand(token, n)))
  }

  lemma FindBehindFlags(flags: seq<Flag>, token: string, more: seq<string>, withValues: set<string>, switches: set<string>)
    requires forall k :: 0 <= k < |flags| ==> CompleteFlag(flags[k], withValues, switches)
    ensures FoundAt(Find(AllFlagTexts(flags) + ([token] + more), 0, withValues, switches),
                    token, more, |AllFlagTexts(flags)|, withValues, switches)
    ensures Find(AllFlagTexts(flags), 0, withValues, switches) == None
  {
    hide *;
    FlagsAreSkipped(flags, [token] + more, 0, withValues, switches);
    FlagsAreSkipped(flags, [], 0, withValues, switches);
    assert AllFlagTexts(flags) + [] == AllFlagTexts(flags);
    FindHead(token, more, |AllFlagTexts(flags)|, withValues, switches);
  }

  lemma FindUnfolds(token: string, more: seq<string>, n: nat, withValues: set<string>, switches: set<string>)
    ensures Find([token] + more, n, withValues, switches) == (
              var name := OptionName(token);
              if token == "--" then if more != [] && more[0] != "" then Some(Subcommand("<prompt>", n + 1)) else None
              else if IsHelpFlag(name) || IsVersionFlag(name) then
                Some(Subcommand(if IsVersionFlag(name) then "version" else "help", n))
              else if name in withValues then
                if name == token then Find(if more != [] then more[1..] else [], n + 2, withValues, switches)
                else Find(more, n + 1, withValues, switches)
              else if name in switches then Find(more, n + 1, withValues, switches)
              else Some(Subcommand(token, n)))
    ensures Find([], n, withValues, switches) == None
  {
    hide OptionName, IsHelpFlag, IsVersionFlag;
    var rest := [token] + more;
    assert rest[1..] == more && (more != [] ==> rest[2..] == more[1..]);
  }

  lemma NamedFlags(token: string)
    ensures IsHelpFlag(token) || IsVersionFlag(token) ==> '=' !in token
    ensures !(IsHelpFlag(token) && IsVersionFlag(token))
  {
  }

  lemma FindHead(token: string, more: seq<string>, n: nat, withValues: set<string>, switches: set<string>)
    ensures FoundAt(Find([token] + more, n, withValues, switches), token, more, n, withValues, switches)
    ensures Find([], n, withValues, switches) == None
  {
    hide Find, OptionName, IsHelpFlag, IsVersionFlag;
    FindUnfolds(token, more, n, withValues, switches);
    NothingFound(n + 2, withValues, switches);
    NamedFlags(token);
    if '=' !in token {
      NameWithoutEquals(token);
    }
  }

  // ---------------------------------------------------------------------------
  // The verdict: does this command need an interactive Codex terminal

  const GLOBAL_FLAGS_WITH_VALUES: set<string> := {
    "--config", "-c", "--enable", "--disable", "--remote", "--remote-auth-token-env", "--image", "-i",
    "--model", "-m", "--local-provider", "--profile", "-p", "--sandbox", "-s", "--cd", "-C", "--add-dir",
    "--ask-for-approval", "-a"
  }

  const GLOBAL_BOOLEAN_FLAGS: set<string> := {
    "--oss", "--dangerously-bypass-approvals-and-sandbox", "--search", "--no-alt-screen",
    "--help", "-h", "--version", "-V"
  }

  const FLAGS_WITH_VALUES: set<string> := {"-c", "--config", "--enable", "--disable"}

  const LOGIN_BOOLEAN_FLAGS: set<string> := {"--with-api-key", "--with-access-token", "--device-auth", "--help", "-h"}

  const CLOUD_BOOLEAN_FLAGS: set<string> := {"--help", "-h", "--version", "-V"}

  const NON_INTERACTIVE: set<string> := {
    "exec", "e", "review", "logout", "mcp", "plugin", "mcp-server", "app-server", "remote-control", "app",
    "completion", "update", "doctor", "sandbox", "debug", "execpolicy", "apply", "a", "cloud", "cloud-tasks",
    "responses-api-proxy", "stdio-to-uds", "exec-server", "features", "help", "version"
  }

  // Lower case, as far as it can yield an ASCII letter.
  function Lower(s: string): string {
    seq(|s|, k requires 0 <= k < |s| => LowerChar(s[k]))
  }

  function LowerChar(c: char): char {
    if 'A' <= c <= 'Z' then 'a' + (c - 'A') else if c == '\U{212A}' then 'k' else c
  }

  predicate IsCodexExecutable(command: string) {
    Lower(Basename(command)) in {"codex", "codex.exe", "codex.cmd"}
  }

  // What follows the subcommand decides for `login` and `cloud`.
  predicate NonInteractiveAfter(subcommand: string, after: seq<string>) {
    var name := Lower(subcommand);
    if name == "login" then
      var login := Find(after, 0, FLAGS_WITH_VALUES, LOGIN_BOOLEAN_FLAGS);
      || (exists k :: 0 <= k < |after| && (after[k] == "--with-api-key" || after[k] == "--with-access-token"))
      || (exists k :: 0 <= k < |after| && IsHelpFlag(after[k]))
      || (login.Some? && Lower(login.value.value) in {"status", "help"})
    else if name == "cloud" then
      var cloud := Find(after, 0, FLAGS_WITH_VALUES, CLOUD_BOOLEAN_FLAGS);
      || (exists k :: 0 <= k < |after| && (IsHelpFlag(after[k]) || IsVersionFlag(after[k])))
      || (cloud.Some? && Lower(cloud.value.value) in {"exec", "status", "list", "apply", "diff", "help"})
    else name in NON_INTERACTIVE
  }

  // isNonInteractiveCodexSubcommand; the executable is the first token.
  predicate IsNonInteractive(tokens: seq<string>)
    requires tokens != []
  {
    Decides(tokens, Find(tokens[1..], 1, GLOBAL_FLAGS_WITH_VALUES, GLOBAL_BOOLEAN_FLAGS))
  }

  predicate Decides(tokens: seq<string>, found: Option<Subcommand>) {
    && found.Some?
    && NonInteractiveAfter(found.value.value, if found.value.index < |tokens| then tokens[found.value.index + 1..] else [])
  }

  // The verdict on a list of words: an interactive Codex command wants its own terminal.
  predicate Verdict(words: seq<string>) {
    var tokens := Stripped(words);
    tokens != [] && IsCodexExecutable(tokens[0]) && !IsNonInteractive(tokens)
  }

  const WORD_LIMIT := 32

  // All words of a command line.
  function WordsOf(command: string): seq<string> {
    Words(Trim(command), None, "")
  }

  // shouldUseRendererBackedCodexTerminal: only the leading words are looked at.
  predicate UsesRendererBackedTerminal(command: string) {
    Verdict(Take(WordsOf(command), WORD_LIMIT))
  }

  // No word is empty, so filtering out empty words removes none.
  lemma {:induction false} WordsAreNonEmpty(s: string, quote: Option<char>, current: string)
    ensures forall w <- Words(s, quote, current) :: w != ""
    decreases |s|
  {
    if s != "" {
      WordsAreNonEmpty(s[1..], quote, current);
      WordsAreNonEmpty(s[1..], quote, current + [s[0]]);
      WordsAreNonEmpty(s[1..], None, current);
      WordsAreNonEmpty(s[1..], Some(s[0]), current);
      WordsAreNonEmpty(s[1..], None, "");
      WordsAreNonEmpty(s[1..], None, current + [s[0]]);
    }
  }

  method ShouldUseRendererBackedCodexTerminal(command: string) returns (result: bool)
    ensures result == UsesRendererBackedTerminal(command)
  {
    hide Words, Trim, DropAssignments, DropEnvOptions, IsNonInteractive, IsCodexExecutable, IsEnv;
    var tokens := TokenizeLeadingShellWords(Trim(command), WORD_LIMIT);
    tokens := StripShellLaunchPrefix(tokens);
    if tokens == [] || !IsCodexExecutable(tokens[0]) {
      return false;
    }
    return !IsNonInteractive(tokens);
  }

  lemma {:induction false} FoundInside(rest: seq<string>, index: nat, withValues: set<string>, switches: set<string>)
    ensures Find(rest, index, withValues, switches).Some? ==>
      index <= Find(rest, index, withValues, switches).value.index < index + |rest|
    decreases |rest|
  {
    if rest != [] {
      FoundInside(rest[1..], index + 1, withValues, switches);
      if |rest| >= 2 {
        FoundInside(rest[2..], index + 2, withValues, switches);
      }
    }
  }

  lemma ShiftedDecides(executable: string, texts: seq<string>, rest: seq<string>, found: Option<Subcommand>)
    requires found.Some? ==> 1 <= found.value.index < 1 + |rest|
    ensures Decides([executable] + texts + rest, Shifted(found, |texts|)) == Decides([executable] + rest, found)
  {
    hide NonInteractiveAfter;
    if found.Some? {
      var i := found.value.index;
      assert ([executable] + texts + rest)[i + |texts| + 1..] == ([executable] + rest)[i + 1..];
    }
  }

  lemma FlagsDoNotDecide(executable: string, flags: seq<Flag>, rest: seq<string>,
                         withValues: set<string>, switches: set<string>)
    requires forall k :: 0 <= k < |flags| ==> CompleteFlag(flags[k], withValues, switches)
    ensures var long, short := [executable] + AllFlagTexts(flags) + rest, [executable] + rest;
            Decides(long, Find(long[1..], 1, withValues, switches)) == Decides(short, Find(short[1..], 1, withValues, switches))
  {
    hide *;
    var texts := AllFlagTexts(flags);
    var long, short := [executable] + texts + rest, [executable] + rest;
    assert long[1..] == texts + rest && short[1..] == rest;
    FlagsAreSkipped(flags, rest, 1, withValues, switches);
    FindShifts(rest, 1, |texts|, withValues, switches);
    FoundInside(rest, 1, withValues, switches);
    ShiftedDecides(executable, texts, rest, Find(rest, 1, withValues, switches));
  }

  lemma {:induction false} EnvIsNotCodex(token: string)
    requires IsEnv(token)
    ensures !IsCodexExecutable(token)
  {
    assert |Lower(Basename(token))| == 3;
  }

  // A command line with its launch prefix, its executable, complete flags and the rest.
  datatype Launch = Launch(assignments: seq<string>, env: Option<string>, options: seq<EnvOption>,
                           executable: string, flags: seq<Flag>, rest: seq<string>)

  predicate WellFormedLaunch(l: Launch) {
    && WellFormedPrefix(l)
    && IsCodexExecutable(l.executable) && !IsShellAssignment(l.executable) && !StartsWithDash(l.executable)
    && (forall k :: 0 <= k < |l.flags| ==> CompleteFlag(l.flags[k], GLOBAL_FLAGS_WITH_VALUES, GLOBAL_BOOLEAN_FLAGS))
  }

  predicate WellFormedPrefix(l: Launch) {
    && AllAssignments(l.assignments)
    && (forall k :: 0 <= k < |l.options| ==> WellFormedOption(l.options[k]))
    && (if l.env.Some? then IsEnv(l.env.value) && !IsShellAssignment(l.env.value) else l.options == [])
  }

  function PrefixTexts(l: Launch): seq<string> {
    l.assignments + (if l.env.Some? then [l.env.value] + OptionTexts(l.options) else [])
  }

  function LaunchTexts(l: Launch): seq<string> {
    PrefixTexts(l) + ([l.executable] + AllFlagTexts(l.flags) + l.rest)
  }

  lemma CommandIsStripped(l: Launch, command: seq<string>)
    requires WellFormedLaunch(l) && command != [] && command[0] == l.executable
    ensures Stripped(PrefixTexts(l) + command) == command == Stripped(command)
  {
    if IsEnv(l.executable) {
      EnvIsNotCodex(l.executable);
    }
    hide IsEnv, IsCodexExecutable, IsShellAssignment, StartsWithDash, Stripped, AllAssignments, WellFormedOption,
      CompleteFlag, OptionTexts;
    StripLeavesCommand(l.assignments, l.env, l.options, command);
    NoAssignments();
    StripLeavesCommand([], None, [], command);
    assert [] + [] + command == command;
  }

  lemma NoAssignments()
    ensures AllAssignments([])
  {
  }

  lemma VerdictOfStripped(words: seq<string>, command: seq<string>)
    requires command != [] && Stripped(words) == command && IsCodexExecutable(command[0])
    ensures Verdict(words) == !Decides(command, Find(command[1..], 1, GLOBAL_FLAGS_WITH_VALUES, GLOBAL_BOOLEAN_FLAGS))
  {
    hide Stripped, IsCodexExecutable, Decides, Find;
  }

  // As long as all words are looked at, neither the launch prefix nor complete flags count.
  lemma {:induction false} VerdictOnAllWords(l: Launch)
    requires WellFormedLaunch(l)
    ensures Verdict(LaunchTexts(l)) == Verdict([l.executable] + l.rest)
  {
    var long, short := [l.executable] + AllFlagTexts(l.flags) + l.rest, [l.executable] + l.rest;
    CommandIsStripped(l, long);
    CommandIsStripped(l, short);
    VerdictOfStripped(LaunchTexts(l), long);
    VerdictOfStripped(short, short);
    hide IsEnv, IsCodexExecutable, IsShellAssignment, Decides, Find, Stripped, Verdict, CompleteFlag, AllFlagTexts,
      WellFormedPrefix, PrefixTexts;
    FlagsDoNotDecide(l.executable, l.flags, l.rest, GLOBAL_FLAGS_WITH_VALUES, GLOBAL_BOOLEAN_FLAGS);
  }

  // ---------------------------------------------------------------------------
  // What the limit on the words does

  // A prefix that is cut off is stripped to nothing.
  lemma {:induction false} CutAssignments(assignments: seq<string>)
    requires AllAssignments(assignments)
    ensures DropAssignments(assignments) == []
  {
    assert assignments + [] == assignments;
    DropAssignmentsPrefix(assignments, []);
  }

  lemma OptionAlone(o: EnvOption)
    requires WellFormedOption(o)
    ensures DropEnvOptions([OptionText(o)[0]]) == [] && 1 <= |OptionText(o)| <= 2 && DropEnvOptions([]) == []
  {
    DashIsNoAssignment(OptionText(o)[0]);
    hide IsShellAssignment, StartsWithDash, IsUnset;
    assert [OptionText(o)[0]][1..] == [];
  }

  lemma {:induction false} CutOptions(options: seq<EnvOption>, k: nat)
    requires forall i :: 0 <= i < |options| ==> WellFormedOption(options[i])
    requires k <= |OptionTexts(options)|
    ensures DropEnvOptions(OptionTexts(options)[..k]) == []
    decreases |options|
  {
    hide DropEnvOptions, WellFormedOption, OptionText;
    if options == [] || k == 0 {
      assert OptionTexts(options)[..k] == [];
      NoOptions();
    } else {
      var first, later := OptionText(options[0]), OptionTexts(options[1..]);
      OptionAlone(options[0]);
      if k < |first| {
        assert OptionTexts(options)[..k] == [first[0]];
      } else {
        assert OptionTexts(options)[..k] == first + later[..k - |first|];
        DropOption(options[0], later[..k - |first|]);
        CutOptions(options[1..], k - |first|);
      }
    }
  }

  lemma NoOptions()
    ensures DropEnvOptions([]) == []
  {
  }

  lemma StrippedCases(tokens: seq<string>)
    ensures Stripped(tokens) == (
              var remaining := DropAssignments(tokens);
              if remaining != [] && remaining[0] != "" && IsEnv(remaining[0]) then DropEnvOptions(remaining[1..])
              else remaining)
  {
  }

  lemma EnvIsNamed(token: string)
    ensures IsEnv(token) ==> token != ""
  {
  }

  lemma CutPrefixIsStripped(l: Launch, k: nat)
    requires WellFormedPrefix(l) && k <= |PrefixTexts(l)|
    ensures Stripped(PrefixTexts(l)[..k]) == []
  {
    hide DropAssignments, DropEnvOptions, Stripped, IsEnv, IsShellAssignment, WellFormedOption, OptionTexts;
    var cut := PrefixTexts(l)[..k];
    StrippedCases(cut);
    if k <= |l.assignments| {
      assert cut == l.assignments[..k];
      CutAssignments(l.assignments[..k]);
    } else {
      var texts := OptionTexts(l.options)[..k - |l.assignments| - 1];
      assert cut == l.assignments + ([l.env.value] + texts);
      DropAssignmentsPrefix(l.assignments, [l.env.value] + texts);
      EnvIsNamed(l.env.value);
      assert ([l.env.value] + texts)[1..] == texts;
      CutOptions(l.options, k - |l.assignments| - 1);
    }
  }

  // Flags that are cut off lead to no subcommand.
  lemma {:induction false} CutFlags(flags: seq<Flag>, k: nat, index: nat, withValues: set<string>, switches: set<string>)
    requires forall i :: 0 <= i < |flags| ==> CompleteFlag(flags[i], withValues, switches)
    requires k <= |AllFlagTexts(flags)|
    ensures Find(AllFlagTexts(flags)[..k], index, withValues, switches) == None
    decreases |flags|
  {
    hide Find, CompleteFlag, FlagTexts;
    NothingFound(index, withValues, switches);
    if flags == [] || k == 0 {
      assert AllFlagTexts(flags)[..k] == [];
    } else {
      var first, later := FlagTexts(flags[0]), AllFlagTexts(flags[1..]);
      FlagAlone(flags[0], index, withValues, switches);
      if k < |first| {
        assert AllFlagTexts(flags)[..k] == [first[0]];
      } else {
        assert AllFlagTexts(flags)[..k] == first + later[..k - |first|];
        FlagIsSkipped(flags[0], later[..k - |first|], index, withValues, switches);
        CutFlags(flags[1..], k - |first|, index + |first|, withValues, switches);
      }
    }
  }

  lemma NothingFound(index: nat, withValues: set<string>, switches: set<string>)
    ensures Find([], index, withValues, switches) == None
  {
  }

  lemma FlagAlone(f: Flag, index: nat, withValues: set<string>, switches: set<string>)
    requires CompleteFlag(f, withValues, switches)
    ensures |FlagTexts(f)| <= 2 && Find([FlagTexts(f)[0]], index, withValues, switches) == None
  {
    hide OptionName;
    assert [FlagTexts(f)[0]][1..] == [];
  }

  // A subcommand is found among the first words exactly when it is one of them.
  lemma {:induction false} FindCut(rest: seq<string>, m: nat, index: nat, withValues: set<string>, switches: set<string>)
    requires m <= |rest|
    ensures var found := Find(rest, index, withValues, switches);
            Find(rest[..m], index, withValues, switches)
            == if found.Some? && found.value.index < index + m then found else None
    decreases |rest|
  {
    hide OptionName, IsHelpFlag, IsVersionFlag;
    FoundInside(rest, index, withValues, switches);
    if m > 0 {
      assert rest[..m][1..] == rest[1..][..m - 1];
      FindCut(rest[1..], m - 1, index + 1, withValues, switches);
      FoundInside(rest[1..], index + 1, withValues, switches);
      if m >= 2 {
        assert rest[..m][2..] == rest[2..][..m - 2];
        FindCut(rest[2..], m - 2, index + 2, withValues, switches);
      }
      if |rest| >= 2 {
        FoundInside(rest[2..], index + 2, withValues, switches);
      }
    }
  }

  // More words can only make a command non-interactive.
  lemma NonInteractiveGrows(subcommand: string, after: seq<string>, m: nat)
    requires m <= |after|
    ensures NonInteractiveAfter(subcommand, after[..m]) ==> NonInteractiveAfter(subcommand, after)
  {
    FindCut(after, m, 0, FLAGS_WITH_VALUES, LOGIN_BOOLEAN_FLAGS);
    FindCut(after, m, 0, FLAGS_WITH_VALUES, CLOUD_BOOLEAN_FLAGS);
    hide Find, Lower, IsHelpFlag, IsVersionFlag;
    assert forall k :: 0 <= k < m ==> after[..m][k] == after[k];
  }

  // The subcommand of a command whose flags are left out, its index counted in `rest`.
  function SubcommandOf(rest: seq<string>): Option<Subcommand> {
    Find(rest, 0, GLOBAL_FLAGS_WITH_VALUES, GLOBAL_BOOLEAN_FLAGS)
  }

  lemma DecidedByRest(executable: string, rest: seq<string>, found: Option<Subcommand>)
    requires found.Some? ==> found.value.index < |rest|
    ensures Decides([executable] + rest, Shifted(found, 1))
         == (found.Some? && NonInteractiveAfter(found.value.value, rest[found.value.index + 1..]))
  {
    hide NonInteractiveAfter;
    if found.Some? {
      assert ([executable] + rest)[found.value.index + 2..] == rest[found.value.index + 1..];
    }
  }

  lemma SubcommandIs(rest: seq<string>)
    ensures SubcommandOf(rest) == Find(rest, 0, GLOBAL_FLAGS_WITH_VALUES, GLOBAL_BOOLEAN_FLAGS)
  {
    hide Find, GLOBAL_FLAGS_WITH_VALUES, GLOBAL_BOOLEAN_FLAGS;
  }

  lemma SubcommandIsFound(rest: seq<string>)
    ensures var found := SubcommandOf(rest);
            && (found.Some? ==> found.value.index < |rest|)
            && Find(rest, 1, GLOBAL_FLAGS_WITH_VALUES, GLOBAL_BOOLEAN_FLAGS) == Shifted(found, 1)
  {
    hide *;
    SubcommandIs(rest);
    FindShifts(rest, 0, 1, GLOBAL_FLAGS_WITH_VALUES, GLOBAL_BOOLEAN_FLAGS);
    FoundInside(rest, 0, GLOBAL_FLAGS_WITH_VALUES, GLOBAL_BOOLEAN_FLAGS);
  }

  lemma SubcommandCut(rest: seq<string>, m: nat)
    requires m <= |rest|
    ensures var found := SubcommandOf(rest);
            SubcommandOf(rest[..m]) == if found.Some? && found.value.index < m then found else None
  {
    hide *;
    SubcommandIs(rest);
    SubcommandIs(rest[..m]);
    FindCut(rest, m, 0, GLOBAL_FLAGS_WITH_VALUES, GLOBAL_BOOLEAN_FLAGS);
  }

  lemma LaunchIsCodex(l: Launch)
    requires WellFormedLaunch(l)
    ensures IsCodexExecutable(l.executable)
  {
  }

  lemma VerdictOfRest(l: Launch, rest: seq<string>)
    requires WellFormedLaunch(l)
    ensures var found := SubcommandOf(rest);
            && (found.Some? ==> found.value.index < |rest|)
            && Verdict([l.executable] + rest)
               == !(found.Some? && NonInteractiveAfter(found.value.value, rest[found.value.index + 1..]))
  {
    hide *;
    var short := [l.executable] + rest;
    LaunchIsCodex(l);
    CommandIsStripped(l, short);
    VerdictOfStripped(short, short);
    assert short[1..] == rest;
    SubcommandIsFound(rest);
    DecidedByRest(l.executable, rest, SubcommandOf(rest));
  }

  // What the limit leaves of the rest of a command.
  function Kept(l: Launch): int {
    WORD_LIMIT - 1 - |PrefixTexts(l)| - |AllFlagTexts(l.flags)|
  }

  lemma TakeLaunch(l: Launch)
    requires |LaunchTexts(l)| > WORD_LIMIT
    ensures var kept, p := Take(LaunchTexts(l), WORD_LIMIT), |PrefixTexts(l)|;
            && (p >= WORD_LIMIT ==> kept == PrefixTexts(l)[..WORD_LIMIT])
            && (p < WORD_LIMIT && Kept(l) <= 0 ==>
                  && WORD_LIMIT - 1 - p <= |AllFlagTexts(l.flags)|
                  && kept == PrefixTexts(l) + ([l.executable] + AllFlagTexts(l.flags)[..WORD_LIMIT - 1 - p]))
            && (Kept(l) >= 0 ==>
                  Kept(l) <= |l.rest| && kept == LaunchTexts(l.(rest := l.rest[..Kept(l)])))
  {
    var prefix, flags := PrefixTexts(l), AllFlagTexts(l.flags);
    assert forall rest :: LaunchTexts(l.(rest := rest)) == prefix + ([l.executable] + flags + rest);
    assert l == l.(rest := l.rest);
    hide AllFlagTexts, PrefixTexts, LaunchTexts;
    if Kept(l) >= 0 {
      assert prefix + ([l.executable] + flags + l.rest[..Kept(l)]) == Take(LaunchTexts(l), WORD_LIMIT);
    }
  }

  // A command line of more words than the limit: cut off before its executable it is none,
  // cut off among its flags it is interactive, and otherwise it is judged by what is kept.
  lemma CutOffVerdict(l: Launch)
    requires WellFormedLaunch(l) && |LaunchTexts(l)| > WORD_LIMIT
    ensures Kept(l) > 0 ==> Kept(l) <= |l.rest|
    ensures Verdict(Take(LaunchTexts(l), WORD_LIMIT)) == (
              if |PrefixTexts(l)| >= WORD_LIMIT then false
              else if Kept(l) <= 0 then true
              else Verdict([l.executable] + l.rest[..Kept(l)]))
  {
    TakeLaunch(l);
    var p := |PrefixTexts(l)|;
    if p >= WORD_LIMIT {
      CutPrefixIsStripped(l, WORD_LIMIT);
    } else if Kept(l) <= 0 {
      var flags := AllFlagTexts(l.flags)[..WORD_LIMIT - 1 - p];
      CommandIsStripped(l, [l.executable] + flags);
      VerdictOfStripped(PrefixTexts(l) + ([l.executable] + flags), [l.executable] + flags);
      assert ([l.executable] + flags)[1..] == flags;
      CutFlags(l.flags, WORD_LIMIT - 1 - p, 1, GLOBAL_FLAGS_WITH_VALUES, GLOBAL_BOOLEAN_FLAGS);
      hide Find, Stripped, AllFlagTexts, PrefixTexts, IsCodexExecutable, NonInteractiveAfter;
    } else {
      VerdictOnAllWords(l.(rest := l.rest[..Kept(l)]));
      hide Verdict, LaunchTexts, PrefixTexts, AllFlagTexts;
    }
  }

  // Cutting off the rest of a command matters exactly when it takes away the subcommand of
  // one that is not interactive, or the word behind it that decides.
  lemma CutRestMatters(l: Launch, m: nat)
    requires WellFormedLaunch(l) && m <= |l.rest|
    ensures var short, found := Verdict([l.executable] + l.rest), SubcommandOf(l.rest);
            && (!short ==> found.Some?)
            && (Verdict([l.executable] + l.rest[..m]) != short <==>
                  && !short
                  && (found.value.index < m ==>
                        !NonInteractiveAfter(found.value.value, l.rest[found.value.index + 1..m])))
  {
    hide *;
    VerdictOfRest(l, l.rest);
    VerdictOfRest(l, l.rest[..m]);
    SubcommandCut(l.rest, m);
    var found := SubcommandOf(l.rest);
    if found.Some? && found.value.index < m {
      var i := found.value.index;
      assert l.rest[..m][i + 1..] == l.rest[i + 1..m] == l.rest[i + 1..][..m - i - 1];
      NonInteractiveGrows(found.value.value, l.rest[i + 1..], m - i - 1);
    }
  }

  // What the limit pushes out: the executable of an interactive command, or the subcommand
  // of one that is not interactive, or the word behind it that decides.
  predicate PushesOut(l: Launch) {
    var short, found, kept := Verdict([l.executable] + l.rest), SubcommandOf(l.rest), Kept(l);
    if |PrefixTexts(l)| >= WORD_LIMIT then short
    else
      && !short
      && (found.Some? && found.value.index < kept <= |l.rest| ==>
            !NonInteractiveAfter(found.value.value, l.rest[found.value.index + 1..kept]))
  }

  lemma LimitMatters(l: Launch)
    requires WellFormedLaunch(l) && |LaunchTexts(l)| > WORD_LIMIT
    ensures Verdict(Take(LaunchTexts(l), WORD_LIMIT)) != Verdict([l.executable] + l.rest) <==> PushesOut(l)
  {
    hide Verdict, SubcommandOf, PrefixTexts, LaunchTexts, NonInteractiveAfter, WellFormedLaunch, AllFlagTexts;
    CutOffVerdict(l);
    CutRestMatters(l, if Kept(l) > 0 then Kept(l) else 0);
  }

  lemma NothingToTake(words: seq<string>)
    ensures |words| <= WORD_LIMIT ==> Take(words, WORD_LIMIT) == words
  {
  }

  // So a launch prefix and complete flags do not change the verdict on a Codex command line
  // - unless it has more words than the limit and they push out what decides.
  lemma {:induction false} VerdictIgnoresPrefixAndFlags(command: string, l: Launch)
    requires WellFormedLaunch(l) && WordsOf(command) == LaunchTexts(l)
    ensures UsesRendererBackedTerminal(command) != Verdict([l.executable] + l.rest)
       <==> |WordsOf(command)| > WORD_LIMIT && PushesOut(l)
  {
    hide Verdict, PushesOut, LaunchTexts, WordsOf, WellFormedLaunch, Take;
    NothingToTake(LaunchTexts(l));
    if |LaunchTexts(l)| > WORD_LIMIT {
      LimitMatters(l);
    } else {
      VerdictOnAllWords(l);
    }
  }

  // ---------------------------------------------------------------------------
  // An input for which the limit matters

  // A word that is written as it stands.
  predicate PlainWord(w: string) {
    w != "" && forall k :: 0 <= k < |w| ==> !IsSpace(w[k]) && w[k] != '"' && w[k] != '\''
  }

  function Line(words: seq<string>): string {
    if words == [] then ""
    else if |words| == 1 then words[0]
    else words[0] + " " + Line(words[1..])
  }

  lemma {:induction false} ReadPlain(w: string, rest: string, current: string)
    requires w == "" || PlainWord(w)
    ensures Words(w + rest, None, current) == Words(rest, None, current + w)
    decreases |w|
  {
    if w == "" {
      assert w + rest == rest && current + w == current;
    } else {
      assert (w + rest)[1..] == w[1..] + rest && current + [w[0]] + w[1..] == current + w;
      ReadPlain(w[1..], rest, current + [w[0]]);
    }
  }

  lemma EndOfWord(current: string, rest: string)
    requires current != ""
    ensures Words("", None, current) == [current]
    ensures Words(" " + rest, None, current) == [current] + Words(rest, None, "")
  {
    assert (" " + rest)[1..] == rest;
  }

  // Neither end is blank.
  predicate Tight(s: string) {
    s != "" && !IsSpace(s[0]) && !IsSpace(s[|s| - 1])
  }

  lemma LineUnfolds(words: seq<string>)
    requires words != []
    ensures Line(words) == if |words| == 1 then words[0] else words[0] + (" " + Line(words[1..]))
  {
  }

  lemma PlainIsTight(w: string, line: string)
    requires PlainWord(w)
    ensures w != "" && Tight(w) && (Tight(line) ==> Tight(w + (" " + line)))
  {
    hide IsSpace;
  }

  lemma {:induction false} WordsOfLine(words: seq<string>)
    requires words != [] && forall k :: 0 <= k < |words| ==> PlainWord(words[k])
    ensures Words(Line(words), None, "") == words && Tight(Line(words))
    decreases |words|
  {
    hide *;
    var w, line := words[0], Line(words[1..]);
    assert "" + w == w;
    LineUnfolds(words);
    PlainIsTight(w, line);
    EndOfWord(w, line);
    if |words| == 1 {
      assert w + "" == w;
      ReadPlain(w, "", "");
    } else {
      ReadPlain(w, " " + line, "");
      WordsOfLine(words[1..]);
      assert [w] + words[1..] == words;
    }
  }

  lemma PlainLine(words: seq<string>)
    requires words != [] && forall k :: 0 <= k < |words| ==> PlainWord(words[k])
    ensures WordsOf(Line(words)) == words
  {
    WordsOfLine(words);
    hide Words, IsSpace;
    assert TrimStart(Line(words)) == Line(words);
  }

  // Facts about literal words.

  lemma {:induction false} NameWithoutEquals(token: string)
    requires '=' !in token
    ensures OptionName(token) == token && !NameThenEquals(token)
  {
    if token != "" {
      NameWithoutEquals(token[1..]);
    }
  }

  lemma {:induction false} NameWithoutSlash(command: string)
    requires '/' !in command && '\\' !in command
    ensures Basename(command) == command
  {
    if command != "" {
      NameWithoutSlash(command[..|command| - 1]);
    }
  }

  lemma LowerAlready(s: string)
    requires forall k :: 0 <= k < |s| ==> 'a' <= s[k] <= 'z'
    ensures Lower(s) == s
  {
  }

  lemma CodexIsCodex()
    ensures IsCodexExecutable("codex") && !IsShellAssignment("codex") && !StartsWithDash("codex")
  {
    hide Basename, Lower, NameThenEquals;
    NameWithoutSlash("codex");
    LowerAlready("codex");
    NameWithoutEquals("odex");
    assert "codex"[1..] == "odex";
  }

  lemma SettingIsComplete()
    ensures CompleteFlag(Valued("-c", "x"), GLOBAL_FLAGS_WITH_VALUES, GLOBAL_BOOLEAN_FLAGS)
  {
    hide OptionName;
    NameWithoutEquals("-c");
  }

  lemma ExecIsNotInteractive()
    ensures SubcommandOf(["exec"]) == Some(Subcommand("exec", 0)) && NonInteractiveAfter("exec", [])
  {
    hide OptionName, Lower;
    NameWithoutEquals("exec");
    LowerAlready("exec");
  }

  // `codex -c x ... exec`, with `-c x` any number of times.
  function Settings(n: nat): Launch {
    Launch([], None, [], "codex", seq(n, _ => Valued("-c", "x")), ["exec"])
  }

  lemma {:induction false} SettingsTexts(flags: seq<Flag>)
    requires forall k :: 0 <= k < |flags| ==> flags[k] == Valued("-c", "x")
    ensures |AllFlagTexts(flags)| == 2 * |flags|
    ensures forall k :: 0 <= k < |AllFlagTexts(flags)| ==> AllFlagTexts(flags)[k] in ["-c", "x"]
  {
    if flags != [] {
      SettingsTexts(flags[1..]);
    }
  }

  lemma SettingsShape(n: nat)
    ensures var l := Settings(n);
            && l.executable == "codex" && l.rest == ["exec"] && |l.flags| == n
            && (forall k :: 0 <= k < n ==> l.flags[k] == Valued("-c", "x"))
            && PrefixTexts(l) == [] && WellFormedPrefix(l)
  {
  }

  lemma TextsWithoutPrefix(l: Launch)
    requires PrefixTexts(l) == []
    ensures LaunchTexts(l) == [l.executable] + AllFlagTexts(l.flags) + l.rest
    ensures WORD_LIMIT == 32 && Kept(l) == 31 - |AllFlagTexts(l.flags)|
  {
    hide PrefixTexts, AllFlagTexts;
  }

  lemma PlainSettings()
    ensures PlainWord("codex") && PlainWord("-c") && PlainWord("x") && PlainWord("exec")
  {
  }

  lemma LaunchFits(l: Launch)
    requires WellFormedPrefix(l)
    requires IsCodexExecutable(l.executable) && !IsShellAssignment(l.executable) && !StartsWithDash(l.executable)
    requires forall k :: 0 <= k < |l.flags| ==> CompleteFlag(l.flags[k], GLOBAL_FLAGS_WITH_VALUES, GLOBAL_BOOLEAN_FLAGS)
    ensures WellFormedLaunch(l)
  {
  }

  lemma SettingsAreWellFormed(n: nat)
    ensures WellFormedLaunch(Settings(n)) && |LaunchTexts(Settings(n))| == 2 * n + 2 && Kept(Settings(n)) == 31 - 2 * n
    ensures WORD_LIMIT == 32
    ensures forall k :: 0 <= k < |LaunchTexts(Settings(n))| ==> PlainWord(LaunchTexts(Settings(n))[k])
  {
    hide *;
    SettingsShape(n);
    SettingIsComplete();
    CodexIsCodex();
    LaunchFits(Settings(n));
    SettingsTexts(Settings(n).flags);
    TextsWithoutPrefix(Settings(n));
    PlainSettings();
  }

  lemma PushedOutOfSettings(l: Launch)
    requires PrefixTexts(l) == [] && !Verdict([l.executable] + l.rest)
    ensures Kept(l) < 0 ==> PushesOut(l)
  {
    hide Verdict, NonInteractiveAfter, SubcommandOf, AllFlagTexts, PrefixTexts;
    assert SubcommandOf(l.rest).Some? ==> SubcommandOf(l.rest).value.index >= 0;
  }

  // With n settings `codex exec` is taken for interactive exactly when n is 16 or more.
  lemma LimitChangesVerdict(n: nat)
    ensures UsesRendererBackedTerminal(Line(LaunchTexts(Settings(n)))) <==> n >= 16
  {
    hide *;
    var l := Settings(n);
    SettingsShape(n);
    SettingsAreWellFormed(n);
    NothingIsBlank(l);
    PlainLine(LaunchTexts(l));
    ExecIsNotInteractive();
    VerdictOfRest(l, ["exec"]);
    assert ["exec"][1..] == [];
    PushedOutOfSettings(l);
    VerdictIgnoresPrefixAndFlags(Line(LaunchTexts(l)), l);
  }

  lemma NothingIsBlank(l: Launch)
    ensures LaunchTexts(l) != []
  {
    hide PrefixTexts, AllFlagTexts;
  }
}
