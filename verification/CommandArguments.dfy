// Command-line parsing of the CLI (src/cli/args.ts, src/cli/flags.ts).
module CommandArguments {
  import opened Wrappers

  datatype FlagValue = Text(value: string) | On

  datatype ParsedArgs = ParsedArgs(commandPath: seq<string>, flags: map<string, FlagValue>)

  const NUL := '\0'

  predicate Repeatable(name: string) {
    name == "label" || name == "skill"
  }

  // CLI_BOOLEAN_FLAGS in src/shared/cli-argument-boundary.ts
  const BOOLEAN_FLAGS: set<string> := {
    "all", "attachments", "children", "comments", "connect", "current", "dry-run", "enter", "focus", "force",
    "full", "help", "inject", "include-archived", "include-visual-layouts", "interrupt", "json", "local",
    "messages", "me", "mobile", "mobile-pairing", "no-pairing", "screen", "parent-current", "provision",
    "ready", "recipe-json", "relations", "reinstall", "restore-window", "return-preamble", "run-hooks",
    "show-profile", "staged", "tab", "tasks", "text-stdin", "unread", "value-stdin", "wait"
  }

  predicate IsFlagToken(token: string) {
    |token| >= 2 && token[0] == '-' && token[1] == '-'
  }

  function IndexOf(s: string, c: char): (index: Option<nat>)
    ensures index.Some? ==> index.value < |s| && s[index.value] == c
    ensures index.Some? ==> c !in s[..index.value]
    ensures index.None? <==> c !in s
  {
    if s == "" then None
    else if s[0] == c then Some(0)
    else
      match IndexOf(s[1..], c)
      case None => None
      case Some(i) => Some(i + 1)
  }

  function SetFlag(flags: map<string, FlagValue>, name: string, value: string): map<string, FlagValue> {
    if Repeatable(name) && name in flags && flags[name].Text? then
      flags[name := Text(flags[name].value + [NUL] + value)]
    else flags[name := Text(value)]
  }

  // The rest of the loop at token `i`; `commandIndex` is where a known command starts, or -1.
  function Parse(rest: seq<string>, i: int, commandIndex: int, parsed: ParsedArgs): ParsedArgs
    decreases |rest|
  {
    if rest == [] then parsed
    else if !IsFlagToken(rest[0]) then
      Parse(rest[1..], i + 1, commandIndex, parsed.(commandPath := parsed.commandPath + [rest[0]]))
    else
      var assignment := rest[0][2..];
      match IndexOf(assignment, '=')
      case Some(e) =>
        Parse(rest[1..], i + 1, commandIndex,
              parsed.(flags := SetFlag(parsed.flags, assignment[..e], assignment[e + 1..])))
      case None =>
        if assignment in BOOLEAN_FLAGS || (parsed.commandPath == [] && i + 1 == commandIndex)
           || |rest| == 1 || IsFlagToken(rest[1]) then
          Parse(rest[1..], i + 1, commandIndex, parsed.(flags := parsed.flags[assignment := On]))
        else
          Parse(rest[2..], i + 2, commandIndex, parsed.(flags := SetFlag(parsed.flags, assignment, rest[1])))
  }

  const NOTHING := ParsedArgs([], map[])

  method SetFlagValue(flags: map<string, FlagValue>, name: string, value: string)
    returns (after: map<string, FlagValue>)
    ensures after == SetFlag(flags, name, value)
  {
    if name in flags && flags[name].Text? && Repeatable(name) {
      return flags[name := Text(flags[name].value + [NUL] + value)];
    }
    return flags[name := Text(value)];
  }

  method ParseArgs(argv: seq<string>, commandIndex: int) returns (parsed: ParsedArgs)
    ensures parsed == Parse(argv, 0, commandIndex, NOTHING)
  {
    var commandPath: seq<string> := [];
    var flags: map<string, FlagValue> := map[];
    var i := 0;
    while i < |argv|
      invariant 0 <= i <= |argv|
      invariant Parse(argv[i..], i, commandIndex, ParsedArgs(commandPath, flags)) == Parse(argv, 0, commandIndex, NOTHING)
    {
      var token := argv[i];
      ghost var rest := argv[i..];
      assert rest[0] == token && rest[1..] == argv[i + 1..];
      assert i + 1 < |argv| ==> rest[1] == argv[i + 1] && rest[2..] == argv[i + 2..];
      if !IsFlagToken(token) {
        commandPath := commandPath + [token];
        i := i + 1;
        continue;
      }
      var assignment := token[2..];
      var equalsIndex := IndexOf(assignment, '=');
      if equalsIndex.Some? {
        flags := SetFlagValue(flags, assignment[..equalsIndex.value], assignment[equalsIndex.value + 1..]);
        i := i + 1;
        continue;
      }
      var flag := assignment;
      if flag in BOOLEAN_FLAGS {
        flags := flags[flag := On];
        i := i + 1;
        continue;
      }
      if |commandPath| == 0 && i + 1 == commandIndex {
        flags := flags[flag := On];
        i := i + 1;
        continue;
      }
      if !(i + 1 < |argv|) || IsFlagToken(argv[i + 1]) {
        flags := flags[flag := On];
        i := i + 1;
        continue;
      }
      flags := SetFlagValue(flags, flag, argv[i + 1]);
      i := i + 2;
    }
    return ParsedArgs(commandPath, flags);
  }

  // flags.ts
  function GetOptionalStringFlag(flags: map<string, FlagValue>, name: string): Option<string> {
    if name in flags && flags[name].Text? && flags[name].value != "" then Some(flags[name].value) else None
  }

  function Split(s: string): (parts: seq<string>)
    ensures |parts| > 0
  {
    if s == "" then [""]
    else
      Attach(s[0], Split(s[1..]))
  }

  function Attach(c: char, parts: seq<string>): (more: seq<string>)
    requires |parts| > 0
    ensures |more| > 0
  {
    if c == NUL then [""] + parts else [[c] + parts[0]] + parts[1..]
  }

  function NonEmpty(values: seq<string>): seq<string> {
    if values == [] then [] else (if values[0] != "" then [values[0]] else []) + NonEmpty(values[1..])
  }

  function GetRepeatedStringFlag(flags: map<string, FlagValue>, name: string): seq<string> {
    match GetOptionalStringFlag(flags, name)
    case None => []
    case Some(value) => NonEmpty(Split(value))
  }

  // ---------------------------------------------------------------------------
  // The grammar of command lines

  datatype Token =
    | Word(text: string)
    | Assigned(name: string, value: string)   // --name=value
    | Spaced(name: string, value: string)     // --name value
    | Switch(name: string)                    // --name, never taking a value
    | Bare(name: string)                      // --name before another flag or at the end

  function Texts(token: Token): seq<string> {
    match token
    case Word(text) => [text]
    case Assigned(name, value) => ["--" + name + "=" + value]
    case Spaced(name, value) => ["--" + name, value]
    case Switch(name) => ["--" + name]
    case Bare(name) => ["--" + name]
  }

  function Argv(tokens: seq<Token>): seq<string> {
    if tokens == [] then [] else Texts(tokens[0]) + Argv(tokens[1..])
  }

  predicate WellFormedToken(token: Token) {
    match token
    case Word(text) => !IsFlagToken(text)
    case Assigned(name, _) => '=' !in name
    case Spaced(name, value) => '=' !in name && name !in BOOLEAN_FLAGS && !IsFlagToken(value)
    case Switch(name) => '=' !in name && name in BOOLEAN_FLAGS
    case Bare(name) => '=' !in name && name !in BOOLEAN_FLAGS
  }

  // A flag before any word, right in front of a known command, takes no value.
  predicate Cut(i: nat, commandIndex: int, wordless: bool) {
    wordless && i + 1 == commandIndex
  }

  // Well-formed tokens from position `i` on, before any word or not: a flag has the next
  // word for its value exactly where it may.
  predicate WellFormed(tokens: seq<Token>, i: nat, commandIndex: int, wordless: bool) {
    tokens == []
    || (&& WellFormedToken(tokens[0])
        && (tokens[0].Spaced? ==> !Cut(i, commandIndex, wordless))
        && (tokens[0].Bare? && |tokens| > 1 && tokens[1].Word? ==> Cut(i, commandIndex, wordless))
        && WellFormed(tokens[1..], i + |Texts(tokens[0])|, commandIndex, wordless && !tokens[0].Word?))
  }

  function Effect(token: Token, parsed: ParsedArgs): ParsedArgs {
    match token
    case Word(text) => parsed.(commandPath := parsed.commandPath + [text])
    case Assigned(name, value) => parsed.(flags := SetFlag(parsed.flags, name, value))
    case Spaced(name, value) => parsed.(flags := SetFlag(parsed.flags, name, value))
    case Switch(name) => parsed.(flags := parsed.flags[name := On])
    case Bare(name) => parsed.(flags := parsed.flags[name := On])
  }

  function Effects(tokens: seq<Token>, parsed: ParsedArgs): ParsedArgs {
    if tokens == [] then parsed else Effects(tokens[1..], Effect(tokens[0], parsed))
  }

  lemma FlagText(name: string, value: string)
    requires '=' !in name
    ensures var bare, whole := "--" + name, "--" + name + "=" + value;
            && IsFlagToken(bare) && bare[2..] == name && IndexOf(name, '=') == None
            && IsFlagToken(whole) && whole[2..] == name + "=" + value
            && IndexOf(name + "=" + value, '=') == Some(|name|)
            && (name + "=" + value)[..|name|] == name && (name + "=" + value)[|name| + 1..] == value
  {
    FirstEquals(name, value);
    hide IndexOf;
    assert "--" + name + "=" + value == "--" + (name + "=" + value);
  }

  lemma {:induction false} FirstEquals(name: string, value: string)
    requires '=' !in name
    ensures IndexOf(name + "=" + value, '=') == Some(|name|)
    decreases |name|
  {
    if name != "" {
      assert (name + "=" + value)[1..] == name[1..] + "=" + value;
      FirstEquals(name[1..], value);
    }
  }

  lemma TextsThen(token: Token, rest: seq<string>)
    ensures Texts(token) + rest != [] && (Texts(token) + rest)[|Texts(token)|..] == rest
    ensures (Texts(token) + rest)[0] == Texts(token)[0]
    ensures token.Spaced? ==> |Texts(token) + rest| > 1 && (Texts(token) + rest)[1] == token.value
    ensures !token.Spaced? && |Texts(token) + rest| > 1 ==> (Texts(token) + rest)[1] == rest[0]
    ensures |Texts(token)| == if token.Spaced? then 2 else 1
  {
  }

  lemma TextOfFlag(token: Token)
    requires WellFormedToken(token)
    ensures IsFlagToken(Texts(token)[0]) <==> !token.Word?
    ensures !token.Word? ==>
      var text := Texts(token)[0][2..];
      if token.Assigned? then
        && IndexOf(text, '=') == Some(|token.name|)
        && text[..|token.name|] == token.name && text[|token.name| + 1..] == token.value
      else IndexOf(text, '=') == None && text == token.name
  {
    match token
    case Word(_) =>
    case Assigned(name, value) => FlagText(name, value);
    case Spaced(name, _) => FlagText(name, "");
    case Switch(name) => FlagText(name, "");
    case Bare(name) => FlagText(name, "");
  }

  lemma ParseToken(token: Token, rest: seq<string>, i: nat, commandIndex: int, parsed: ParsedArgs)
    requires WellFormedToken(token) && (token.Spaced? ==> !Cut(i, commandIndex, parsed.commandPath == []))
    requires token.Bare? && rest != [] ==> IsFlagToken(rest[0]) || Cut(i, commandIndex, parsed.commandPath == [])
    ensures Parse(Texts(token) + rest, i, commandIndex, parsed)
         == Parse(rest, i + |Texts(token)|, commandIndex, Effect(token, parsed))
  {
    TextsThen(token, rest);
    TextOfFlag(token);
    hide IndexOf, SetFlag, IsFlagToken, Texts;
  }

  // What a well-formed line starts with.
  lemma WellFormedUnfolds(tokens: seq<Token>, i: nat, commandIndex: int, wordless: bool)
    requires tokens != [] && WellFormed(tokens, i, commandIndex, wordless)
    ensures var token, rest := tokens[0], Argv(tokens[1..]);
            && WellFormedToken(token) && (token.Spaced? ==> !Cut(i, commandIndex, wordless))
            && (token.Bare? && rest != [] ==> IsFlagToken(rest[0]) || Cut(i, commandIndex, wordless))
            && WellFormed(tokens[1..], i + |Texts(token)|, commandIndex, wordless && !token.Word?)
            && Argv(tokens) == Texts(token) + rest
  {
    if |tokens| > 1 {
      assert tokens[1..][0] == tokens[1];
      FirstText(tokens[1..]);
    }
    hide WellFormedToken, Texts, IsFlagToken, Cut;
  }

  lemma EffectOnWords(token: Token, parsed: ParsedArgs)
    ensures (Effect(token, parsed).commandPath == []) == (parsed.commandPath == [] && !token.Word?)
  {
    hide SetFlag;
  }

  lemma NoTokens(i: nat, commandIndex: int, parsed: ParsedArgs)
    ensures Parse(Argv([]), i, commandIndex, parsed) == Effects([], parsed)
  {
  }

  lemma FirstEffect(tokens: seq<Token>, parsed: ParsedArgs)
    requires tokens != []
    ensures Effects(tokens, parsed) == Effects(tokens[1..], Effect(tokens[0], parsed))
  {
    hide Effect;
  }

  lemma {:induction false} ParseTokens(tokens: seq<Token>, i: nat, commandIndex: int, parsed: ParsedArgs)
    requires WellFormed(tokens, i, commandIndex, parsed.commandPath == [])
    ensures Parse(Argv(tokens), i, commandIndex, parsed) == Effects(tokens, parsed)
    decreases |tokens|
  {
    hide *;
    if tokens == [] {
      NoTokens(i, commandIndex, parsed);
    } else {
      WellFormedUnfolds(tokens, i, commandIndex, parsed.commandPath == []);
      ParseToken(tokens[0], Argv(tokens[1..]), i, commandIndex, parsed);
      EffectOnWords(tokens[0], parsed);
      ParseTokens(tokens[1..], i + |Texts(tokens[0])|, commandIndex, Effect(tokens[0], parsed));
      FirstEffect(tokens, parsed);
    }
  }

  lemma FirstText(tokens: seq<Token>)
    requires tokens != [] && WellFormedToken(tokens[0])
    ensures Argv(tokens) != [] && (!tokens[0].Word? ==> IsFlagToken(Argv(tokens)[0]))
  {
    TextOfFlag(tokens[0]);
    TextsThen(tokens[0], Argv(tokens[1..]));
    hide Texts, IsFlagToken, WellFormedToken, IndexOf;
  }

  // ---------------------------------------------------------------------------
  // Every command line has exactly one reading

  function TokenAt(rest: seq<string>, i: nat, commandIndex: int, wordless: bool): (token: Token)
    requires rest != []
    ensures |Texts(token)| <= |rest|
  {
    if !IsFlagToken(rest[0]) then Word(rest[0])
    else
      var assignment := rest[0][2..];
      match IndexOf(assignment, '=')
      case Some(e) => Assigned(assignment[..e], assignment[e + 1..])
      case None =>
        if assignment in BOOLEAN_FLAGS then Switch(assignment)
        else if Cut(i, commandIndex, wordless) || |rest| == 1 || IsFlagToken(rest[1]) then Bare(assignment)
        else Spaced(assignment, rest[1])
  }

  function Reading(rest: seq<string>, i: nat, commandIndex: int, wordless: bool): seq<Token>
    decreases |rest|
  {
    if rest == [] then []
    else
      var token := TokenAt(rest, i, commandIndex, wordless);
      [token] + Reading(rest[|Texts(token)|..], i + |Texts(token)|, commandIndex, wordless && !token.Word?)
  }

  lemma FlagParts(text: string)
    requires IsFlagToken(text)
    ensures var assignment := text[2..];
            && text == "--" + assignment
            && (match IndexOf(assignment, '=')
                case Some(e) => '=' !in assignment[..e] && text == "--" + assignment[..e] + "=" + assignment[e + 1..]
                case None => '=' !in assignment)
  {
    var assignment := text[2..];
    match IndexOf(assignment, '=')
    case Some(e) => assert assignment == assignment[..e] + "=" + assignment[e + 1..];
    case None =>
  }

  lemma TokenAtFits(rest: seq<string>, i: nat, commandIndex: int, wordless: bool)
    requires rest != []
    ensures var token := TokenAt(rest, i, commandIndex, wordless);
            && WellFormedToken(token) && Texts(token) == rest[..|Texts(token)|]
            && (token.Spaced? ==> !Cut(i, commandIndex, wordless))
            && (token.Bare? ==> |Texts(token)| == 1 && (Cut(i, commandIndex, wordless) || |rest| == 1 || IsFlagToken(rest[1])))
  {
    if IsFlagToken(rest[0]) {
      FlagParts(rest[0]);
    }
    hide IndexOf, IsFlagToken, Cut;
  }

  lemma ReadingUnfolds(rest: seq<string>, i: nat, commandIndex: int, wordless: bool)
    requires rest != []
    ensures var token := TokenAt(rest, i, commandIndex, wordless);
            Reading(rest, i, commandIndex, wordless)
            == [token] + Reading(rest[|Texts(token)|..], i + |Texts(token)|, commandIndex, wordless && !token.Word?)
  {
    hide TokenAt, Texts;
  }

  lemma WordIsNoFlag(rest: seq<string>, i: nat, commandIndex: int, wordless: bool)
    requires rest != []
    ensures TokenAt(rest, i, commandIndex, wordless).Word? <==> !IsFlagToken(rest[0])
  {
    hide IndexOf, IsFlagToken;
  }

  lemma FirstFits(token: Token, later: seq<Token>, i: nat, commandIndex: int, wordless: bool)
    requires WellFormedToken(token) && (token.Spaced? ==> !Cut(i, commandIndex, wordless))
    requires token.Bare? && later != [] && later[0].Word? ==> Cut(i, commandIndex, wordless)
    requires WellFormed(later, i + |Texts(token)|, commandIndex, wordless && !token.Word?)
    ensures WellFormed([token] + later, i, commandIndex, wordless)
    ensures Argv([token] + later) == Texts(token) + Argv(later)
  {
    assert ([token] + later)[1..] == later;
    hide WellFormedToken, Texts, Cut;
  }

  lemma NothingFits(i: nat, commandIndex: int, wordless: bool)
    ensures Reading([], i, commandIndex, wordless) == [] && WellFormed([], i, commandIndex, wordless) && Argv([]) == []
  {
  }

  // What follows a flag without a value starts with no word, unless the flag is cut.
  lemma AfterBare(rest: seq<string>, i: nat, commandIndex: int, wordless: bool)
    requires rest != []
    ensures var token := TokenAt(rest, i, commandIndex, wordless);
            var tail, j, still := rest[|Texts(token)|..], i + |Texts(token)|, wordless && !token.Word?;
            var later := Reading(tail, j, commandIndex, still);
            token.Bare? && later != [] && later[0].Word? ==> Cut(i, commandIndex, wordless)
  {
    hide *;
    TokenAtFits(rest, i, commandIndex, wordless);
    var token := TokenAt(rest, i, commandIndex, wordless);
    var tail, j, still := rest[|Texts(token)|..], i + |Texts(token)|, wordless && !token.Word?;
    NothingFits(j, commandIndex, still);
    if tail != [] {
      ReadingUnfolds(tail, j, commandIndex, still);
      WordIsNoFlag(tail, j, commandIndex, still);
    }
  }

  // Whatever was typed is a line of the grammar ...
  lemma {:induction false} ReadingFits(rest: seq<string>, i: nat, commandIndex: int, wordless: bool)
    ensures WellFormed(Reading(rest, i, commandIndex, wordless), i, commandIndex, wordless)
    ensures Argv(Reading(rest, i, commandIndex, wordless)) == rest
    decreases |rest|
  {
    hide *;
    if rest == [] {
      NothingFits(i, commandIndex, wordless);
    } else {
      var token := TokenAt(rest, i, commandIndex, wordless);
      var tail, j, still := rest[|Texts(token)|..], i + |Texts(token)|, wordless && !token.Word?;
      TokenTakesSome(token);
      ReadingUnfolds(rest, i, commandIndex, wordless);
      TokenAtFits(rest, i, commandIndex, wordless);
      AfterBare(rest, i, commandIndex, wordless);
      ReadingFits(tail, j, commandIndex, still);
      FirstFits(token, Reading(tail, j, commandIndex, still), i, commandIndex, wordless);
      assert rest == rest[..|Texts(token)|] + tail;
    }
  }

  lemma TokenTakesSome(token: Token)
    ensures |Texts(token)| > 0
  {
  }

  lemma TokenAtIsIt(token: Token, rest: seq<string>, i: nat, commandIndex: int, wordless: bool)
    requires WellFormedToken(token) && (token.Spaced? ==> !Cut(i, commandIndex, wordless))
    requires token.Bare? && rest != [] ==> IsFlagToken(rest[0]) || Cut(i, commandIndex, wordless)
    ensures Texts(token) + rest != [] && TokenAt(Texts(token) + rest, i, commandIndex, wordless) == token
  {
    TextsThen(token, rest);
    TextOfFlag(token);
    if token.Word? {
      assert Texts(token)[0] == token.text;
    }
    hide IndexOf, IsFlagToken, Texts;
  }

  // ... and of no other.
  lemma {:induction false} ReadingIsUnique(tokens: seq<Token>, i: nat, commandIndex: int, wordless: bool)
    requires WellFormed(tokens, i, commandIndex, wordless)
    ensures Reading(Argv(tokens), i, commandIndex, wordless) == tokens
    decreases |tokens|
  {
    hide *;
    NothingFits(i, commandIndex, wordless);
    if tokens != [] {
      var token, rest := tokens[0], Argv(tokens[1..]);
      WellFormedUnfolds(tokens, i, commandIndex, wordless);
      TokenAtIsIt(token, rest, i, commandIndex, wordless);
      TextsThen(token, rest);
      ReadingUnfolds(Texts(token) + rest, i, commandIndex, wordless);
      ReadingIsUnique(tokens[1..], i + |Texts(token)|, commandIndex, wordless && !token.Word?);
      assert [token] + tokens[1..] == tokens;
    }
  }

  // ---------------------------------------------------------------------------
  // What a parsed command line holds, said without the parser

  function WordsOf(tokens: seq<Token>): seq<string> {
    if tokens == [] then []
    else
      var last := tokens[|tokens| - 1];
      WordsOf(tokens[..|tokens| - 1]) + (if last.Word? then [last.text] else [])
  }

  // What a token gives to a flag: a value, or none.
  function GivenBy(token: Token, name: string): seq<Option<string>> {
    match token
    case Assigned(n, value) => if n == name then [Some(value)] else []
    case Spaced(n, value) => if n == name then [Some(value)] else []
    case Switch(n) => if n == name then [None] else []
    case Bare(n) => if n == name then [None] else []
    case Word(_) => []
  }

  // The values given to a flag, in order; a flag without a value counts as None.
  function ValuesOf(tokens: seq<Token>, name: string): seq<Option<string>> {
    if tokens == [] then []
    else ValuesOf(tokens[..|tokens| - 1], name) + GivenBy(tokens[|tokens| - 1], name)
  }

  // What a flag ends up holding, given its values: the last one, or for a repeatable flag
  // the values since it last stood without one, joined.
  function Held(name: string, values: seq<Option<string>>): Option<FlagValue> {
    if values == [] then None
    else
      var last := values[|values| - 1];
      var before := Held(name, values[..|values| - 1]);
      match last
      case None => Some(On)
      case Some(value) =>
        if Repeatable(name) && before.Some? && before.value.Text? then Some(Text(before.value.value + [NUL] + value))
        else Some(Text(value))
  }

  function Lookup(flags: map<string, FlagValue>, name: string): Option<FlagValue> {
    if name in flags then Some(flags[name]) else None
  }

  lemma {:induction false} EffectsLast(tokens: seq<Token>, parsed: ParsedArgs)
    requires tokens != []
    ensures Effects(tokens, parsed) == Effect(tokens[|tokens| - 1], Effects(tokens[..|tokens| - 1], parsed))
  {
    if |tokens| == 1 {
      assert tokens[1..] == [] && tokens[..0] == [];
    } else {
      EffectsLast(tokens[1..], Effect(tokens[0], parsed));
      assert tokens[1..][..|tokens| - 2] == tokens[..|tokens| - 1][1..];
    }
  }

  lemma HeldWithOneMore(name: string, values: seq<Option<string>>, one: Option<string>)
    ensures Held(name, values + []) == Held(name, values)
    ensures Held(name, values + [one]) == (
              match one
              case None => Some(On)
              case Some(value) =>
                var before := Held(name, values);
                if Repeatable(name) && before.Some? && before.value.Text? then Some(Text(before.value.value + [NUL] + value))
                else Some(Text(value)))
  {
    assert values + [] == values && (values + [one])[..|values|] == values;
  }

  lemma EffectHolds(token: Token, parsed: ParsedArgs, values: seq<Option<string>>, name: string)
    requires Lookup(parsed.flags, name) == Held(name, values)
    ensures Lookup(Effect(token, parsed).flags, name) == Held(name, values + GivenBy(token, name))
  {
    HeldWithOneMore(name, values, None);
    match token {
      case Assigned(_, value) => HeldWithOneMore(name, values, Some(value));
      case Spaced(_, value) => HeldWithOneMore(name, values, Some(value));
      case _ =>
    }
    hide Held;
  }

  lemma NothingHolds(name: string)
    ensures Effects([], NOTHING).commandPath == WordsOf([])
    ensures Lookup(Effects([], NOTHING).flags, name) == Held(name, ValuesOf([], name))
  {
  }

  lemma LastWord(tokens: seq<Token>, parsed: ParsedArgs, name: string)
    requires tokens != []
    ensures var last, n := tokens[|tokens| - 1], |tokens| - 1;
            && ValuesOf(tokens, name) == ValuesOf(tokens[..n], name) + GivenBy(last, name)
            && (parsed.commandPath == WordsOf(tokens[..n]) ==> Effect(last, parsed).commandPath == WordsOf(tokens))
  {
    assert WordsOf(tokens[..|tokens| - 1]) + [] == WordsOf(tokens[..|tokens| - 1]);
    hide SetFlag;
  }

  lemma {:induction false} EffectsHold(tokens: seq<Token>, name: string)
    ensures Effects(tokens, NOTHING).commandPath == WordsOf(tokens)
    ensures Lookup(Effects(tokens, NOTHING).flags, name) == Held(name, ValuesOf(tokens, name))
    decreases |tokens|
  {
    hide *;
    if tokens == [] {
      NothingHolds(name);
    } else {
      var n := |tokens| - 1;
      var before := Effects(tokens[..n], NOTHING);
      EffectsLast(tokens, NOTHING);
      EffectsHold(tokens[..n], name);
      LastWord(tokens, before, name);
      EffectHolds(tokens[n], before, ValuesOf(tokens[..n], name), name);
    }
  }

  // Any mixture of words and flags in any order is parsed back: the path is the words in
  // order, and every flag holds what its values say.
  lemma ParseRoundTrip(tokens: seq<Token>, commandIndex: int, name: string)
    requires WellFormed(tokens, 0, commandIndex, true)
    ensures var parsed := Parse(Argv(tokens), 0, commandIndex, NOTHING);
            && parsed.commandPath == WordsOf(tokens)
            && Lookup(parsed.flags, name) == Held(name, ValuesOf(tokens, name))
  {
    ParseTokens(tokens, 0, commandIndex, NOTHING);
    EffectsHold(tokens, name);
    hide Parse, Effects, WordsOf, ValuesOf, Held;
  }

  // So every command line whatever is parsed as its one reading says.
  lemma EveryLineIsParsedAsRead(argv: seq<string>, commandIndex: int, name: string)
    ensures var tokens := Reading(argv, 0, commandIndex, true);
            var parsed := Parse(argv, 0, commandIndex, NOTHING);
            && Argv(tokens) == argv
            && parsed.commandPath == WordsOf(tokens)
            && Lookup(parsed.flags, name) == Held(name, ValuesOf(tokens, name))
  {
    hide *;
    ReadingFits(argv, 0, commandIndex, true);
    ParseRoundTrip(Reading(argv, 0, commandIndex, true), commandIndex, name);
  }

  // On every line an ordinary flag holds the last value it is given, and one that is not
  // given at all holds nothing.
  lemma OrdinaryFlagHoldsLast(argv: seq<string>, commandIndex: int, name: string)
    requires !Repeatable(name)
    ensures var values := ValuesOf(Reading(argv, 0, commandIndex, true), name);
            Lookup(Parse(argv, 0, commandIndex, NOTHING).flags, name) == (
              if values == [] then None
              else Some(match values[|values| - 1] case None => On case Some(value) => Text(value)))
  {
    EveryLineIsParsedAsRead(argv, commandIndex, name);
    hide Parse, Reading, ValuesOf, Repeatable;
  }

  predicate NulFree(s: string) {
    NUL !in s
  }

  function JoinNul(values: seq<string>): string
    requires values != []
  {
    if |values| == 1 then values[0] else JoinNul(values[..|values| - 1]) + [NUL] + values[|values| - 1]
  }

  function Given(values: seq<string>): seq<Option<string>> {
    seq(|values|, k requires 0 <= k < |values| => Some(values[k]))
  }

  lemma {:induction false} RepeatableHoldsAll(name: string, values: seq<string>)
    requires Repeatable(name) && values != []
    ensures Held(name, Given(values)) == Some(Text(JoinNul(values)))
    decreases |values|
  {
    var n := |values| - 1;
    assert Given(values)[..n] == Given(values[..n]);
    if n > 0 {
      RepeatableHoldsAll(name, values[..n]);
    } else {
      assert Given(values)[..0] == [];
    }
  }

  lemma {:induction false} SplitPlain(s: string, rest: string)
    requires NulFree(s)
    ensures Split(s + rest) == [s + Split(rest)[0]] + Split(rest)[1..]
    decreases |s|
  {
    if s == "" {
      assert s + rest == rest && "" + Split(rest)[0] == Split(rest)[0];
    } else {
      assert (s + rest)[1..] == s[1..] + rest;
      SplitPlain(s[1..], rest);
      assert [s[0]] + (s[1..] + Split(rest)[0]) == s + Split(rest)[0];
    }
  }

  lemma AttachBoth(c: char, a: seq<string>, b: seq<string>)
    requires |a| > 0
    ensures Attach(c, a + b) == Attach(c, a) + b
  {
    assert (a + b)[1..] == a[1..] + b;
  }

  lemma {:induction false} SplitBoth(s: string, last: string)
    ensures Split(s + [NUL] + last) == Split(s) + Split(last)
    decreases |s|
  {
    var t := s + [NUL] + last;
    if s == "" {
      assert t[1..] == last;
    } else {
      assert t[1..] == s[1..] + [NUL] + last && t[0] == s[0];
      assert Split(t) == Attach(s[0], Split(t[1..])) && Split(s) == Attach(s[0], Split(s[1..]));
      hide Split, Attach;
      SplitBoth(s[1..], last);
      AttachBoth(s[0], Split(s[1..]), Split(last));
    }
  }

  lemma {:induction false} SplitJoin(values: seq<string>)
    requires values != [] && forall k :: 0 <= k < |values| ==> NulFree(values[k])
    ensures Split(JoinNul(values)) == values
    decreases |values|
  {
    var n := |values| - 1;
    assert values[n] + "" == values[n];
    SplitPlain(values[n], "");
    if n > 0 {
      SplitBoth(JoinNul(values[..n]), values[n]);
      SplitJoin(values[..n]);
    }
  }

  lemma {:induction false} SplitIsNulFree(s: string)
    ensures forall k :: 0 <= k < |Split(s)| ==> NulFree(Split(s)[k])
  {
    if s != "" {
      SplitIsNulFree(s[1..]);
    }
  }

  lemma {:induction false} NonEmptyMembers(values: seq<string>, v: string)
    ensures v in NonEmpty(values) <==> v in values && v != ""
  {
    if values != [] {
      NonEmptyMembers(values[1..], v);
      assert v in values <==> v == values[0] || v in values[1..];
    }
  }

  // Reading a joined text back: an empty text counts as no value at all.
  function Repeated(joined: string): seq<string> {
    if joined == "" then [] else NonEmpty(Split(joined))
  }

  lemma RepeatedIsNonEmptySplit(joined: string)
    ensures Repeated(joined) == NonEmpty(Split(joined))
  {
    assert [""][1..] == [];
  }

  lemma RepeatedJoin(values: seq<string>)
    requires values != []
    ensures Repeated(JoinNul(values)) == NonEmpty(values) <==> forall k :: 0 <= k < |values| ==> NulFree(values[k])
  {
    var joined := JoinNul(values);
    RepeatedIsNonEmptySplit(joined);
    hide Repeated, NonEmpty, Split, JoinNul;
    if forall k :: 0 <= k < |values| ==> NulFree(values[k]) {
      SplitJoin(values);
    }
    if NonEmpty(Split(joined)) == NonEmpty(values) {
      SplitIsNulFree(joined);
      forall k | 0 <= k < |values|
        ensures NulFree(values[k])
      {
        NonEmptyMembers(values, values[k]);
        NonEmptyMembers(Split(joined), values[k]);
      }
    }
  }

  lemma GetIsRepeated(flags: map<string, FlagValue>, name: string, joined: string)
    requires Lookup(flags, name) == Some(Text(joined))
    ensures GetRepeatedStringFlag(flags, name) == Repeated(joined)
  {
    hide Split, NonEmpty;
  }

  lemma NothingHeld(flags: map<string, FlagValue>, name: string, values: seq<string>)
    requires values == [] && Lookup(flags, name) == Held(name, Given(values))
    ensures GetRepeatedStringFlag(flags, name) == NonEmpty(values)
  {
    assert Given(values) == [];
    hide Split;
  }

  // getRepeatedStringFlag returns the nonempty values of a repeatable flag, in order -
  // values starting with dashes or holding = included - exactly when none holds a NUL.
  lemma {:induction false} RepeatedValuesRoundTrip(flags: map<string, FlagValue>, name: string, values: seq<string>)
    requires Repeatable(name) && Lookup(flags, name) == Held(name, Given(values))
    ensures GetRepeatedStringFlag(flags, name) == NonEmpty(values)
       <==> forall k :: 0 <= k < |values| ==> NulFree(values[k])
  {
    hide *;
    if values == [] {
      NothingHeld(flags, name, values);
    } else {
      RepeatableHoldsAll(name, values);
      GetIsRepeated(flags, name, JoinNul(values));
      RepeatedJoin(values);
    }
  }

  // End to end, for any path words and any flags in any style.
  lemma {:induction false} RepeatedFlagRoundTrip(tokens: seq<Token>, commandIndex: int,
                                                 name: string, values: seq<string>)
    requires WellFormed(tokens, 0, commandIndex, true)
    requires Repeatable(name) && ValuesOf(tokens, name) == Given(values)
    ensures GetRepeatedStringFlag(Parse(Argv(tokens), 0, commandIndex, NOTHING).flags, name) == NonEmpty(values)
       <==> forall k :: 0 <= k < |values| ==> NulFree(values[k])
  {
    hide *;
    ParseRoundTrip(tokens, commandIndex, name);
    RepeatedValuesRoundTrip(Parse(Argv(tokens), 0, commandIndex, NOTHING).flags, name, values);
  }

  lemma {:induction false} NonEmptyBoth(a: seq<string>, b: seq<string>)
    ensures NonEmpty(a + b) == NonEmpty(a) + NonEmpty(b)
  {
    if a == [] {
      assert a + b == b;
    } else {
      assert (a + b)[1..] == a[1..] + b;
      NonEmptyBoth(a[1..], b);
    }
  }

  lemma GetOfSet(flags: map<string, FlagValue>, name: string, value: string)
    ensures var after := SetFlag(flags, name, value);
            name in after && after[name] == (
              if Repeatable(name) && name in flags && flags[name].Text? then Text(flags[name].value + [NUL] + value)
              else Text(value))
  {
  }

  lemma NothingRepeated(flags: map<string, FlagValue>, name: string)
    ensures name !in flags || flags[name].On? ==> GetRepeatedStringFlag(flags, name) == []
  {
  }

  // What setting a flag means to whoever reads it back: a repeatable flag gains the
  // nonempty parts of the value between NULs behind those it had, any other flag holds
  // just the value, and no other flag changes.
  lemma SetFlagMeans(flags: map<string, FlagValue>, name: string, value: string, other: string)
    ensures var after := SetFlag(flags, name, value);
            && (Repeatable(name) ==>
                  GetRepeatedStringFlag(after, name) == GetRepeatedStringFlag(flags, name) + NonEmpty(Split(value)))
            && (!Repeatable(name) ==> GetOptionalStringFlag(after, name) == if value == "" then None else Some(value))
            && (other != name ==> Lookup(after, other) == Lookup(flags, other))
  {
    var after := SetFlag(flags, name, value);
    GetOfSet(flags, name, value);
    NothingRepeated(flags, name);
    hide Split, NonEmpty, GetRepeatedStringFlag;
    if Repeatable(name) {
      GetIsRepeated(after, name, after[name].value);
      RepeatedIsNonEmptySplit(after[name].value);
      if name in flags && flags[name].Text? {
        GetIsRepeated(flags, name, flags[name].value);
        RepeatedIsNonEmptySplit(flags[name].value);
        SplitBoth(flags[name].value, value);
        NonEmptyBoth(Split(flags[name].value), Split(value));
      } else {
        assert [] + NonEmpty(Split(value)) == NonEmpty(Split(value));
      }
    }
  }

  // ---------------------------------------------------------------------------
  // Where the command starts: a second walk over the same tokens, which must take the
  // same values for flags as the parser does (src/shared/cli-argument-boundary.ts)

  // Over the flags at `cursor`; one that may take a value is taken with the next token.
  function SkipFlags(argv: seq<string>, cursor: nat): (c: nat)
    ensures c >= cursor && (c < |argv| ==> !IsFlagToken(argv[c]))
    decreases |argv| - cursor
  {
    if cursor < |argv| && IsFlagToken(argv[cursor]) then
      SkipFlags(argv, cursor + if '=' in argv[cursor][2..] || argv[cursor][2..] in BOOLEAN_FLAGS then 1 else 2)
    else cursor
  }

  predicate PathStartsAt(argv: seq<string>, cursor: nat, path: seq<string>)
    decreases |path|
  {
    path == []
    || (var c := SkipFlags(argv, cursor);
        c < |argv| && argv[c] == path[0] && PathStartsAt(argv, c + 1, path[1..]))
  }

  predicate StartsCommandAt(argv: seq<string>, paths: seq<seq<string>>, index: nat) {
    exists k :: 0 <= k < |paths| && PathStartsAt(argv, index, paths[k])
  }

  // The flag at `index` takes the next token with it in the search for the command.
  predicate TakesNext(argv: seq<string>, paths: seq<seq<string>>, valueFlags: seq<string>, index: nat)
    requires index < |argv| && IsFlagToken(argv[index])
  {
    var flag := argv[index][2..];
    && '=' !in flag && flag !in BOOLEAN_FLAGS
    && index + 1 < |argv| && !IsFlagToken(argv[index + 1])
    && (flag in valueFlags
        || !(StartsCommandAt(argv, paths, index + 1) && !StartsCommandAt(argv, paths, index + 2)))
  }

  function CommandIndex(argv: seq<string>, paths: seq<seq<string>>, valueFlags: seq<string>, index: nat): (found: int)
    ensures found == -1 || (index <= found < |argv| && !IsFlagToken(argv[found]))
    decreases |argv| - index
  {
    if index >= |argv| then -1
    else if !IsFlagToken(argv[index]) then if StartsCommandAt(argv, paths, index) then index else -1
    else CommandIndex(argv, paths, valueFlags, index + if TakesNext(argv, paths, valueFlags, index) then 2 else 1)
  }

  method CommandPathStartsAt(argv: seq<string>, tokenIndex: nat, path: seq<string>) returns (starts: bool)
    ensures starts == PathStartsAt(argv, tokenIndex, path)
  {
    var cursor: nat := tokenIndex;
    for k := 0 to |path|
      invariant PathStartsAt(argv, cursor, path[k..]) == PathStartsAt(argv, tokenIndex, path)
    {
      ghost var rest := path[k..];
      assert rest[0] == path[k] && rest[1..] == path[k + 1..];
      ghost var from: nat := cursor;
      while cursor < |argv| && IsFlagToken(argv[cursor])
        invariant SkipFlags(argv, cursor) == SkipFlags(argv, from)
        decreases |argv| - cursor
      {
        var assignment := argv[cursor][2..];
        cursor := cursor + if '=' in assignment || assignment in BOOLEAN_FLAGS then 1 else 2;
      }
      if cursor >= |argv| || argv[cursor] != path[k] {
        return false;
      }
      cursor := cursor + 1;
    }
    assert path[|path|..] == [];
    return true;
  }

  method CommandStartsAt(argv: seq<string>, paths: seq<seq<string>>, index: nat) returns (starts: bool)
    ensures starts == StartsCommandAt(argv, paths, index)
  {
    for k := 0 to |paths|
      invariant forall j :: 0 <= j < k ==> !PathStartsAt(argv, index, paths[j])
    {
      var here := CommandPathStartsAt(argv, index, paths[k]);
      if here {
        return true;
      }
    }
    return false;
  }

  method FindCliCommandIndex(argv: seq<string>, paths: seq<seq<string>>, valueFlags: seq<string>) returns (found: int)
    ensures found == CommandIndex(argv, paths, valueFlags, 0)
  {
    hide StartsCommandAt;
    var index := 0;
    while index < |argv|
      invariant CommandIndex(argv, paths, valueFlags, index) == CommandIndex(argv, paths, valueFlags, 0)
      decreases |argv| - index
    {
      if !IsFlagToken(argv[index]) {
        var here := CommandStartsAt(argv, paths, index);
        return if here then index else -1;
      }
      var flag := argv[index][2..];
      var takesNext := '=' !in flag && flag !in BOOLEAN_FLAGS && index + 1 < |argv| && !IsFlagToken(argv[index + 1]);
      if takesNext && flag !in valueFlags {
        var next := CommandStartsAt(argv, paths, index + 1);
        var afterNext := CommandStartsAt(argv, paths, index + 2);
        takesNext := !(next && !afterNext);
      }
      index := index + if takesNext then 2 else 1;
    }
    return -1;
  }

  // Flags as they may stand between the words of a command: with their values.
  predicate WholeFlag(token: Token) {
    WellFormedToken(token) && !token.Word? && !token.Bare?
  }

  predicate WholeFlags(tokens: seq<Token>) {
    forall k :: 0 <= k < |tokens| ==> WholeFlag(tokens[k])
  }

  // Words, each with flags in front of it.
  function Interspersed(flags: seq<seq<Token>>, words: seq<string>): seq<string>
    requires |flags| == |words|
  {
    if words == [] then [] else Argv(flags[0]) + ([words[0]] + Interspersed(flags[1..], words[1..]))
  }

  lemma SkipOne(argv: seq<string>, cursor: nat, token: Token, rest: seq<string>)
    requires WholeFlag(token) && cursor <= |argv| && argv[cursor..] == Texts(token) + rest
    ensures SkipFlags(argv, cursor) == SkipFlags(argv, cursor + |Texts(token)|)
    ensures cursor + |Texts(token)| <= |argv| && argv[cursor + |Texts(token)|..] == rest
  {
    TextOfFlag(token);
    TextsThen(token, rest);
    assert argv[cursor] == argv[cursor..][0] == Texts(token)[0];
    assert argv[cursor + |Texts(token)|..] == argv[cursor..][|Texts(token)|..];
    hide IsFlagToken, Texts;
  }

  lemma SkipNone(argv: seq<string>, cursor: nat, word: string, rest: seq<string>)
    requires cursor <= |argv| && argv[cursor..] == [word] + rest && !IsFlagToken(word)
    ensures SkipFlags(argv, cursor) == cursor && cursor < |argv| && argv[cursor] == word && argv[cursor + 1..] == rest
  {
    hide IsFlagToken;
    assert argv[cursor] == argv[cursor..][0];
    assert argv[cursor + 1..] == argv[cursor..][1..];
  }

  lemma {:induction false} SkipWholeFlags(argv: seq<string>, cursor: nat, tokens: seq<Token>, word: string, rest: seq<string>)
    requires WholeFlags(tokens) && !IsFlagToken(word)
    requires cursor <= |argv| && argv[cursor..] == Argv(tokens) + ([word] + rest)
    ensures var c := SkipFlags(argv, cursor);
            c == cursor + |Argv(tokens)| && c < |argv| && argv[c] == word && argv[c + 1..] == rest
    decreases |tokens|
  {
    hide WholeFlag, IsFlagToken, Texts, SkipFlags;
    if tokens == [] {
      assert Argv(tokens) + ([word] + rest) == [word] + rest;
      SkipNone(argv, cursor, word, rest);
    } else {
      var later := Argv(tokens[1..]) + ([word] + rest);
      assert Argv(tokens) + ([word] + rest) == Texts(tokens[0]) + later;
      SkipOne(argv, cursor, tokens[0], later);
      SkipWholeFlags(argv, cursor + |Texts(tokens[0])|, tokens[1..], word, rest);
    }
  }

  // The walk along a command path skips flags with their values: it finds a path at a
  // position exactly when the words there, flags between them left out, begin with it.
  lemma {:induction false} PathStartsExactly(argv: seq<string>, cursor: nat, flags: seq<seq<Token>>, words: seq<string>,
                                             rest: seq<string>, path: seq<string>)
    requires |flags| == |words| && |path| <= |words|
    requires forall k :: 0 <= k < |words| ==> WholeFlags(flags[k]) && !IsFlagToken(words[k])
    requires cursor <= |argv| && argv[cursor..] == Interspersed(flags, words) + rest
    ensures PathStartsAt(argv, cursor, path) <==> path <= words
    decreases |words|
  {
    hide SkipFlags, IsFlagToken, Argv, WholeFlags;
    if path != [] {
      var later := Interspersed(flags[1..], words[1..]) + rest;
      assert Interspersed(flags, words) + rest == Argv(flags[0]) + ([words[0]] + later);
      SkipWholeFlags(argv, cursor, flags[0], words[0], later);
      var c := SkipFlags(argv, cursor);
      PathStartsExactly(argv, c + 1, flags[1..], words[1..], rest, path[1..]);
      assert path <= words <==> path[0] == words[0] && path[1..] <= words[1..];
    }
  }

  // The position, counted from `i`, at which the first word stands.
  function FirstWord(tokens: seq<Token>, i: nat): Option<nat> {
    if tokens == [] then None
    else if tokens[0].Word? then Some(i)
    else FirstWord(tokens[1..], i + |Texts(tokens[0])|)
  }

  // The two walks agree: what the search finds is the first word the parser finds, if a
  // known command starts there.
  predicate Agree(argv: seq<string>, paths: seq<seq<string>>, commandIndex: int, first: Option<nat>) {
    match first
    case None => commandIndex == -1
    case Some(p) => p < |argv| && commandIndex == if StartsCommandAt(argv, paths, p) then p else -1
  }

  // The length of the flag's token in the reading.
  lemma TokenLength(rest: seq<string>, i: nat, commandIndex: int)
    requires rest != [] && IsFlagToken(rest[0])
    ensures var token, flag := TokenAt(rest, i, commandIndex, true), rest[0][2..];
            && !token.Word?
            && |Texts(token)| == if && '=' !in flag && flag !in BOOLEAN_FLAGS && !Cut(i, commandIndex, true)
                                    && |rest| > 1 && !IsFlagToken(rest[1]) then 2 else 1
  {
    hide IsFlagToken, Cut;
  }

  // A flag that may take the word behind it takes it in the search unless that word is the
  // command found.
  lemma TakesUnlessCut(argv: seq<string>, paths: seq<seq<string>>, valueFlags: seq<string>, i: nat)
    requires i + 1 < |argv| && IsFlagToken(argv[i]) && !IsFlagToken(argv[i + 1])
    requires '=' !in argv[i][2..] && argv[i][2..] !in BOOLEAN_FLAGS
    ensures TakesNext(argv, paths, valueFlags, i) <==> !Cut(i, CommandIndex(argv, paths, valueFlags, i), true)
  {
    hide StartsCommandAt, IsFlagToken;
    var takes := TakesNext(argv, paths, valueFlags, i);
    assert CommandIndex(argv, paths, valueFlags, i) == CommandIndex(argv, paths, valueFlags, i + if takes then 2 else 1);
  }

  // How the parser reads a flag before any word, given where the search goes on.
  lemma FlagReading(argv: seq<string>, paths: seq<seq<string>>, valueFlags: seq<string>, i: nat)
    requires i < |argv| && IsFlagToken(argv[i])
    ensures var found := CommandIndex(argv, paths, valueFlags, i);
            var token := TokenAt(argv[i..], i, found, true);
            && !token.Word?
            && |Texts(token)| == (if TakesNext(argv, paths, valueFlags, i) then 2 else 1)
            && found == CommandIndex(argv, paths, valueFlags, i + |Texts(token)|)
  {
    var found, flag := CommandIndex(argv, paths, valueFlags, i), argv[i][2..];
    TokenLength(argv[i..], i, found);
    hide IsFlagToken, Cut, TokenAt, Texts, StartsCommandAt;
    if && i + 1 < |argv| && !IsFlagToken(argv[i + 1]) && '=' !in flag && flag !in BOOLEAN_FLAGS {
      TakesUnlessCut(argv, paths, valueFlags, i);
    }
  }

  // Up to the first word every flag takes a value in one walk exactly when it does in the
  // other.
  predicate SameValues(argv: seq<string>, paths: seq<seq<string>>, valueFlags: seq<string>, tokens: seq<Token>, i: nat) {
    tokens == [] || tokens[0].Word?
    || (&& i < |argv| && IsFlagToken(argv[i])
        && (tokens[0].Spaced? <==> TakesNext(argv, paths, valueFlags, i))
        && SameValues(argv, paths, valueFlags, tokens[1..], i + |Texts(tokens[0])|))
  }

  lemma ReadingEnds(argv: seq<string>, paths: seq<seq<string>>, valueFlags: seq<string>)
    ensures var i := |argv|;
            && argv[i..] == [] && CommandIndex(argv, paths, valueFlags, i) == -1
            && (forall found :: Reading([], i, found, true) == []) && FirstWord([], i) == None
            && SameValues(argv, paths, valueFlags, [], i)
  {
  }

  lemma FirstTokenIs(argv: seq<string>, paths: seq<seq<string>>, valueFlags: seq<string>,
                     token: Token, later: seq<Token>, i: nat)
    ensures FirstWord([token] + later, i) == if token.Word? then Some(i) else FirstWord(later, i + |Texts(token)|)
    ensures SameValues(argv, paths, valueFlags, [token] + later, i) <==>
              token.Word?
              || (i < |argv| && IsFlagToken(argv[i]) && (token.Spaced? <==> TakesNext(argv, paths, valueFlags, i))
                  && SameValues(argv, paths, valueFlags, later, i + |Texts(token)|))
  {
    assert ([token] + later)[1..] == later;
    hide Texts, TakesNext, IsFlagToken;
  }

  lemma SearchStopsAtWord(argv: seq<string>, paths: seq<seq<string>>, valueFlags: seq<string>, i: nat)
    requires i < |argv| && !IsFlagToken(argv[i])
    ensures Agree(argv, paths, CommandIndex(argv, paths, valueFlags, i), Some(i))
  {
    hide StartsCommandAt, IsFlagToken;
  }

  lemma NoneAgree(argv: seq<string>, paths: seq<seq<string>>)
    ensures Agree(argv, paths, -1, None)
  {
  }

  lemma TakesTwo(token: Token)
    ensures |Texts(token)| == if token.Spaced? then 2 else 1
  {
  }

  // From any position before the first word the search and the parser give the same flags
  // the same values, and so come to the same first word.
  lemma {:induction false} WalksAgree(argv: seq<string>, paths: seq<seq<string>>, valueFlags: seq<string>, i: nat)
    requires i <= |argv|
    ensures var found := CommandIndex(argv, paths, valueFlags, i);
            var tokens := Reading(argv[i..], i, found, true);
            && SameValues(argv, paths, valueFlags, tokens, i)
            && Agree(argv, paths, found, FirstWord(tokens, i))
    decreases |argv| - i
  {
    hide *;
    var found := CommandIndex(argv, paths, valueFlags, i);
    if i == |argv| {
      ReadingEnds(argv, paths, valueFlags);
      NoneAgree(argv, paths);
    } else {
      var rest := argv[i..];
      var token := TokenAt(rest, i, found, true);
      var n := |Texts(token)|;
      TakesTwo(token);
      ReadingUnfolds(rest, i, found, true);
      WordIsNoFlag(rest, i, found, true);
      var later := Reading(rest[n..], i + n, found, true && !token.Word?);
      FirstTokenIs(argv, paths, valueFlags, token, later, i);
      if IsFlagToken(argv[i]) {
        FlagReading(argv, paths, valueFlags, i);
        assert rest[n..] == argv[i + n..];
        WalksAgree(argv, paths, valueFlags, i + n);
      } else {
        SearchStopsAtWord(argv, paths, valueFlags, i);
      }
    }
  }

  // The search comes by position `i` before it meets a word.
  predicate Reaches(argv: seq<string>, paths: seq<seq<string>>, valueFlags: seq<string>, from: nat, i: nat)
    decreases i - from
  {
    from == i
    || (from < i <= |argv| && IsFlagToken(argv[from])
        && Reaches(argv, paths, valueFlags, from + (if TakesNext(argv, paths, valueFlags, from) then 2 else 1), i))
  }

  lemma {:induction false} ReachesSameIndex(argv: seq<string>, paths: seq<seq<string>>, valueFlags: seq<string>,
                                            from: nat, i: nat)
    requires Reaches(argv, paths, valueFlags, from, i)
    ensures CommandIndex(argv, paths, valueFlags, from) == CommandIndex(argv, paths, valueFlags, i)
    decreases i - from
  {
    hide TakesNext, IsFlagToken;
    if from != i {
      ReachesSameIndex(argv, paths, valueFlags, from + (if TakesNext(argv, paths, valueFlags, from) then 2 else 1), i);
    }
  }

  // A flag of its own: no equals sign, and it may take a value.
  predicate MayTake(token: string) {
    IsFlagToken(token) && '=' !in token[2..] && token[2..] !in BOOLEAN_FLAGS
  }

  // When a flag does take the word behind it though that word starts a command: exactly
  // when the flag is known to take values or a command starts behind that word as well.
  lemma FlagTakesCommandExactly(argv: seq<string>, paths: seq<seq<string>>, valueFlags: seq<string>, i: nat)
    requires Reaches(argv, paths, valueFlags, 0, i) && i + 1 < |argv| && MayTake(argv[i])
    requires !IsFlagToken(argv[i + 1]) && StartsCommandAt(argv, paths, i + 1)
    ensures var token := TokenAt(argv[i..], i, CommandIndex(argv, paths, valueFlags, 0), true);
            token.Spaced? <==> argv[i][2..] in valueFlags || StartsCommandAt(argv, paths, i + 2)
  {
    ReachesSameIndex(argv, paths, valueFlags, 0, i);
    FlagReading(argv, paths, valueFlags, i);
    TakesTwo(TokenAt(argv[i..], i, CommandIndex(argv, paths, valueFlags, i), true));
    hide StartsCommandAt, CommandIndex, TokenAt, Texts, IsFlagToken, Reaches, BOOLEAN_FLAGS;
  }

  // Such a line: `--x s s`, where `s` is a command.
  lemma FlagTakesCommand()
    ensures var argv, paths := ["--x", "s", "s"], [["s"]];
            && CommandIndex(argv, paths, [], 0) == 2 && StartsCommandAt(argv, paths, 1)
            && Parse(argv, 0, 2, NOTHING) == ParsedArgs(["s"], map["x" := Text("s")])
  {
    var argv, paths := ["--x", "s", "s"], [["s"]];
    WordStarts(argv, paths, 1);
    WordStarts(argv, paths, 2);
    ShortLine(argv, paths);
    var tokens := [Spaced("x", "s"), Word("s")];
    ShortReading(tokens);
    hide *;
    ParseTokens(tokens, 0, 2, NOTHING);
  }

  lemma WordStarts(argv: seq<string>, paths: seq<seq<string>>, i: nat)
    requires i < |argv| && !IsFlagToken(argv[i]) && paths == [[argv[i]]]
    ensures StartsCommandAt(argv, paths, i)
  {
    assert SkipFlags(argv, i) == i && [argv[i]][1..] == [];
    assert PathStartsAt(argv, i, paths[0]);
  }

  lemma ShortLine(argv: seq<string>, paths: seq<seq<string>>)
    requires argv == ["--x", "s", "s"] && StartsCommandAt(argv, paths, 1) && StartsCommandAt(argv, paths, 2)
    ensures CommandIndex(argv, paths, [], 0) == 2
  {
    hide StartsCommandAt;
    assert argv[0][2..] == "x";
    assert TakesNext(argv, paths, [], 0);
  }

  lemma ShortReading(tokens: seq<Token>)
    requires tokens == [Spaced("x", "s"), Word("s")]
    ensures WellFormed(tokens, 0, 2, NOTHING.commandPath == []) && Argv(tokens) == ["--x", "s", "s"]
    ensures Effects(tokens, NOTHING) == ParsedArgs(["s"], map["x" := Text("s")])
  {
    assert "--" + "x" == "--x" && "x"[..] == "x" && '=' !in "x" && "x" !in BOOLEAN_FLAGS;
    var first, second := tokens[0], tokens[1..];
    assert second == [Word("s")] && second[1..] == [];
    assert first == Spaced("x", "s");
    assert Argv(second) == ["s"] + Argv([]);
    assert Argv(tokens) == ["--x", "s"] + ["s"];
    assert Effects(second, Effect(first, NOTHING)) == Effects([], Effect(Word("s"), Effect(first, NOTHING)));
    assert [] + ["s"] == ["s"];
  }

  lemma {:induction false} WordsFromFront(token: Token, rest: seq<Token>)
    ensures WordsOf([token] + rest) == (if token.Word? then [token.text] else []) + WordsOf(rest)
    decreases |rest|
  {
    var all := [token] + rest;
    if rest == [] {
      assert all[..0] == [];
    } else {
      var n := |rest| - 1;
      assert all[..|all| - 1] == [token] + rest[..n];
      WordsFromFront(token, rest[..n]);
    }
  }

  lemma NothingLeads(i: nat)
    ensures FirstWord([], i) == None && WordsOf([]) == []
  {
  }

  lemma ArgvUnfolds(tokens: seq<Token>)
    requires tokens != []
    ensures Argv(tokens) == Texts(tokens[0]) + Argv(tokens[1..]) && |Texts(tokens[0])| > 0
    ensures tokens[0].Word? ==> Texts(tokens[0])[0] == tokens[0].text
  {
  }

  lemma FirstWordUnfolds(tokens: seq<Token>, i: nat)
    requires tokens != []
    ensures FirstWord(tokens, i) == if tokens[0].Word? then Some(i) else FirstWord(tokens[1..], i + |Texts(tokens[0])|)
  {
    hide Texts;
  }

  // The first word of the path is the first word of the line.
  predicate Leads(tokens: seq<Token>, i: nat) {
    match FirstWord(tokens, i)
    case None => WordsOf(tokens) == []
    case Some(p) => i <= p < i + |Argv(tokens)| && WordsOf(tokens) != [] && WordsOf(tokens)[0] == Argv(tokens)[p - i]
  }

  lemma {:induction false} FirstWordLeads(tokens: seq<Token>, i: nat)
    ensures Leads(tokens, i)
  {
    hide FirstWord, WordsOf, Argv, Texts;
    if tokens == [] {
      NothingLeads(i);
    } else {
      WordsFromFront(tokens[0], tokens[1..]);
      assert [tokens[0]] + tokens[1..] == tokens;
      ArgvUnfolds(tokens);
      FirstWordUnfolds(tokens, i);
      FirstWordLeads(tokens[1..], i + |Texts(tokens[0])|);
    }
  }

  // The search and the parser agree on the command: the token the search finds is the first
  // word of the parsed path, so it is no flag's value; and the search finds one whenever
  // that first word starts a command.
  lemma CommandIsNotSwallowed(argv: seq<string>, paths: seq<seq<string>>, valueFlags: seq<string>)
    ensures var found := CommandIndex(argv, paths, valueFlags, 0);
            var path := Parse(argv, 0, found, NOTHING).commandPath;
            var first := FirstWord(Reading(argv, 0, found, true), 0);
            && (path == [] <==> first == None)
            && (first.Some? ==> first.value < |argv| && path[0] == argv[first.value])
            && (found >= 0 <==> first.Some? && StartsCommandAt(argv, paths, first.value))
            && (found >= 0 ==> path != [] && path[0] == argv[found])
  {
    var found := CommandIndex(argv, paths, valueFlags, 0);
    var tokens := Reading(argv, 0, found, true);
    EveryLineIsParsedAsRead(argv, found, "");
    FirstWordLeads(tokens, 0);
    WalksAgree(argv, paths, valueFlags, 0);
    assert argv[0..] == argv;
    hide Parse, WordsOf, Argv, Reading, CommandIndex, StartsCommandAt, FirstWord, SameValues, Lookup, Held, ValuesOf;
  }
}
