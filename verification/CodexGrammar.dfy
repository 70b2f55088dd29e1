// What decides about a Codex command, said of the words as they are written
// (src/cli/codex-command-classification.ts).
module CodexGrammar {
  import opened Wrappers
  import opened CodexClassification

  // The word, whatever the case of its letters; the Kelvin sign is a K in lower case too.
  predicate SameLetter(c: char, letter: char) {
    || c == letter
    || ('a' <= letter <= 'z' && c == 'A' + (letter - 'a'))
    || (letter == 'k' && c == '\U{212A}')
  }

  predicate Spells(s: string, word: string) {
    |s| == |word| && forall k :: 0 <= k < |s| ==> SameLetter(s[k], word[k])
  }

  predicate IsLower(word: string) {
    forall k :: 0 <= k < |word| ==> !('A' <= word[k] <= 'Z') && word[k] != '\U{212A}'
  }

  predicate SpellsOne(s: string, words: set<string>) {
    exists word <- words :: IsLower(word) && Spells(s, word)
  }

  lemma LowerIsLower(s: string)
    ensures IsLower(Lower(s))
  {
  }

  lemma LowerSpells(s: string, word: string)
    requires IsLower(word)
    ensures Lower(s) == word <==> Spells(s, word)
  {
    if Spells(s, word) {
      assert forall k :: 0 <= k < |s| ==> LowerChar(s[k]) == word[k];
    }
    if Lower(s) == word {
      assert forall k :: 0 <= k < |s| ==> LowerChar(s[k]) == word[k];
    }
  }

  lemma LowerSpellsOne(s: string, words: set<string>)
    ensures Lower(s) in words <==> SpellsOne(s, words)
  {
    LowerIsLower(s);
    hide Lower, Spells, IsLower;
    if Lower(s) in words {
      LowerSpells(s, Lower(s));
    }
    if word :| word in words && IsLower(word) && Spells(s, word) {
      LowerSpells(s, word);
    }
  }

  // ---------------------------------------------------------------------------
  // Executables and assignments

  predicate IsSeparator(c: char) { c == '/' || c == '\\' }

  // A directory, ended by a separator, or none.
  predicate IsDirectory(s: string) {
    s == "" || IsSeparator(s[|s| - 1])
  }

  predicate IsFileName(s: string) {
    forall k :: 0 <= k < |s| ==> !IsSeparator(s[k])
  }

  lemma {:induction false} BasenameOf(directory: string, name: string)
    requires IsDirectory(directory) && IsFileName(name)
    ensures Basename(directory + name) == name
    decreases |name|
  {
    if name == "" {
      assert directory + name == directory;
    } else {
      var n := |name| - 1;
      BasenameOf(directory, name[..n]);
      assert directory + name == directory + name[..n] + [name[n]];
    }
  }

  // The executable is Codex exactly when its file name, whatever its directory and case, is
  // one of three.
  lemma ExecutableExactly(directory: string, name: string)
    requires IsDirectory(directory) && IsFileName(name)
    ensures IsCodexExecutable(directory + name)
       <==> Spells(name, "codex") || Spells(name, "codex.exe") || Spells(name, "codex.cmd")
  {
    BasenameOf(directory, name);
    LowerSpells(name, "codex");
    LowerSpells(name, "codex.exe");
    LowerSpells(name, "codex.cmd");
    hide Basename, Lower, Spells, IsDirectory, IsFileName;
  }

  lemma EnvExactly(directory: string, name: string)
    requires IsDirectory(directory) && IsFileName(name)
    ensures IsEnv(directory + name) <==> Spells(name, "env")
  {
    BasenameOf(directory, name);
    hide Basename;
  }

  predicate NameChar(c: char) { NameStart(c) || '0' <= c <= '9' }

  // A name of letters, digits and underscores that starts with no digit.
  predicate IsName(s: string) {
    s != "" && NameStart(s[0]) && forall k :: 0 <= k < |s| ==> NameChar(s[k])
  }

  predicate EqualsAt(s: string, n: nat) {
    n < |s| && s[n] == '=' && forall k :: 0 <= k < n ==> NameChar(s[k])
  }

  lemma {:induction false} NameThenEqualsExactly(s: string)
    ensures NameThenEquals(s) <==> exists n: nat :: EqualsAt(s, n)
  {
    if s != "" {
      NameThenEqualsExactly(s[1..]);
      if n: nat :| EqualsAt(s[1..], n) && NameChar(s[0]) {
        assert EqualsAt(s, n + 1);
      }
      if n: nat :| EqualsAt(s, n) {
        if n > 0 {
          assert EqualsAt(s[1..], n - 1);
        }
      }
      if s[0] == '=' {
        assert EqualsAt(s, 0);
      }
    }
  }

  // A token is an assignment exactly when it is a name, an equals sign and a value.
  lemma AssignmentExactly(token: string)
    ensures IsShellAssignment(token) <==> exists n: nat :: n < |token| && token[n] == '=' && IsName(token[..n])
  {
    if token != "" {
      NameThenEqualsExactly(token[1..]);
    }
    hide NameThenEquals;
    if IsShellAssignment(token) {
      var n: nat :| EqualsAt(token[1..], n);
      assert forall k :: 1 <= k < n + 1 ==> token[k] == token[1..][k - 1];
      assert IsName(token[..n + 1]);
    }
    if n: nat :| n < |token| && token[n] == '=' && IsName(token[..n]) {
      assert token[..n][0] == token[0];
      assert forall k :: 0 <= k < n - 1 ==> token[1..][k] == token[..n][k + 1];
      assert EqualsAt(token[1..], n - 1);
    }
  }

  // ---------------------------------------------------------------------------
  // Flags and the word behind them

  // The flag of a name, alone or with a value behind an equals sign.
  predicate Named(token: string, name: string) {
    '=' !in name && (token == name || name + "=" <= token)
  }

  predicate AnyNamed(token: string, names: set<string>) {
    exists name <- names :: Named(token, name)
  }

  lemma {:induction false} NamedExactly(token: string, name: string)
    ensures OptionName(token) == name <==> Named(token, name)
    decreases |token|
  {
    if token != "" && token[0] != '=' && name != "" {
      NamedExactly(token[1..], name[1..]);
      assert OptionName(token) == name <==> token[0] == name[0] && OptionName(token[1..]) == name[1..];
      assert token == [token[0]] + token[1..] && name == [name[0]] + name[1..];
      assert name + "=" <= token <==> token[0] == name[0] && name[1..] + "=" <= token[1..];
    }
  }

  lemma {:induction false} NameHasNoEquals(token: string)
    ensures '=' !in OptionName(token)
  {
    if token != "" {
      NameHasNoEquals(token[1..]);
    }
  }

  lemma AnyNamedExactly(token: string, names: set<string>)
    ensures OptionName(token) in names <==> AnyNamed(token, names)
  {
    hide OptionName, Named;
    if OptionName(token) in names {
      NamedExactly(token, OptionName(token));
    }
    if name :| name in names && Named(token, name) {
      NamedExactly(token, name);
    }
  }

  const HELP: set<string> := {"--help", "-h"}

  const VERSION: set<string> := {"--version", "-V"}

  lemma HelpExactly(token: string)
    ensures IsHelpFlag(OptionName(token)) <==> AnyNamed(token, HELP)
    ensures IsVersionFlag(OptionName(token)) <==> AnyNamed(token, VERSION)
  {
    AnyNamedExactly(token, HELP);
    AnyNamedExactly(token, VERSION);
    hide OptionName, AnyNamed;
  }

  // A known flag with all that belongs to it.
  predicate SpelledFlag(f: Flag, withValues: set<string>, switches: set<string>) {
    var token := FlagTexts(f)[0];
    && token != "--" && !AnyNamed(token, HELP) && !AnyNamed(token, VERSION)
    && (match f
        case Valued(name, _) => name in withValues && '=' !in name
        case Single(_) => if AnyNamed(token, withValues) then '=' in token else AnyNamed(token, switches))
  }

  lemma NameOfItself(token: string)
    ensures OptionName(token) == token <==> '=' !in token
  {
    NameHasNoEquals(token);
    if '=' !in token {
      NamedExactly(token, token);
    }
  }

  lemma CompleteExactly(f: Flag, withValues: set<string>, switches: set<string>)
    ensures CompleteFlag(f, withValues, switches) <==> SpelledFlag(f, withValues, switches)
  {
    var token := FlagTexts(f)[0];
    HelpExactly(token);
    AnyNamedExactly(token, withValues);
    AnyNamedExactly(token, switches);
    NameOfItself(token);
    hide OptionName, AnyNamed, IsHelpFlag, IsVersionFlag;
  }

  // Words that start with no such flag.
  predicate Stops(rest: seq<string>, withValues: set<string>, switches: set<string>) {
    || rest == [] || rest[0] == "--" || AnyNamed(rest[0], HELP) || AnyNamed(rest[0], VERSION)
    || (|rest| == 1 && rest[0] in withValues && '=' !in rest[0])
    || (!AnyNamed(rest[0], withValues) && !AnyNamed(rest[0], switches))
  }

  // The word that the search returns, if it returns one.
  function LeadWord(rest: seq<string>, withValues: set<string>): Option<string> {
    if rest == [] then None
    else if rest[0] == "--" then if |rest| > 1 && rest[1] != "" then Some("<prompt>") else None
    else if AnyNamed(rest[0], HELP) then Some("help")
    else if AnyNamed(rest[0], VERSION) then Some("version")
    else if rest[0] in withValues && '=' !in rest[0] then None
    else Some(rest[0])
  }

  predicate AllSpelled(flags: seq<Flag>, withValues: set<string>, switches: set<string>) {
    forall k :: 0 <= k < |flags| ==> SpelledFlag(flags[k], withValues, switches)
  }

  predicate SplitsInto(tokens: seq<string>, flags: seq<Flag>, rest: seq<string>,
                       withValues: set<string>, switches: set<string>) {
    tokens == AllFlagTexts(flags) + rest && AllSpelled(flags, withValues, switches) && Stops(rest, withValues, switches)
  }

  // Every list of words is known flags and then words that start with none.
  lemma {:induction false} Split(tokens: seq<string>, withValues: set<string>, switches: set<string>)
    returns (flags: seq<Flag>, rest: seq<string>)
    ensures SplitsInto(tokens, flags, rest, withValues, switches)
    decreases |tokens|
  {
    hide AnyNamed;
    flags, rest := [], tokens;
    if Stops(tokens, withValues, switches) {
      assert AllFlagTexts(flags) + rest == tokens;
    } else {
      var f := if tokens[0] in withValues && '=' !in tokens[0] then Valued(tokens[0], tokens[1]) else Single(tokens[0]);
      NamedByItself(tokens[0], withValues);
      var later;
      later, rest := Split(tokens[|FlagTexts(f)|..], withValues, switches);
      flags := [f] + later;
      assert flags[1..] == later;
      assert tokens == FlagTexts(f) + tokens[|FlagTexts(f)|..];
      FlagTextsSplit(flags, rest);
    }
  }

  lemma NamedByItself(token: string, names: set<string>)
    ensures '=' !in token ==> (token in names <==> AnyNamed(token, names))
  {
    assert '=' !in token ==> Named(token, token);
    assert forall name :: name + "=" <= token ==> token[|name|] == '=';
  }

  function ValueOf(found: Option<Subcommand>): Option<string> {
    match found
    case None => None
    case Some(sub) => Some(sub.value)
  }

  lemma AllComplete(flags: seq<Flag>, withValues: set<string>, switches: set<string>)
    ensures (forall k :: 0 <= k < |flags| ==> CompleteFlag(flags[k], withValues, switches))
       <==> AllSpelled(flags, withValues, switches)
  {
    hide CompleteFlag, SpelledFlag;
    forall k | 0 <= k < |flags|
      ensures CompleteFlag(flags[k], withValues, switches) <==> SpelledFlag(flags[k], withValues, switches)
    {
      CompleteExactly(flags[k], withValues, switches);
    }
  }

  // Behind known flags the search returns the word that leads the rest, and where it is.
  lemma FindsLeadWord(flags: seq<Flag>, rest: seq<string>, index: nat, withValues: set<string>, switches: set<string>)
    requires AllSpelled(flags, withValues, switches) && Stops(rest, withValues, switches)
    ensures var found := Find(AllFlagTexts(flags) + rest, index, withValues, switches);
            && ValueOf(found) == LeadWord(rest, withValues)
            && (found.Some? ==> found.value.index == index + |AllFlagTexts(flags)| + if rest[0] == "--" then 1 else 0)
  {
    hide *;
    AllComplete(flags, withValues, switches);
    FlagsAreSkipped(flags, rest, index, withValues, switches);
    LeadWordFound(rest, index + |AllFlagTexts(flags)|, withValues, switches);
  }

  lemma LeadWordFound(rest: seq<string>, index: nat, withValues: set<string>, switches: set<string>)
    requires Stops(rest, withValues, switches)
    ensures var found := Find(rest, index, withValues, switches);
            && ValueOf(found) == LeadWord(rest, withValues)
            && (found.Some? ==> rest != [] && found.value.index == index + if rest[0] == "--" then 1 else 0)
  {
    if rest != [] {
      HelpExactly(rest[0]);
      AnyNamedExactly(rest[0], withValues);
      AnyNamedExactly(rest[0], switches);
      NameOfItself(rest[0]);
      FindUnfolds(rest[0], rest[1..], index, withValues, switches);
      NothingFound(index + 2, withValues, switches);
      assert [rest[0]] + rest[1..] == rest;
    }
    hide OptionName, AnyNamed, IsHelpFlag, IsVersionFlag;
  }

  // The first word behind known flags spells one of the given words.
  ghost predicate LeadsWith(tokens: seq<string>, withValues: set<string>, switches: set<string>, words: set<string>) {
    exists flags, rest :: SplitsInto(tokens, flags, rest, withValues, switches) && LeadIsOne(rest, withValues, words)
  }

  predicate LeadIsOne(rest: seq<string>, withValues: set<string>, words: set<string>) {
    LeadWord(rest, withValues).Some? && SpellsOne(LeadWord(rest, withValues).value, words)
  }

  lemma LeadsWithExactly(tokens: seq<string>, withValues: set<string>, switches: set<string>, words: set<string>)
    ensures var found := Find(tokens, 0, withValues, switches);
            LeadsWith(tokens, withValues, switches, words) <==> found.Some? && Lower(found.value.value) in words
  {
    hide Find, Lower, SpellsOne, AllSpelled, Stops, LeadWord;
    var found := Find(tokens, 0, withValues, switches);
    if found.Some? {
      LowerSpellsOne(found.value.value, words);
    }
    var flags, rest := Split(tokens, withValues, switches);
    FindsLeadWord(flags, rest, 0, withValues, switches);
    if flags, rest :| SplitsInto(tokens, flags, rest, withValues, switches) && LeadIsOne(rest, withValues, words) {
      FindsLeadWord(flags, rest, 0, withValues, switches);
    }
  }

  // ---------------------------------------------------------------------------
  // The verdict on every Codex command

  predicate HasOne(tokens: seq<string>, words: set<string>) {
    exists k :: 0 <= k < |tokens| && tokens[k] in words
  }

  const LOGIN_WORDS: set<string> := {"--with-api-key", "--with-access-token", "--help", "-h"}

  const CLOUD_WORDS: set<string> := {"--help", "-h", "--version", "-V"}

  const LOGIN_ENDINGS: set<string> := {"status", "help"}

  const CLOUD_ENDINGS: set<string> := {"exec", "status", "list", "apply", "diff", "help"}

  // What a subcommand and the words behind it say: that no terminal is needed.
  ghost predicate NeedsNoTerminal(subcommand: string, after: seq<string>) {
    if Spells(subcommand, "login") then
      HasOne(after, LOGIN_WORDS) || LeadsWith(after, FLAGS_WITH_VALUES, LOGIN_BOOLEAN_FLAGS, LOGIN_ENDINGS)
    else if Spells(subcommand, "cloud") then
      HasOne(after, CLOUD_WORDS) || LeadsWith(after, FLAGS_WITH_VALUES, CLOUD_BOOLEAN_FLAGS, CLOUD_ENDINGS)
    else SpellsOne(subcommand, NON_INTERACTIVE)
  }

  lemma NeedsNoTerminalExactly(subcommand: string, after: seq<string>)
    ensures NonInteractiveAfter(subcommand, after) <==> NeedsNoTerminal(subcommand, after)
  {
    hide Lower, Spells, SpellsOne, LeadsWith, Find;
    LowerSpells(subcommand, "login");
    LowerSpells(subcommand, "cloud");
    LowerSpellsOne(subcommand, NON_INTERACTIVE);
    LeadsWithExactly(after, FLAGS_WITH_VALUES, LOGIN_BOOLEAN_FLAGS, LOGIN_ENDINGS);
    LeadsWithExactly(after, FLAGS_WITH_VALUES, CLOUD_BOOLEAN_FLAGS, CLOUD_ENDINGS);
  }

  predicate StartsWithLetter(word: string) {
    word != "" && 'a' <= word[0] <= 'z'
  }

  lemma SubcommandsAreLetters(word: string)
    requires word in NON_INTERACTIVE
    ensures StartsWithLetter(word)
  {
  }

  lemma PromptSpellsNothing(word: string)
    requires StartsWithLetter(word)
    ensures !Spells("<prompt>", word)
  {
    assert !SameLetter("<prompt>"[0], word[0]);
  }

  lemma PromptIsNoWord(after: seq<string>)
    ensures !NeedsNoTerminal("<prompt>", after)
  {
    PromptSpellsNothing("login");
    PromptSpellsNothing("cloud");
    hide Spells, HasOne, LeadsWith, IsLower;
    if word :| word in NON_INTERACTIVE && Spells("<prompt>", word) {
      SubcommandsAreLetters(word);
      PromptSpellsNothing(word);
    }
  }

  lemma LeadCases(rest: seq<string>, withValues: set<string>)
    ensures var word := LeadWord(rest, withValues);
            word.Some? ==> rest != [] && (rest[0] == "--" ==> |rest| > 1 && word.value == "<prompt>")
  {
  }

  lemma DecidesAt(command: seq<string>, found: Option<Subcommand>)
    ensures Decides(command, found) <==>
              found.Some? && NonInteractiveAfter(found.value.value,
                if found.value.index < |command| then command[found.value.index + 1..] else [])
  {
  }

  lemma TailBehind(front: seq<string>, rest: seq<string>, n: nat)
    requires n == |front| && rest != []
    ensures (front + rest)[n + 1..] == rest[1..]
  {
  }

  lemma DecidesExactly(executable: string, flags: seq<Flag>, rest: seq<string>)
    requires AllSpelled(flags, GLOBAL_FLAGS_WITH_VALUES, GLOBAL_BOOLEAN_FLAGS)
    requires Stops(rest, GLOBAL_FLAGS_WITH_VALUES, GLOBAL_BOOLEAN_FLAGS)
    ensures var command, word := [executable] + AllFlagTexts(flags) + rest, LeadWord(rest, GLOBAL_FLAGS_WITH_VALUES);
            Decides(command, Find(command[1..], 1, GLOBAL_FLAGS_WITH_VALUES, GLOBAL_BOOLEAN_FLAGS)) <==>
              word.Some? && NeedsNoTerminal(word.value, rest[1..])
  {
    var command, word := [executable] + AllFlagTexts(flags) + rest, LeadWord(rest, GLOBAL_FLAGS_WITH_VALUES);
    hide Decides, Find, LeadWord, NeedsNoTerminal, NonInteractiveAfter, AllFlagTexts, AllSpelled, Stops;
    assert command[1..] == AllFlagTexts(flags) + rest;
    FindsLeadWord(flags, rest, 1, GLOBAL_FLAGS_WITH_VALUES, GLOBAL_BOOLEAN_FLAGS);
    DecidesAt(command, Find(command[1..], 1, GLOBAL_FLAGS_WITH_VALUES, GLOBAL_BOOLEAN_FLAGS));
    LeadCases(rest, GLOBAL_FLAGS_WITH_VALUES);
    if word.Some? {
      TailBehind([executable] + AllFlagTexts(flags), rest, |AllFlagTexts(flags)| + 1);
      NeedsNoTerminalExactly(word.value, rest[1..]);
      if rest[0] == "--" {
        PromptIsNoWord(rest[1..]);
        PromptIsNoWord(command[|AllFlagTexts(flags)| + 3..]);
        NeedsNoTerminalExactly(word.value, command[|AllFlagTexts(flags)| + 3..]);
      }
    }
  }

  // A Codex command needs an interactive terminal unless a word leads it behind its known
  // flags that says otherwise.
  lemma InteractiveExactly(l: Launch)
    requires WellFormedLaunch(l) && Stops(l.rest, GLOBAL_FLAGS_WITH_VALUES, GLOBAL_BOOLEAN_FLAGS)
    ensures var word := LeadWord(l.rest, GLOBAL_FLAGS_WITH_VALUES);
            Verdict(LaunchTexts(l)) <==> word == None || !NeedsNoTerminal(word.value, l.rest[1..])
  {
    var command := [l.executable] + AllFlagTexts(l.flags) + l.rest;
    CommandIsStripped(l, command);
    VerdictOfStripped(LaunchTexts(l), command);
    AllComplete(l.flags, GLOBAL_FLAGS_WITH_VALUES, GLOBAL_BOOLEAN_FLAGS);
    hide *;
    DecidesExactly(l.executable, l.flags, l.rest);
  }
}
