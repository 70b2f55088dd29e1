// The command line that the Windows launcher hands to the real executable
// (native/windows-cli-launcher/OrcaCliLauncher.cs), and the Microsoft C runtime's
// rules for splitting a command line into arguments, which must undo it.
module WindowsCommandLine {

  // Char.IsWhiteSpace.
  predicate IsWhiteSpace(c: char) {
    || '\t' <= c <= '\r'
    || c == ' ' || c == '\U{85}' || c == '\U{A0}' || c == '\U{1680}'
    || '\U{2000}' <= c <= '\U{200A}'
    || c == '\U{2028}' || c == '\U{2029}' || c == '\U{202F}' || c == '\U{205F}' || c == '\U{3000}'
  }

  function Backslashes(n: nat): (s: string)
    ensures |s| == n && forall k :: 0 <= k < n ==> s[k] == '\\'
  {
    seq(n, _ => '\\')
  }

  predicate RequiresQuotes(value: string) {
    value == "" || exists k :: 0 <= k < |value| && (value[k] == '"' || IsWhiteSpace(value[k]))
  }

  // What is still to be written after `pending` backslashes, up to the closing quote.
  function QuotedTail(value: string, pending: nat): string
    decreases |value|
  {
    if value == "" then Backslashes(2 * pending) + "\""
    else if value[0] == '\\' then QuotedTail(value[1..], pending + 1)
    else if value[0] == '"' then Backslashes(2 * pending + 1) + "\"" + QuotedTail(value[1..], 0)
    else Backslashes(pending) + [value[0]] + QuotedTail(value[1..], 0)
  }

  function Quoted(value: string): string {
    if RequiresQuotes(value) then "\"" + QuotedTail(value, 0) else value
  }

  method QuoteArgument(value: string) returns (quoted: string)
    ensures quoted == Quoted(value)
  {
    var requiresQuotes := |value| == 0;
    var index := 0;
    while index < |value| && !requiresQuotes
      invariant 0 <= index <= |value|
      invariant requiresQuotes ==> RequiresQuotes(value)
      invariant !requiresQuotes ==>
        value != "" && forall k :: 0 <= k < index ==> value[k] != '"' && !IsWhiteSpace(value[k])
    {
      requiresQuotes := value[index] == '"' || IsWhiteSpace(value[index]);
      index := index + 1;
    }
    if !requiresQuotes {
      return value;
    }

    quoted := "\"";
    var backslashCount := 0;
    for i := 0 to |value|
      invariant quoted + QuotedTail(value[i..], backslashCount) == "\"" + QuotedTail(value, 0)
    {
      var character := value[i];
      assert value[i..][0] == character && value[i..][1..] == value[i + 1..];
      if character == '\\' {
        backslashCount := backslashCount + 1;
        continue;
      }
      ghost var written := quoted;
      if character == '"' {
        quoted := quoted + Backslashes(backslashCount * 2 + 1);
        quoted := quoted + "\"";
      } else {
        quoted := quoted + Backslashes(backslashCount);
        quoted := quoted + [character];
      }
      assert quoted + QuotedTail(value[i + 1..], 0) == written + QuotedTail(value[i..], backslashCount);
      backslashCount := 0;
    }
    assert value[|value|..] == "";
    quoted := quoted + Backslashes(backslashCount * 2);
    quoted := quoted + "\"";
  }

  function JoinQuoted(args: seq<string>): string {
    if args == [] then "" else " " + Quoted(args[0]) + JoinQuoted(args[1..])
  }

  function CommandLine(cliPath: string, args: seq<string>): string {
    Quoted(cliPath) + JoinQuoted(args)
  }

  method BuildArguments(cliPath: string, args: seq<string>) returns (commandLine: string)
    ensures commandLine == CommandLine(cliPath, args)
  {
    commandLine := QuoteArgument(cliPath);
    for i := 0 to |args|
      invariant commandLine + JoinQuoted(args[i..]) == CommandLine(cliPath, args)
    {
      assert args[i..][0] == args[i] && args[i..][1..] == args[i + 1..];
      ghost var before := commandLine;
      commandLine := commandLine + " ";
      var quoted := QuoteArgument(args[i]);
      commandLine := commandLine + quoted;
      assert commandLine + JoinQuoted(args[i + 1..]) == before + (" " + quoted + JoinQuoted(args[i + 1..]));
    }
    assert args[|args|..] == [];
  }

  // ---------------------------------------------------------------------------
  // The specification parser: the rules of the Microsoft C runtime for the arguments
  // after the program name ("Parsing C command-line arguments").

  predicate Blank(c: char) {
    c == ' ' || c == '\t'
  }

  // The length of the run of backslashes at the start of `s`.
  function RunLength(s: string): (n: nat)
    ensures n <= |s| && s[..n] == Backslashes(n)
    ensures n < |s| ==> s[n] != '\\'
  {
    if s != "" && s[0] == '\\' then 1 + RunLength(s[1..]) else 0
  }

  // The rest of the argument that `s` starts in, and what follows it.  A NUL ends the
  // command line.  An even run of backslashes before a quote halves and leaves the quote
  // a delimiter, an odd run halves and makes the quote literal; other backslashes are
  // literal; inside quotes a doubled quote is one literal quote.
  function Read(s: string, quoted: bool): (r: (string, string))
    ensures |r.1| <= |s|
    decreases |s|
  {
    if s == "" || s[0] == '\0' then ("", s)
    else if s[0] == '\\' then
      var n := RunLength(s);
      if n < |s| && s[n] == '"' then
        if n % 2 == 0 then Prefix(Backslashes(n / 2), Read(s[n..], quoted))
        else Prefix(Backslashes(n / 2) + "\"", Read(s[n + 1..], quoted))
      else Prefix(Backslashes(n), Read(s[n..], quoted))
    else if s[0] == '"' then
      if quoted && 1 < |s| && s[1] == '"' then Prefix("\"", Read(s[2..], quoted))
      else Read(s[1..], !quoted)
    else if Blank(s[0]) && !quoted then ("", s)
    else Prefix([s[0]], Read(s[1..], quoted))
  }

  function Prefix(part: string, r: (string, string)): (string, string) {
    (part + r.0, r.1)
  }

  function SkipBlanks(s: string): (r: string)
    ensures |r| <= |s| && (r != "" ==> !Blank(r[0]))
  {
    if s != "" && Blank(s[0]) then SkipBlanks(s[1..]) else s
  }

  lemma ReadProgress(s: string)
    requires s != "" && s[0] != '\0' && !Blank(s[0])
    ensures |Read(s, false).1| < |s|
  {
  }

  function Arguments(s: string): seq<string>
    decreases |s|
  {
    var t := SkipBlanks(s);
    if t == "" || t[0] == '\0' then []
    else
      ReadProgress(t);
      var (part, rest) := Read(t, false);
      [part] + Arguments(rest)
  }

  // ---------------------------------------------------------------------------
  // Round trip

  predicate NulFree(s: string) {
    forall k :: 0 <= k < |s| ==> s[k] != '\0'
  }

  // What follows an argument in a printed command line.
  predicate Ends(rest: string) {
    rest == "" || rest[0] == ' '
  }

  lemma {:induction false} RunLengthOf(n: nat, rest: string)
    requires rest == "" || rest[0] != '\\'
    ensures RunLength(Backslashes(n) + rest) == n
  {
    if n == 0 {
      assert Backslashes(0) + rest == rest;
    } else {
      assert (Backslashes(n) + rest)[1..] == Backslashes(n - 1) + rest;
      RunLengthOf(n - 1, rest);
    }
  }

  // A run of backslashes followed by anything but a quote is read literally.
  lemma ReadRun(n: nat, rest: string, quoted: bool)
    requires rest == "" || (rest[0] != '\\' && rest[0] != '"')
    ensures Read(Backslashes(n) + rest, quoted) == Prefix(Backslashes(n), Read(rest, quoted))
  {
    var s := Backslashes(n) + rest;
    if n == 0 {
      assert s == rest && Backslashes(0) + Read(rest, quoted).0 == Read(rest, quoted).0;
    } else {
      RunLengthOf(n, rest);
      assert s[0] == '\\' && s[n..] == rest;
    }
  }

  // A run of backslashes followed by a quote halves.
  lemma ReadRunBeforeQuote(n: nat, rest: string, quoted: bool)
    ensures Read(Backslashes(n) + ("\"" + rest), quoted)
         == if n % 2 == 0 then Prefix(Backslashes(n / 2), Read("\"" + rest, quoted))
            else Prefix(Backslashes(n / 2) + "\"", Read(rest, quoted))
  {
    var s := Backslashes(n) + ("\"" + rest);
    if n == 0 {
      assert s == "\"" + rest && Backslashes(0) + Read(s, quoted).0 == Read(s, quoted).0;
    } else {
      RunLengthOf(n, "\"" + rest);
      assert s[0] == '\\' && s[n..] == "\"" + rest && s[n + 1..] == rest;
    }
  }

  // Reading the rest of a quoted value yields the pending backslashes and the value.
  lemma {:induction false} ReadQuotedTail(value: string, pending: nat, rest: string)
    requires NulFree(value) && Ends(rest)
    ensures Read(QuotedTail(value, pending) + rest, true) == (Backslashes(pending) + value, rest)
    decreases |value|
  {
    hide Read;
    var s := QuotedTail(value, pending) + rest;
    if value == "" {
      assert s == Backslashes(2 * pending) + ("\"" + rest);
      ReadRunBeforeQuote(2 * pending, rest, true);
      ReadClosingQuote(rest);
      assert 2 * pending / 2 == pending && Backslashes(pending) + "" == Backslashes(pending) + value;
    } else if value[0] == '\\' {
      ReadQuotedTail(value[1..], pending + 1, rest);
      assert Backslashes(pending + 1) + value[1..] == Backslashes(pending) + value;
    } else if value[0] == '"' {
      var next := QuotedTail(value[1..], 0) + rest;
      assert s == Backslashes(2 * pending + 1) + ("\"" + next);
      ReadRunBeforeQuote(2 * pending + 1, next, true);
      ReadQuotedTail(value[1..], 0, rest);
      assert Backslashes(pending) + "\"" + (Backslashes(0) + value[1..]) == Backslashes(pending) + value;
    } else {
      var next := QuotedTail(value[1..], 0) + rest;
      assert s == Backslashes(pending) + ([value[0]] + next);
      ReadRun(pending, [value[0]] + next, true);
      ReadQuotedTail(value[1..], 0, rest);
      ReadOrdinary(value[0], next, true);
      assert Backslashes(pending) + ([value[0]] + (Backslashes(0) + value[1..])) == Backslashes(pending) + value;
    }
  }

  lemma ReadClosingQuote(rest: string)
    requires Ends(rest)
    ensures Read("\"" + rest, true) == ("", rest)
  {
    assert ("\"" + rest)[1..] == rest;
  }

  lemma ReadOpeningQuote(rest: string)
    ensures Read("\"" + rest, false) == Read(rest, true)
  {
    assert ("\"" + rest)[1..] == rest;
  }

  lemma ReadEnd(rest: string)
    requires Ends(rest)
    ensures Read(rest, false) == ("", rest)
  {
  }

  lemma ReadOrdinary(c: char, rest: string, quoted: bool)
    requires c != '\0' && c != '\\' && c != '"' && (quoted || !Blank(c))
    ensures Read([c] + rest, quoted) == Prefix([c], Read(rest, quoted))
  {
    assert ([c] + rest)[1..] == rest;
  }

  lemma BlankIsWhiteSpace(c: char)
    ensures Blank(c) ==> IsWhiteSpace(c)
  {
  }

  predicate Plain(value: string) {
    forall k :: 0 <= k < |value| ==> value[k] != '\0' && value[k] != '"' && !IsWhiteSpace(value[k])
  }

  // An unquoted value is read as it stands.
  lemma {:induction false} ReadPlain(value: string, rest: string)
    requires Plain(value) && Ends(rest)
    ensures Read(value + rest, false) == (value, rest)
    decreases |value|
  {
    hide Read, IsWhiteSpace;
    if value == "" {
      assert value + rest == rest;
      ReadEnd(rest);
    } else {
      BlankIsWhiteSpace(value[0]);
      var n := RunLength(value);
      if n == 0 {
        assert value + rest == [value[0]] + (value[1..] + rest);
        ReadPlain(value[1..], rest);
        ReadOrdinary(value[0], value[1..] + rest, false);
        assert [value[0]] + value[1..] == value;
      } else {
        assert value + rest == Backslashes(n) + (value[n..] + rest);
        ReadRun(n, value[n..] + rest, false);
        ReadPlain(value[n..], rest);
        assert Backslashes(n) + value[n..] == value;
      }
    }
  }

  lemma ReadQuoted(value: string, rest: string)
    requires NulFree(value) && Ends(rest)
    ensures Read(Quoted(value) + rest, false) == (value, rest)
  {
    hide Read;
    if RequiresQuotes(value) {
      assert Quoted(value) + rest == "\"" + (QuotedTail(value, 0) + rest);
      ReadOpeningQuote(QuotedTail(value, 0) + rest);
      ReadQuotedTail(value, 0, rest);
      assert Backslashes(0) + value == value;
    } else {
      ReadPlain(value, rest);
    }
  }

  lemma QuotedStart(value: string)
    requires NulFree(value)
    ensures Quoted(value) != "" && Quoted(value)[0] != '\0' && !Blank(Quoted(value)[0])
  {
  }

  // One printed argument at the start of what remains to be parsed.
  lemma ParseOne(value: string, rest: string)
    requires NulFree(value) && Ends(rest)
    ensures Arguments(Quoted(value) + rest) == [value] + Arguments(rest)
  {
    QuotedStart(value);
    ReadQuoted(value, rest);
    assert SkipBlanks(Quoted(value) + rest) == Quoted(value) + rest;
  }

  lemma ParseAfterSpace(line: string)
    requires line != "" && !Blank(line[0])
    ensures Arguments(" " + line) == Arguments(line)
  {
    assert (" " + line)[1..] == line;
    assert SkipBlanks(" " + line) == SkipBlanks(line);
  }

  lemma JoinUnfolds(args: seq<string>)
    requires args != []
    ensures JoinQuoted(args) == " " + (Quoted(args[0]) + JoinQuoted(args[1..]))
  {
    hide Quoted;
    assert " " + Quoted(args[0]) + JoinQuoted(args[1..]) == " " + (Quoted(args[0]) + JoinQuoted(args[1..]));
  }

  lemma JoinEnds(args: seq<string>)
    ensures Ends(JoinQuoted(args))
  {
    hide Quoted;
  }

  lemma NothingJoined()
    ensures Arguments(JoinQuoted([])) == []
  {
  }

  lemma {:induction false} ParseJoined(args: seq<string>)
    requires forall k :: 0 <= k < |args| ==> NulFree(args[k])
    ensures Arguments(JoinQuoted(args)) == args
  {
    hide *;
    if args == [] {
      NothingJoined();
    } else {
      JoinUnfolds(args);
      JoinEnds(args[1..]);
      QuotedStart(args[0]);
      ParseAfterSpace(Quoted(args[0]) + JoinQuoted(args[1..]));
      ParseOne(args[0], JoinQuoted(args[1..]));
      ParseJoined(args[1..]);
    }
  }

  // ---------------------------------------------------------------------------
  // Nothing the parser returns holds a NUL

  lemma PrefixIsNulFree(part: string, r: (string, string))
    ensures NulFree(part) && NulFree(r.0) ==> NulFree(Prefix(part, r).0)
    ensures forall n: nat :: NulFree(Backslashes(n)) && NulFree(Backslashes(n) + "\"")
  {
  }

  lemma {:induction false} ReadIsNulFree(s: string, quoted: bool)
    ensures NulFree(Read(s, quoted).0)
    decreases |s|
  {
    hide NulFree, Prefix, Backslashes;
    NothingIsNul();
    if s == "" || s[0] == '\0' {
    } else if s[0] == '\\' {
      var n := RunLength(s);
      ReadIsNulFree(s[n..], quoted);
      PrefixIsNulFree(Backslashes(n), Read(s[n..], quoted));
      PrefixIsNulFree(Backslashes(n / 2), Read(s[n..], quoted));
      if n < |s| {
        ReadIsNulFree(s[n + 1..], quoted);
        PrefixIsNulFree(Backslashes(n / 2) + "\"", Read(s[n + 1..], quoted));
      }
    } else {
      OneIsNulFree(s[0]);
      ReadIsNulFree(s[1..], quoted);
      ReadIsNulFree(s[1..], !quoted);
      PrefixIsNulFree([s[0]], Read(s[1..], quoted));
      if 1 < |s| {
        ReadIsNulFree(s[2..], quoted);
        PrefixIsNulFree("\"", Read(s[2..], quoted));
      }
    }
  }

  lemma NothingIsNul()
    ensures NulFree("") && NulFree("\"")
  {
  }

  lemma OneIsNulFree(c: char)
    ensures c != '\0' ==> NulFree([c])
  {
  }

  lemma {:induction false} ArgumentsAreNulFree(s: string)
    ensures forall k :: 0 <= k < |Arguments(s)| ==> NulFree(Arguments(s)[k])
    decreases |s|
  {
    var t := SkipBlanks(s);
    if t != "" && t[0] != '\0' {
      ReadIsNulFree(t, false);
      ReadProgress(t);
      ArgumentsAreNulFree(Read(t, false).1);
    }
  }

  lemma {:induction false} TailIsLonger(value: string, pending: nat)
    ensures |QuotedTail(value, pending)| > |value| + pending
    decreases |value|
  {
    if value != "" {
      TailIsLonger(value[1..], 0);
      TailIsLonger(value[1..], pending + 1);
    }
  }

  // An argument is written as it stands exactly when it is not empty and holds neither a
  // blank nor a quote.
  lemma WrittenAsItStands(value: string)
    ensures Quoted(value) == value <==> value != "" && forall k :: 0 <= k < |value| ==> value[k] != '"' && !IsWhiteSpace(value[k])
  {
    TailIsLonger(value, 0);
    hide IsWhiteSpace, QuotedTail;
  }

  // The child process receives exactly the script path and the arguments, whatever
  // quotes, blanks and backslashes they hold - unless one of them holds a NUL.
  lemma RoundTrip(cliPath: string, args: seq<string>)
    ensures Arguments(CommandLine(cliPath, args)) == [cliPath] + args
       <==> NulFree(cliPath) && forall k :: 0 <= k < |args| ==> NulFree(args[k])
  {
    hide Arguments, Quoted, JoinQuoted, NulFree;
    var parsed := Arguments(CommandLine(cliPath, args));
    if NulFree(cliPath) && forall k :: 0 <= k < |args| ==> NulFree(args[k]) {
      JoinEnds(args);
      ParseOne(cliPath, JoinQuoted(args));
      ParseJoined(args);
    }
    if parsed == [cliPath] + args {
      ArgumentsAreNulFree(CommandLine(cliPath, args));
      forall k | 0 <= k < |args|
        ensures NulFree(args[k])
      {
        assert parsed[k + 1] == args[k];
      }
      assert parsed[0] == cliPath;
    }
  }
}
