// Compaction of rendered browser tabs: inactive tab lines and their records are deleted
// in place and one marker line says how many (native/computer-use-linux/runtime.py).
module TabCompaction {
  import opened Wrappers
  import opened AccessibilityTree

  predicate IsDigit(c: char) { '0' <= c <= '9' }

  function DigitsLength(s: string): (n: nat)
    ensures n <= |s| && (forall k :: 0 <= k < n ==> IsDigit(s[k])) && (n < |s| ==> !IsDigit(s[n]))
  {
    if s != "" && IsDigit(s[0]) then 1 + DigitsLength(s[1..]) else 0
  }

  function Number(digits: string): nat
    requires forall k :: 0 <= k < |digits| ==> IsDigit(digits[k])
  {
    if digits == "" then 0
    else
      assert IsDigit(digits[|digits| - 1]);
      10 * Number(digits[..|digits| - 1]) + (digits[|digits| - 1] as int - '0' as int)
  }

  // The text after `depth` characters; a shorter line has none.
  function Unindented(line: string, depth: nat): string {
    if depth <= |line| then line[depth..] else ""
  }

  function RenderedElementIndex(line: string, depth: nat): Option<nat> {
    var text := Unindented(line, depth);
    var n := DigitsLength(text);
    if n == 0 then None else Some(Number(text[..n]))
  }

  // A letter of the pattern without regard to case; the dotted and dotless I count as i.
  predicate SameLetter(c: char, letter: char) {
    || c == letter
    || ('a' <= letter <= 'z' && c == 'A' + (letter - 'a'))
    || (letter == 'i' && (c == '\U{130}' || c == '\U{131}'))
  }

  predicate StartsWith(s: string, word: string) {
    |word| <= |s| && forall k :: 0 <= k < |word| ==> SameLetter(s[k], word[k])
  }

  // The word, then the end of the line or one of three separators.
  predicate IsWord(s: string, word: string) {
    && StartsWith(s, word)
    && var rest := s[|word|..];
       rest == "" || rest == "\n" || rest[0] == ' ' || rest[0] == '(' || rest[0] == ','
  }

  predicate IsDirectTabLine(line: string, depth: nat) {
    && depth <= |line| && line[..depth] == Tabs(depth)
    && var text := line[depth..];
       var n := DigitsLength(text);
       && 0 < n < |text| && text[n] == ' '
       && (IsWord(text[n + 1..], "page tab") || IsWord(text[n + 1..], "tab item") || IsWord(text[n + 1..], "tab"))
  }

  predicate Contains(s: string, part: string) {
    part <= s || (s != "" && Contains(s[1..], part))
  }

  function Strip(s: string): string {
    if s != "" && IsSpace(s[0]) then Strip(s[1..])
    else if s != "" && IsSpace(s[|s| - 1]) then Strip(s[..|s| - 1])
    else s
  }

  // The record with an index, the last one if several share it.
  function Lookup(records: seq<Record>, index: nat): Option<Record> {
    if records == [] then None
    else if records[|records| - 1].index == index then Some(records[|records| - 1])
    else Lookup(records[..|records| - 1], index)
  }

  predicate IsActiveTabLine(line: string, depth: nat, records: seq<Record>) {
    || Contains(line, "(selected")
    || (var index := RenderedElementIndex(line, depth);
        && index.Some? && Lookup(records, index.value).Some?
        && var record := Lookup(records, index.value).value;
           record.isSelected || Strip(record.value) == "1")
  }

  // ---------------------------------------------------------------------------
  // What compaction leaves: an independent definition

  predicate Omitted(line: string, depth: nat, records: seq<Record>) {
    IsDirectTabLine(line, depth) && !IsActiveTabLine(line, depth, records)
  }

  function Omissions(lines: seq<string>, records: seq<Record>, start: nat, depth: nat): (omit: seq<bool>)
    ensures |omit| == |lines|
    ensures forall i :: 0 <= i < |lines| ==> (omit[i] <==> start <= i && Omitted(lines[i], depth, records))
  {
    seq(|lines|, i requires 0 <= i < |lines| => start <= i && Omitted(lines[i], depth, records))
  }

  function Select<T>(s: seq<T>, omit: seq<bool>): seq<T>
    requires |s| == |omit|
  {
    if s == [] then [] else (if omit[0] then [] else [s[0]]) + Select(s[1..], omit[1..])
  }

  function Count(omit: seq<bool>): nat {
    if omit == [] then 0 else (if omit[0] then 1 else 0) + Count(omit[1..])
  }

  function TabFlags(lines: seq<string>, depth: nat): (flags: seq<bool>)
    ensures |flags| == |lines|
    ensures forall i :: 0 <= i < |lines| ==> (flags[i] <==> IsDirectTabLine(lines[i], depth))
  {
    seq(|lines|, i requires 0 <= i < |lines| => IsDirectTabLine(lines[i], depth))
  }

  function Positions(flags: seq<bool>, start: nat): (positions: seq<nat>)
    ensures forall k :: 0 <= k < |positions| ==> start <= positions[k] < |flags| && flags[positions[k]]
    ensures forall j, k :: 0 <= j < k < |positions| ==> positions[j] < positions[k]
    ensures forall i :: start <= i < |flags| && flags[i] ==> i in positions
  {
    if |flags| <= start then []
    else
      var last := |flags| - 1;
      Positions(flags[..last], start) + (if flags[last] then [last] else [])
  }

  // The positions of the tab lines from `start` on, in order.
  function TabPositions(lines: seq<string>, start: nat, depth: nat): seq<nat> {
    Positions(TabFlags(lines, depth), start)
  }

  lemma PositionsGrow(flags: seq<bool>, start: nat, n: nat)
    requires start <= n < |flags|
    ensures Positions(flags[..n + 1], start) == Positions(flags[..n], start) + (if flags[n] then [n] else [])
  {
    assert flags[..n + 1][..n] == flags[..n];
  }

  lemma PositionsAtEnds(flags: seq<bool>, start: nat)
    ensures start <= |flags| ==> Positions(flags[..start], start) == []
    ensures start >= |flags| ==> Positions(flags, start) == []
    ensures flags[..|flags|] == flags
  {
  }

  lemma TabPositionsAre(lines: seq<string>, start: nat, depth: nat)
    ensures TabPositions(lines, start, depth) == Positions(TabFlags(lines, depth), start)
  {
    hide Positions, TabFlags;
  }

  // One iteration of the comprehension's filter per line.
  method CollectTabPositions(lines: seq<string>, start: nat, depth: nat) returns (tabs: seq<nat>)
    ensures tabs == TabPositions(lines, start, depth)
  {
    hide *;
    tabs := [];
    ghost var flags := TabFlags(lines, depth);
    TabPositionsAre(lines, start, depth);
    PositionsAtEnds(flags, start);
    var lineIndex := start;
    while lineIndex < |lines|
      invariant start <= lineIndex
      invariant lineIndex <= |lines| ==> tabs == Positions(flags[..lineIndex], start)
      invariant lineIndex > |lines| ==> lineIndex == start && tabs == []
    {
      PositionsGrow(flags, start, lineIndex);
      if IsDirectTabLine(lines[lineIndex], depth) {
        tabs := tabs + [lineIndex];
      }
      lineIndex := lineIndex + 1;
    }
  }

  function Marker(depth: nat, count: nat): string {
    Tabs(depth) + "... " + Decimal(count) + " inactive browser tabs omitted"
  }

  predicate Compacts(lines: seq<string>, records: seq<Record>, start: nat, depth: nat) {
    var tabs := TabPositions(lines, start, depth);
    && |tabs| >= 10
    && (exists k :: 0 <= k < |tabs| && IsActiveTabLine(lines[tabs[k]], depth, records))
    && Count(Omissions(lines, records, start, depth)) > 0
  }

  function CompactedLines(lines: seq<string>, records: seq<Record>, start: nat, depth: nat): seq<string>
    requires Compacts(lines, records, start, depth)
  {
    var first := TabPositions(lines, start, depth)[0];
    var omit := Omissions(lines, records, start, depth);
    lines[..first] + [Marker(depth, Count(omit))] + Select(lines[first..], omit[first..])
  }

  // The indices rendered on omitted lines, from position `a` on.
  function OmittedIndices(lines: seq<string>, omit: seq<bool>, depth: nat, a: nat): set<nat>
    requires |lines| == |omit| && a <= |lines|
    decreases |lines| - a
  {
    if a == |lines| then {}
    else
      var index := RenderedElementIndex(lines[a], depth);
      (if omit[a] && index.Some? then {index.value} else {}) + OmittedIndices(lines, omit, depth, a + 1)
  }

  function KeepRecords(records: seq<Record>, omitted: set<nat>): seq<Record> {
    if records == [] then []
    else
      var last := records[|records| - 1];
      KeepRecords(records[..|records| - 1], omitted) + (if last.index in omitted then [] else [last])
  }

  function CompactedRecords(lines: seq<string>, records: seq<Record>, start: nat, depth: nat): seq<Record> {
    KeepRecords(records, OmittedIndices(lines, Omissions(lines, records, start, depth), depth, 0))
  }

  // Everything from position `a` on has been dealt with.
  predicate DoneFrom(a: nat, before: seq<string>, omit: seq<bool>, depth: nat,
                     lines: seq<string>, indexes: set<nat>, count: nat) {
    && |before| == |omit| && a <= |before|
    && lines == before[..a] + Select(before[a..], omit[a..])
    && indexes == OmittedIndices(before, omit, depth, a)
    && count == Count(omit[a..])
  }

  lemma OmittedIndicesStep(lines: seq<string>, omit: seq<bool>, depth: nat, a: nat)
    requires a < |lines| == |omit|
    ensures var index, later := RenderedElementIndex(lines[a], depth), OmittedIndices(lines, omit, depth, a + 1);
            OmittedIndices(lines, omit, depth, a) == if omit[a] && index.Some? then later + {index.value} else later
  {
    hide RenderedElementIndex;
  }

  lemma PrefixStep(before: seq<string>, p: nat, later: seq<string>)
    requires p < |before|
    ensures before[..p] + ([before[p]] + later) == before[..p + 1] + later
  {
  }

  lemma DoneOverOneKept(p: nat, before: seq<string>, omit: seq<bool>, depth: nat,
                        lines: seq<string>, indexes: set<nat>, count: nat)
    requires p < |before| && DoneFrom(p + 1, before, omit, depth, lines, indexes, count) && !omit[p]
    ensures DoneFrom(p, before, omit, depth, lines, indexes, count)
  {
    hide RenderedElementIndex, Select, Count, OmittedIndices;
    SelectStep(before, omit, p);
    OmittedIndicesStep(before, omit, depth, p);
    PrefixStep(before, p, Select(before[p + 1..], omit[p + 1..]));
  }

  lemma {:induction false} DoneOverKept(a: nat, b: nat, before: seq<string>, omit: seq<bool>, depth: nat,
                                        lines: seq<string>, indexes: set<nat>, count: nat)
    requires DoneFrom(b, before, omit, depth, lines, indexes, count)
    requires a <= b <= |before| == |omit| && forall j :: a <= j < b ==> !omit[j]
    ensures DoneFrom(a, before, omit, depth, lines, indexes, count)
    decreases b - a
  {
    hide *;
    if a < b {
      DoneOverOneKept(b - 1, before, omit, depth, lines, indexes, count);
      DoneOverKept(a, b - 1, before, omit, depth, lines, indexes, count);
    }
  }

  lemma DoneOverOmitted(a: nat, before: seq<string>, omit: seq<bool>, depth: nat,
                        lines: seq<string>, indexes: set<nat>, count: nat)
    requires a < |before| && DoneFrom(a + 1, before, omit, depth, lines, indexes, count) && omit[a]
    ensures a < |lines| && lines[a] == before[a]
    ensures var index := RenderedElementIndex(before[a], depth);
            DoneFrom(a, before, omit, depth, lines[..a] + lines[a + 1..],
                     if index.Some? then indexes + {index.value} else indexes, count + 1)
  {
    hide RenderedElementIndex, Select, Count, OmittedIndices;
    SelectStep(before, omit, a);
    OmittedIndicesStep(before, omit, depth, a);
    var later := Select(before[a + 1..], omit[a + 1..]);
    assert lines == before[..a + 1] + later;
    assert lines[..a] == before[..a] && lines[a + 1..] == later && [] + later == later;
  }

  lemma SelectStep<T>(s: seq<T>, omit: seq<bool>, a: nat)
    requires |s| == |omit| && a < |s|
    ensures Select(s[a..], omit[a..]) == (if omit[a] then [] else [s[a]]) + Select(s[a + 1..], omit[a + 1..])
    ensures Count(omit[a..]) == (if omit[a] then 1 else 0) + Count(omit[a + 1..])
  {
    assert s[a..][1..] == s[a + 1..] && omit[a..][1..] == omit[a + 1..];
  }

  lemma DoneAtEnd(before: seq<string>, omit: seq<bool>, depth: nat)
    requires |before| == |omit|
    ensures DoneFrom(|before|, before, omit, depth, before, {}, 0)
  {
    assert before[|before|..] == [] && omit[|before|..] == [];
    assert before[..|before|] + [] == before;
  }

  // Between two tab lines nothing is omitted.
  lemma NothingBetween(lines: seq<string>, records: seq<Record>, start: nat, depth: nat, k: nat)
    requires k < |TabPositions(lines, start, depth)|
    ensures var tabs := TabPositions(lines, start, depth);
            var omit := Omissions(lines, records, start, depth);
            && (omit[tabs[k]] <==> !IsActiveTabLine(lines[tabs[k]], depth, records))
            && (forall j :: tabs[k] < j < (if k + 1 < |tabs| then tabs[k + 1] else |lines|) ==> !omit[j])
            && (k == 0 ==> forall j :: 0 <= j < tabs[0] ==> !omit[j])
  {
    hide IsActiveTabLine, IsDirectTabLine;
    var tabs := TabPositions(lines, start, depth);
    forall j | start <= j < |lines| && IsDirectTabLine(lines[j], depth)
      ensures exists m :: 0 <= m < |tabs| && tabs[m] == j
    {
      assert j in tabs;
    }
  }

  lemma CompactedFrom(lines: seq<string>, records: seq<Record>, start: nat, depth: nat)
    requires |TabPositions(lines, start, depth)| > 0
    ensures var first := TabPositions(lines, start, depth)[0];
            var omit := Omissions(lines, records, start, depth);
            && Count(omit) == Count(omit[first..])
            && OmittedIndices(lines, omit, depth, 0) == OmittedIndices(lines, omit, depth, first)
  {
    hide IsActiveTabLine, IsDirectTabLine, RenderedElementIndex;
    var first := TabPositions(lines, start, depth)[0];
    var omit := Omissions(lines, records, start, depth);
    NothingBetween(lines, records, start, depth, 0);
    var all := lines[..first] + Select(lines[first..], omit[first..]);
    DoneOverKept(0, first, lines, omit, depth, all, OmittedIndices(lines, omit, depth, first), Count(omit[first..]));
    assert omit[0..] == omit;
  }

  lemma TabsInRange(lines: seq<string>, start: nat, depth: nat)
    ensures var tabs := TabPositions(lines, start, depth);
            && (forall k :: 0 <= k < |tabs| ==> tabs[k] < |lines|)
            && (forall j, k :: 0 <= j < k < |tabs| ==> tabs[j] < tabs[k])
  {
  }

  // The positions of the active tab lines.
  function ActiveTabs(lines: seq<string>, records: seq<Record>, tabs: seq<nat>, depth: nat): (active: set<nat>)
    requires forall k :: 0 <= k < |tabs| ==> tabs[k] < |lines|
    ensures forall k :: 0 <= k < |tabs| ==>
      (tabs[k] in active <==> IsActiveTabLine(lines[tabs[k]], depth, records))
    ensures active == {} <==> forall k :: 0 <= k < |tabs| ==> tabs[k] !in active
  {
    set t | t in tabs && IsActiveTabLine(lines[t], depth, records)
  }

  // When the method returns before deleting anything.
  lemma Untouched(lines: seq<string>, records: seq<Record>, start: nat, depth: nat)
    ensures |TabPositions(lines, start, depth)| < 10 ==> !Compacts(lines, records, start, depth)
    ensures (forall k :: 0 <= k < |TabPositions(lines, start, depth)| ==>
               TabPositions(lines, start, depth)[k] < |lines|
               && !IsActiveTabLine(lines[TabPositions(lines, start, depth)[k]], depth, records))
            ==> !Compacts(lines, records, start, depth)
  {
    hide IsActiveTabLine, IsDirectTabLine;
  }

  class Rendering {
    var records: seq<Record>
    var lines: seq<string>

    constructor (records: seq<Record>, lines: seq<string>)
      ensures this.records == records && this.lines == lines
    {
      this.records, this.lines := records, lines;
    }

    // Below ten tabs, without an active tab or without an inactive one nothing changes.
    method CompactRenderedBrowserTabs(startLine: nat, depth: nat)
      modifies this
      ensures !Compacts(old(lines), old(records), startLine, depth) ==> lines == old(lines) && records == old(records)
      ensures Compacts(old(lines), old(records), startLine, depth) ==>
        && lines == CompactedLines(old(lines), old(records), startLine, depth)
        && records == CompactedRecords(old(lines), old(records), startLine, depth)
    {
      hide *;
      var tabs := CollectTabPositions(lines, startLine, depth);
      TabsInRange(lines, startLine, depth);
      ghost var before := lines;
      ghost var omit := Omissions(lines, records, startLine, depth);
      Untouched(before, records, startLine, depth);
      if |tabs| < 10 {
        return;
      }
      var active := ActiveTabs(lines, records, tabs, depth);
      if active == {} {
        return;
      }

      ghost var position := |before|;
      var omittedIndexes: set<nat> := {};
      var omittedCount := 0;
      DoneAtEnd(before, omit, depth);
      var k := |tabs|;
      while k > 0
        invariant 0 <= k <= |tabs|
        invariant records == old(records)
        invariant position == if k < |tabs| then tabs[k] else |before|
        invariant DoneFrom(position, before, omit, depth, lines, omittedIndexes, omittedCount)
      {
        k := k - 1;
        var t := tabs[k];
        NothingBetween(before, records, startLine, depth, k);
        DoneOverKept(t + 1, position, before, omit, depth, lines, omittedIndexes, omittedCount);
        position := t;
        if t in active {
          DoneOverKept(t, t + 1, before, omit, depth, lines, omittedIndexes, omittedCount);
          continue;
        }
        DoneOverOmitted(t, before, omit, depth, lines, omittedIndexes, omittedCount);
        var recordIndex := RenderedElementIndex(lines[t], depth);
        if recordIndex.Some? {
          omittedIndexes := omittedIndexes + {recordIndex.value};
        }
        lines := lines[..t] + lines[t + 1..];
        omittedCount := omittedCount + 1;
      }
      Finish(before, records, startLine, depth, lines, omittedIndexes, omittedCount);
      if omittedCount <= 0 {
        return;
      }
      records := KeepRecords(records, omittedIndexes);
      lines := lines[..tabs[0]] + [Marker(depth, omittedCount)] + lines[tabs[0]..];
    }
  }

  lemma Finish(before: seq<string>, records: seq<Record>, start: nat, depth: nat,
               lines: seq<string>, indexes: set<nat>, count: nat)
    requires |TabPositions(before, start, depth)| >= 10
    requires exists k :: 0 <= k < |TabPositions(before, start, depth)|
                         && IsActiveTabLine(before[TabPositions(before, start, depth)[k]], depth, records)
    requires DoneFrom(TabPositions(before, start, depth)[0], before, Omissions(before, records, start, depth),
                      depth, lines, indexes, count)
    ensures var first := TabPositions(before, start, depth)[0];
            && first <= |lines|
            && (count == 0 ==> !Compacts(before, records, start, depth) && lines == before)
            && (count > 0 ==>
                  && Compacts(before, records, start, depth)
                  && lines[..first] + [Marker(depth, count)] + lines[first..] == CompactedLines(before, records, start, depth)
                  && KeepRecords(records, indexes) == CompactedRecords(before, records, start, depth))
  {
    hide IsActiveTabLine, IsDirectTabLine, RenderedElementIndex;
    var first := TabPositions(before, start, depth)[0];
    var omit := Omissions(before, records, start, depth);
    CompactedFrom(before, records, start, depth);
    assert lines[..first] == before[..first] && lines[first..] == Select(before[first..], omit[first..]);
    hide Select, Count, OmittedIndices, TabPositions;
    if count == 0 {
      SelectAll(before[first..], omit[first..]);
      assert before[..first] + before[first..] == before;
    }
  }

  lemma {:induction false} SelectAll<T>(s: seq<T>, omit: seq<bool>)
    requires |s| == |omit| && Count(omit) == 0
    ensures Select(s, omit) == s
  {
    if s != [] {
      SelectAll(s[1..], omit[1..]);
    }
  }

  // ---------------------------------------------------------------------------
  // Which records go: exactly those of the omitted lines

  ghost predicate DistinctIndices(records: seq<Record>) {
    forall i, j :: 0 <= i < j < |records| ==> records[i].index != records[j].index
  }

  // Every tab line from `start` on renders the index of the record at its own position.
  ghost predicate Aligned(lines: seq<string>, records: seq<Record>, start: nat, depth: nat) {
    && |lines| == |records| && DistinctIndices(records)
    && (forall i :: start <= i < |lines| && IsDirectTabLine(lines[i], depth) ==>
          RenderedElementIndex(lines[i], depth) == Some(records[i].index))
  }

  lemma {:induction false} OmittedIndicesMembers(lines: seq<string>, omit: seq<bool>, depth: nat, a: nat, v: nat)
    requires |lines| == |omit| && a <= |lines|
    ensures v in OmittedIndices(lines, omit, depth, a) <==>
              exists i :: a <= i < |lines| && omit[i] && RenderedElementIndex(lines[i], depth) == Some(v)
    decreases |lines| - a
  {
    hide RenderedElementIndex;
    if a < |lines| {
      OmittedIndicesMembers(lines, omit, depth, a + 1, v);
    }
  }

  lemma {:induction false} KeepIsSelect(records: seq<Record>, omit: seq<bool>, omitted: set<nat>)
    requires |records| == |omit| && forall j :: 0 <= j < |records| ==> (records[j].index in omitted <==> omit[j])
    ensures KeepRecords(records, omitted) == Select(records, omit)
    decreases |records|
  {
    if records != [] {
      var n := |records| - 1;
      KeepIsSelect(records[..n], omit[..n], omitted);
      SelectLast(records, omit);
    }
  }

  lemma {:induction false} SelectLast<T>(s: seq<T>, omit: seq<bool>)
    requires |s| == |omit| > 0
    ensures Select(s, omit) == Select(s[..|s| - 1], omit[..|s| - 1]) + (if omit[|s| - 1] then [] else [s[|s| - 1]])
  {
    var n := |s| - 1;
    if n == 0 {
      assert Select(s[1..], omit[1..]) == [] && s[..0] == [];
    } else {
      SelectLast(s[1..], omit[1..]);
      assert s[1..][..n - 1] == s[..n][1..] && omit[1..][..n - 1] == omit[..n][1..];
    }
  }

  lemma AlignedOmissions(lines: seq<string>, records: seq<Record>, start: nat, depth: nat, j: nat)
    requires Aligned(lines, records, start, depth) && j < |records|
    ensures records[j].index in OmittedIndices(lines, Omissions(lines, records, start, depth), depth, 0)
       <==> Omissions(lines, records, start, depth)[j]
  {
    hide IsActiveTabLine, IsDirectTabLine, RenderedElementIndex;
    OmittedIndicesMembers(lines, Omissions(lines, records, start, depth), depth, 0, records[j].index);
  }

  // Lines and records are filtered alike: what goes is exactly the inactive tab lines at
  // the depth from the start line on, and the records of those lines.
  lemma CompactionRemovesTheirRecords(lines: seq<string>, records: seq<Record>, start: nat, depth: nat)
    requires Aligned(lines, records, start, depth)
    ensures CompactedRecords(lines, records, start, depth)
         == Select(records, Omissions(lines, records, start, depth))
  {
    hide IsActiveTabLine, IsDirectTabLine, RenderedElementIndex;
    var omit := Omissions(lines, records, start, depth);
    var omitted := OmittedIndices(lines, omit, depth, 0);
    forall j | 0 <= j < |records|
      ensures records[j].index in omitted <==> omit[j]
    {
      AlignedOmissions(lines, records, start, depth, j);
    }
    KeepIsSelect(records, omit, omitted);
  }

  lemma {:induction false} LookupFinds(records: seq<Record>, k: nat)
    requires DistinctIndices(records) && k < |records|
    ensures Lookup(records, records[k].index) == Some(records[k])
  {
    if k < |records| - 1 {
      LookupFinds(records[..|records| - 1], k);
    }
  }

  predicate OccursAt(s: string, part: string, i: nat) {
    i + |part| <= |s| && s[i..i + |part|] == part
  }

  lemma OccursLater(s: string, part: string, i: nat)
    requires s != ""
    ensures OccursAt(s[1..], part, i) <==> OccursAt(s, part, i + 1)
  {
    if i + 1 + |part| <= |s| {
      assert s[1..][i..i + |part|] == s[i + 1..i + 1 + |part|];
    }
  }

  lemma OccursFirst(s: string, part: string)
    ensures OccursAt(s, part, 0) <==> part <= s
    ensures s == "" ==> forall i: nat :: OccursAt(s, part, i) ==> i == 0
  {
    if |part| <= |s| {
      assert s[0..0 + |part|] == s[..|part|];
    }
  }

  lemma {:induction false} ContainsExactly(s: string, part: string)
    ensures Contains(s, part) <==> exists i: nat :: OccursAt(s, part, i)
  {
    hide OccursAt;
    OccursFirst(s, part);
    if s != "" {
      ContainsExactly(s[1..], part);
      if i: nat :| OccursAt(s[1..], part, i) {
        OccursLater(s, part, i);
      }
      if i: nat :| OccursAt(s, part, i) && i > 0 {
        OccursLater(s, part, i - 1);
      }
    }
  }

  // A 1 with nothing but blanks around it.
  predicate IsOne(value: string, k: nat) {
    k < |value| && value[k] == '1' && forall j :: 0 <= j < |value| && j != k ==> IsSpace(value[j])
  }

  lemma {:induction false} StripExactly(value: string)
    ensures Strip(value) == "1" <==> exists k: nat :: IsOne(value, k)
    decreases |value|
  {
    if value != "" && IsSpace(value[0]) {
      var later := value[1..];
      StripExactly(later);
      if k: nat :| IsOne(later, k) {
        assert forall j :: 1 <= j < |value| ==> value[j] == later[j - 1];
        assert IsOne(value, k + 1);
      }
      if k: nat :| IsOne(value, k) {
        assert IsOne(later, k - 1);
      }
    } else if value != "" && IsSpace(value[|value| - 1]) {
      var front := value[..|value| - 1];
      StripExactly(front);
      if k: nat :| IsOne(front, k) {
        assert forall j :: 0 <= j < |front| ==> value[j] == front[j];
        assert IsOne(value, k);
      }
      if k: nat :| IsOne(value, k) {
        assert IsOne(front, k);
      }
    } else {
      if value == "1" {
        assert IsOne(value, 0);
      }
      if k: nat :| IsOne(value, k) {
        assert value == [value[0]];
      }
    }
  }

  lemma ActiveByRecord(line: string, depth: nat, records: seq<Record>, i: nat)
    requires i < |records| && RenderedElementIndex(line, depth) == Some(records[i].index)
    requires Lookup(records, records[i].index) == Some(records[i])
    ensures IsActiveTabLine(line, depth, records)
       <==> Contains(line, "(selected") || records[i].isSelected || Strip(records[i].value) == "1"
  {
    hide RenderedElementIndex, Contains, Lookup, Strip;
  }

  // Which tab lines stay: those that say they are selected, and those whose own record is
  // selected or has the value 1.
  lemma ActiveExactly(lines: seq<string>, records: seq<Record>, start: nat, depth: nat, i: nat)
    requires Aligned(lines, records, start, depth) && start <= i < |lines| && IsDirectTabLine(lines[i], depth)
    ensures IsActiveTabLine(lines[i], depth, records) <==>
              || (exists k: nat :: OccursAt(lines[i], "(selected", k))
              || records[i].isSelected || (exists k: nat :: IsOne(records[i].value, k))
  {
    hide IsDirectTabLine, RenderedElementIndex, IsActiveTabLine, Contains, Strip, Lookup, OccursAt, IsOne;
    assert RenderedElementIndex(lines[i], depth) == Some(records[i].index);
    StripExactly(records[i].value);
    ContainsExactly(lines[i], "(selected");
    LookupFinds(records, i);
    ActiveByRecord(lines[i], depth, records, i);
  }

  // A tab line, spelled out: tabs, the digits of an index, a blank and one of three names in
  // any case, ended by the line or by a blank, a bracket or a comma.
  predicate TabLine(line: string, depth: nat, digits: string, name: string, rest: string) {
    && line == Tabs(depth) + (digits + (" " + (name + rest)))
    && digits != "" && (forall k :: 0 <= k < |digits| ==> IsDigit(digits[k]))
    && (IsName(name, "page tab") || IsName(name, "tab item") || IsName(name, "tab"))
    && (rest == "" || rest == "\n" || rest[0] == ' ' || rest[0] == '(' || rest[0] == ',')
  }

  lemma WordParts(s: string, word: string)
    requires IsWord(s, word)
    ensures |word| <= |s| && IsName(s[..|word|], word)
    ensures var rest := s[|word|..]; rest == "" || rest == "\n" || rest[0] == ' ' || rest[0] == '(' || rest[0] == ','
  {
    hide SameLetter;
  }

  lemma WordOfParts(name: string, rest: string, word: string)
    requires IsName(name, word) && (rest == "" || rest == "\n" || rest[0] == ' ' || rest[0] == '(' || rest[0] == ',')
    ensures IsWord(name + rest, word)
  {
    hide SameLetter;
    assert (name + rest)[|word|..] == rest;
  }

  lemma DirectTabParts(line: string, depth: nat)
    requires IsDirectTabLine(line, depth)
    ensures depth <= |line| && line[..depth] == Tabs(depth)
    ensures var text := line[depth..];
            var n := DigitsLength(text);
            && 0 < n < |text| && text[n] == ' '
            && (IsWord(text[n + 1..], "page tab") || IsWord(text[n + 1..], "tab item") || IsWord(text[n + 1..], "tab"))
  {
    hide IsWord, Tabs, DigitsLength;
  }

  lemma TabLineIs(line: string, depth: nat, digits: string, name: string, rest: string)
    ensures TabLine(line, depth, digits, name, rest) <==>
              && line == Tabs(depth) + (digits + (" " + (name + rest)))
              && digits != "" && (forall k :: 0 <= k < |digits| ==> IsDigit(digits[k]))
              && (IsName(name, "page tab") || IsName(name, "tab item") || IsName(name, "tab"))
              && (rest == "" || rest == "\n" || rest[0] == ' ' || rest[0] == '(' || rest[0] == ',')
  {
    hide IsName, Tabs, IsDigit;
  }

  lemma SplitName(tail: string) returns (name: string, rest: string)
    requires IsWord(tail, "page tab") || IsWord(tail, "tab item") || IsWord(tail, "tab")
    ensures tail == name + rest && (IsName(name, "page tab") || IsName(name, "tab item") || IsName(name, "tab"))
    ensures rest == "" || rest == "\n" || rest[0] == ' ' || rest[0] == '(' || rest[0] == ','
  {
    hide *;
    var word := if IsWord(tail, "page tab") then "page tab" else if IsWord(tail, "tab item") then "tab item" else "tab";
    WordParts(tail, word);
    name, rest := tail[..|word|], tail[|word|..];
  }

  lemma Rejoined(line: string, depth: nat, n: nat, tail: string)
    requires depth + n < |line| && line[depth + n] == ' ' && tail == line[depth..][n + 1..]
    ensures line == line[..depth] + (line[depth..][..n] + (" " + tail))
  {
  }

  lemma SplitTabLine(line: string, depth: nat) returns (digits: string, name: string, rest: string)
    requires IsDirectTabLine(line, depth)
    ensures TabLine(line, depth, digits, name, rest)
  {
    hide *;
    DirectTabParts(line, depth);
    var text := line[depth..];
    var n := DigitsLength(text);
    digits := text[..n];
    name, rest := SplitName(text[n + 1..]);
    Rejoined(line, depth, n, text[n + 1..]);
    TabLineIs(line, depth, digits, name, rest);
  }

  lemma JoinTabLine(line: string, depth: nat, digits: string, name: string, rest: string)
    requires TabLine(line, depth, digits, name, rest)
    ensures IsDirectTabLine(line, depth)
  {
    var after := " " + (name + rest);
    assert |Tabs(depth)| == depth;
    assert line[depth..] == digits + after && line[..depth] == Tabs(depth);
    hide IsWord, IsName, Tabs;
    DigitsThenOther(digits, after);
    assert (digits + after)[|digits|] == ' ' && (digits + after)[|digits| + 1..] == name + rest;
    if IsName(name, "page tab") {
      WordOfParts(name, rest, "page tab");
    } else if IsName(name, "tab item") {
      WordOfParts(name, rest, "tab item");
    } else {
      WordOfParts(name, rest, "tab");
    }
  }

  lemma TabLineExactly(line: string, depth: nat)
    ensures IsDirectTabLine(line, depth) <==> exists digits, name, rest :: TabLine(line, depth, digits, name, rest)
  {
    hide IsDirectTabLine, TabLine;
    if IsDirectTabLine(line, depth) {
      var digits, name, rest := SplitTabLine(line, depth);
    }
    if digits, name, rest :| TabLine(line, depth, digits, name, rest) {
      JoinTabLine(line, depth, digits, name, rest);
    }
  }

  // The word, whatever the case of its letters.
  predicate IsName(name: string, word: string) {
    |name| == |word| && StartsWith(name, word)
  }

  // ---------------------------------------------------------------------------
  // Compaction is final: a second pass changes nothing

  lemma {:induction false} KeepLookup(records: seq<Record>, omitted: set<nat>, index: nat)
    requires index !in omitted
    ensures Lookup(KeepRecords(records, omitted), index) == Lookup(records, index)
  {
    if records != [] {
      var n := |records| - 1;
      KeepLookup(records[..n], omitted, index);
      var kept := KeepRecords(records[..n], omitted);
      if records[n].index !in omitted {
        assert (kept + [records[n]])[..|kept|] == kept;
      } else {
        assert kept + [] == kept;
      }
    }
  }

  lemma {:induction false} SelectedFrom<T>(s: seq<T>, omit: seq<bool>, k: nat) returns (i: nat)
    requires |s| == |omit| && k < |Select(s, omit)|
    ensures i < |s| && !omit[i] && s[i] == Select(s, omit)[k]
  {
    if omit[0] {
      i := SelectedFrom(s[1..], omit[1..], k);
      i := i + 1;
    } else if k == 0 {
      i := 0;
    } else {
      i := SelectedFrom(s[1..], omit[1..], k - 1);
      i := i + 1;
    }
  }

  lemma MarkerIsNoTab(depth: nat, count: nat)
    ensures !IsDirectTabLine(Marker(depth, count), depth)
  {
    var line := Marker(depth, count);
    assert line[depth] == '.';
    assert line[depth..][0] == '.';
  }

  lemma ActiveStaysActive(lines: seq<string>, records: seq<Record>, start: nat, depth: nat, i: nat)
    requires Aligned(lines, records, start, depth) && start <= i < |lines|
    requires IsDirectTabLine(lines[i], depth) && IsActiveTabLine(lines[i], depth, records)
    ensures IsActiveTabLine(lines[i], depth, CompactedRecords(lines, records, start, depth))
  {
    assert RenderedElementIndex(lines[i], depth) == Some(records[i].index);
    AlignedOmissions(lines, records, start, depth, i);
    hide IsDirectTabLine, RenderedElementIndex, Contains;
    KeepLookup(records, OmittedIndices(lines, Omissions(lines, records, start, depth), depth, 0), records[i].index);
  }

  lemma {:induction false} CountZero(omit: seq<bool>)
    requires forall i :: 0 <= i < |omit| ==> !omit[i]
    ensures Count(omit) == 0
  {
    if omit != [] {
      CountZero(omit[1..]);
    }
  }

  lemma CompactionIsFinal(lines: seq<string>, records: seq<Record>, start: nat, depth: nat)
    requires Aligned(lines, records, start, depth)
    ensures Compacts(lines, records, start, depth) ==>
      !Compacts(CompactedLines(lines, records, start, depth), CompactedRecords(lines, records, start, depth),
                start, depth)
  {
    if Compacts(lines, records, start, depth) {
      NothingLeft(lines, records, start, depth);
    }
  }

  lemma CompactedAt(lines: seq<string>, records: seq<Record>, start: nat, depth: nat, k: nat)
    requires Compacts(lines, records, start, depth) && k < |CompactedLines(lines, records, start, depth)|
    ensures var first, omit := TabPositions(lines, start, depth)[0], Omissions(lines, records, start, depth);
            && start <= first < |lines|
            && (k < first ==> CompactedLines(lines, records, start, depth)[k] == lines[k])
            && (k > first ==>
                  && k - first - 1 < |Select(lines[first..], omit[first..])|
                  && CompactedLines(lines, records, start, depth)[k] == Select(lines[first..], omit[first..])[k - first - 1])
  {
    TabsInRange(lines, start, depth);
    hide IsDirectTabLine, IsActiveTabLine, Positions, Select, Count, Marker, Omissions;
  }

  // A line that is left, other than the marker, is one that was not omitted.
  lemma LineLeft(lines: seq<string>, records: seq<Record>, start: nat, depth: nat, k: nat) returns (i: nat)
    requires Compacts(lines, records, start, depth) && |TabPositions(lines, start, depth)| > 0
    requires start <= k < |CompactedLines(lines, records, start, depth)| && k != TabPositions(lines, start, depth)[0]
    ensures start <= i < |lines| && CompactedLines(lines, records, start, depth)[k] == lines[i]
    ensures !Omitted(lines[i], depth, records)
  {
    hide *;
    CompactedAt(lines, records, start, depth, k);
    NothingBetween(lines, records, start, depth, 0);
    var first := TabPositions(lines, start, depth)[0];
    var omit := Omissions(lines, records, start, depth);
    i := k;
    if k > first {
      i := SelectedFrom(lines[first..], omit[first..], k - first - 1);
      i := i + first;
    }
  }

  lemma MarkerLine(lines: seq<string>, records: seq<Record>, start: nat, depth: nat)
    requires Compacts(lines, records, start, depth)
    ensures var first, after := TabPositions(lines, start, depth)[0], CompactedLines(lines, records, start, depth);
            first < |after| && !IsDirectTabLine(after[first], depth)
  {
    TabsInRange(lines, start, depth);
    MarkerIsNoTab(depth, Count(Omissions(lines, records, start, depth)));
    hide IsDirectTabLine, IsActiveTabLine, Positions, Select, Marker;
  }

  lemma NotOmitted(line: string, depth: nat, records: seq<Record>)
    ensures Omitted(line, depth, records) <==> IsDirectTabLine(line, depth) && !IsActiveTabLine(line, depth, records)
  {
    hide IsDirectTabLine, IsActiveTabLine;
  }

  lemma NothingLeft(lines: seq<string>, records: seq<Record>, start: nat, depth: nat)
    requires Aligned(lines, records, start, depth) && Compacts(lines, records, start, depth)
    ensures Count(Omissions(CompactedLines(lines, records, start, depth),
                            CompactedRecords(lines, records, start, depth), start, depth)) == 0
  {
    hide *;
    var after := CompactedLines(lines, records, start, depth);
    var left := CompactedRecords(lines, records, start, depth);
    TabsExist(lines, records, start, depth);
    forall k | start <= k < |after|
      ensures !Omitted(after[k], depth, left)
    {
      NotOmitted(after[k], depth, left);
      if k == TabPositions(lines, start, depth)[0] {
        MarkerLine(lines, records, start, depth);
      } else {
        var i := LineLeft(lines, records, start, depth, k);
        NotOmitted(lines[i], depth, records);
        if IsDirectTabLine(lines[i], depth) {
          ActiveStaysActive(lines, records, start, depth, i);
        }
      }
    }
    CountZero(Omissions(after, left, start, depth));
  }

  lemma TabsExist(lines: seq<string>, records: seq<Record>, start: nat, depth: nat)
    requires Compacts(lines, records, start, depth)
    ensures |TabPositions(lines, start, depth)| > 0
  {
    hide Positions, IsActiveTabLine, Omissions;
  }

  lemma {:induction false} SelectedAndOmitted<T>(s: seq<T>, omit: seq<bool>)
    requires |s| == |omit|
    ensures |Select(s, omit)| + Count(omit) == |s|
  {
    if s != [] {
      SelectedAndOmitted(s[1..], omit[1..]);
    }
  }

  // The marker line stands where the first tab line stood, and the number it says is how
  // many lines have gone.
  lemma MarkerSaysHowMany(lines: seq<string>, records: seq<Record>, start: nat, depth: nat)
    requires Compacts(lines, records, start, depth)
    ensures var first, left := TabPositions(lines, start, depth)[0], CompactedLines(lines, records, start, depth);
            && first < |left| <= |lines|
            && left[first] == Tabs(depth) + "... " + Decimal(|lines| + 1 - |left|) + " inactive browser tabs omitted"
  {
    hide Select, Count, IsActiveTabLine, IsDirectTabLine, Decimal, Tabs;
    CompactedFrom(lines, records, start, depth);
    var first, omit := TabPositions(lines, start, depth)[0], Omissions(lines, records, start, depth);
    SelectedAndOmitted(lines[first..], omit[first..]);
  }

  // ---------------------------------------------------------------------------
  // What the renderer produces is aligned

  lemma {:induction false} NumberOfDecimal(n: nat)
    ensures Decimal(n) != "" && (forall k :: 0 <= k < |Decimal(n)| ==> IsDigit(Decimal(n)[k]))
    ensures Number(Decimal(n)) == n
  {
    DigitIsDigit(n % 10);
    if n >= 10 {
      NumberOfDecimal(n / 10);
      assert Decimal(n)[..|Decimal(n)| - 1] == Decimal(n / 10);
    } else {
      assert Number("") == 0 && [Digit(n)][..0] == "";
    }
  }

  lemma DigitIsDigit(d: nat)
    requires d < 10
    ensures IsDigit(Digit(d)) && Digit(d) as int - '0' as int == d
  {
  }

  lemma {:induction false} DigitsThenOther(digits: string, rest: string)
    requires (forall k :: 0 <= k < |digits| ==> IsDigit(digits[k])) && (rest == "" || !IsDigit(rest[0]))
    ensures DigitsLength(digits + rest) == |digits|
  {
    if digits == "" {
      assert digits + rest == rest;
    } else {
      assert (digits + rest)[1..] == digits[1..] + rest;
      DigitsThenOther(digits[1..], rest);
    }
  }

  // A rendered line that counts as a tab line at some depth is at that depth, and the
  // index read off it is the record's.
  lemma RenderedIndexIsTheRecords(view: View, shown: Shown, index: nat, depth: nat)
    requires var text := view.describe(shown.node); text == "" || !IsDigit(text[0])
    requires IsDirectTabLine(LineOf(view, shown, index), depth)
    ensures RenderedElementIndex(LineOf(view, shown, index), depth) == Some(index)
  {
    var line := LineOf(view, shown, index);
    var digits, rest := Decimal(index), view.describe(shown.node);
    NumberOfDecimal(index);
    assert line == Tabs(shown.depth) + (digits + rest);
    assert line[shown.depth] == digits[0];
    assert IsDigit(line[depth]) by {
      assert line[depth..][0] == line[depth];
    }
    if shown.depth < depth {
      assert false;
    } else if depth < shown.depth {
      assert false;
    } else {
      assert Unindented(line, depth) == digits + rest;
      DigitsThenOther(digits, rest);
      assert (digits + rest)[..|digits|] == digits;
    }
  }

  // So compacting a rendered tree from any line and depth removes matching lines and
  // records.
  lemma RenderedIsAligned(view: View, shown: seq<Shown>, start: nat, depth: nat)
    requires forall n :: view.describe(n) == "" || !IsDigit(view.describe(n)[0])
    ensures Aligned(LinesOf(view, shown), RecordsOf(shown), start, depth)
  {
    hide IsDirectTabLine, RenderedElementIndex, LineOf;
    var lines := LinesOf(view, shown);
    forall i | start <= i < |lines| && IsDirectTabLine(lines[i], depth)
      ensures RenderedElementIndex(lines[i], depth) == Some(RecordsOf(shown)[i].index)
    {
      RenderedIndexIsTheRecords(view, shown[i], i, depth);
    }
  }
}
