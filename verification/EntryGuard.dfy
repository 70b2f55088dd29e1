// The build guard for entries that run without Electron: which chunks an entry reaches,
// and whether one of them requires electron (config/build-plugins/plain-node-entry-guard.ts).
module EntryGuard {
  import opened Wrappers

  // `requiresElectron` stands for the regular expression test on the chunk's code.
  datatype Chunk = Chunk(fileName: string, imports: seq<string>, dynamicImports: seq<string>, requiresElectron: bool)

  type Bundle = map<string, Chunk>

  function Targets(chunk: Chunk): seq<string> {
    chunk.imports + chunk.dynamicImports
  }

  predicate Keyed(byFileName: Bundle) {
    forall f <- byFileName :: byFileName[f].fileName == f
  }

  // `f` is imported from the entry over `steps` imports, through known chunks only.
  ghost predicate ReachedIn(byFileName: Bundle, entry: string, f: string, steps: nat)
    decreases steps
  {
    if steps == 0 then f == entry
    else
      exists g <- byFileName ::
        ReachedIn(byFileName, entry, g, steps - 1) && (f in byFileName[g].imports || f in byFileName[g].dynamicImports)
  }

  ghost predicate Reachable(byFileName: Bundle, entry: string, f: string) {
    exists steps: nat :: ReachedIn(byFileName, entry, f, steps)
  }

  lemma ImportIsReachable(byFileName: Bundle, entry: string, g: string, f: string)
    requires g in byFileName && Reachable(byFileName, entry, g) && f in Targets(byFileName[g])
    ensures Reachable(byFileName, entry, f)
  {
    var steps: nat :| ReachedIn(byFileName, entry, g, steps);
    assert ReachedIn(byFileName, entry, f, steps + 1);
  }

  // Everything reachable is in any set that holds the entry and follows known imports.
  lemma {:induction false} ReachableIsClosed(byFileName: Bundle, entry: string, f: string, steps: nat, closed: set<string>)
    requires entry in closed && ReachedIn(byFileName, entry, f, steps)
    requires forall g :: g in closed && g in byFileName ==>
      forall k :: 0 <= k < |Targets(byFileName[g])| ==> Targets(byFileName[g])[k] in closed
    ensures f in closed
    decreases steps
  {
    if steps > 0 {
      var g :| g in byFileName && ReachedIn(byFileName, entry, g, steps - 1)
               && (f in byFileName[g].imports || f in byFileName[g].dynamicImports);
      assert f in Targets(byFileName[g]);
      ReachableIsClosed(byFileName, entry, g, steps - 1, closed);
    }
  }

  // Every name the walk can meet.
  ghost function AllNames(byFileName: Bundle, entry: string): set<string> {
    {entry} + set f, k | f in byFileName && 0 <= k < |Targets(byFileName[f])| :: Targets(byFileName[f])[k]
  }

  // What the walk knows so far.
  ghost predicate Walked(byFileName: Bundle, entry: string, stack: seq<string>, seen: set<string>, reachable: seq<Chunk>) {
    && (forall i :: 0 <= i < |stack| ==> Reachable(byFileName, entry, stack[i]) && stack[i] in AllNames(byFileName, entry))
    && (forall f <- seen :: Reachable(byFileName, entry, f) && f in AllNames(byFileName, entry))
    && (entry in seen || entry in stack)
    && (forall g :: g in seen && g in byFileName ==>
          forall k :: 0 <= k < |Targets(byFileName[g])| ==>
            Targets(byFileName[g])[k] in seen || Targets(byFileName[g])[k] in stack)
    && (forall i :: 0 <= i < |reachable| ==>
          reachable[i].fileName in seen && reachable[i].fileName in byFileName
          && reachable[i] == byFileName[reachable[i].fileName])
    && (forall i, j :: 0 <= i < j < |reachable| ==> reachable[i].fileName != reachable[j].fileName)
    && (forall f :: f in seen && f in byFileName ==> byFileName[f] in reachable)
  }

  lemma WalkedStart(byFileName: Bundle, entry: string)
    ensures Walked(byFileName, entry, [entry], {}, [])
  {
    assert ReachedIn(byFileName, entry, entry, 0);
  }

  lemma WalkedSkip(byFileName: Bundle, entry: string, stack: seq<string>, seen: set<string>, reachable: seq<Chunk>)
    requires stack != [] && Walked(byFileName, entry, stack, seen, reachable)
    requires stack[|stack| - 1] in seen
    ensures Walked(byFileName, entry, stack[..|stack| - 1], seen, reachable)
  {
    hide Reachable, AllNames;
    var rest := stack[..|stack| - 1];
    assert forall f :: f in stack ==> f in rest || f in seen;
  }

  lemma WalkedVisit(byFileName: Bundle, entry: string, stack: seq<string>, seen: set<string>, reachable: seq<Chunk>)
    requires Keyed(byFileName) && stack != [] && Walked(byFileName, entry, stack, seen, reachable)
    requires stack[|stack| - 1] !in seen
    ensures var f, rest := stack[|stack| - 1], stack[..|stack| - 1];
            if f in byFileName then
              Walked(byFileName, entry, rest + Targets(byFileName[f]), seen + {f}, reachable + [byFileName[f]])
            else Walked(byFileName, entry, rest, seen + {f}, reachable)
  {
    var f, rest := stack[|stack| - 1], stack[..|stack| - 1];
    assert forall g :: g in stack ==> g in rest || g == f;
    if f in byFileName {
      forall k | 0 <= k < |Targets(byFileName[f])|
        ensures Reachable(byFileName, entry, Targets(byFileName[f])[k])
        ensures Targets(byFileName[f])[k] in AllNames(byFileName, entry)
      {
        ImportIsReachable(byFileName, entry, f, Targets(byFileName[f])[k]);
      }
      hide Reachable, AllNames, Targets;
      var more := reachable + [byFileName[f]];
      assert more[|reachable|] == byFileName[f];
      assert forall c :: c in reachable ==> c in more;
    }
    hide Reachable, AllNames;
  }

  // The worklist ends and returns exactly the known chunks the entry reaches, each once.
  method CollectReachableChunks(entry: Chunk, byFileName: Bundle) returns (reachable: seq<Chunk>)
    requires Keyed(byFileName)
    ensures forall i, j :: 0 <= i < j < |reachable| ==> reachable[i].fileName != reachable[j].fileName
    ensures forall c :: c in reachable <==>
      c.fileName in byFileName && byFileName[c.fileName] == c && Reachable(byFileName, entry.fileName, c.fileName)
  {
    hide *;
    var seen: set<string> := {};
    reachable := [];
    var stack := [entry.fileName];
    ghost var names := AllNames(byFileName, entry.fileName);
    WalkedStart(byFileName, entry.fileName);
    while |stack| > 0
      invariant Walked(byFileName, entry.fileName, stack, seen, reachable)
      invariant seen <= names
      decreases names - seen, |stack|
    {
      var fileName := stack[|stack| - 1];
      TopIsNamed(byFileName, entry.fileName, stack, seen, reachable);
      ghost var before := stack;
      stack := stack[..|stack| - 1];
      if fileName in seen {
        WalkedSkip(byFileName, entry.fileName, before, seen, reachable);
        continue;
      }
      WalkedVisit(byFileName, entry.fileName, before, seen, reachable);
      seen := seen + {fileName};
      if fileName !in byFileName {
        continue;
      }
      var chunk := byFileName[fileName];
      reachable := reachable + [chunk];
      ghost var rest := stack;
      var targets := Targets(chunk);
      for k := 0 to |targets|
        invariant stack == rest + targets[..k]
      {
        stack := stack + [targets[k]];
      }
      assert targets[..|targets|] == targets;
    }
    WalkedAll(byFileName, entry.fileName, seen, reachable);
  }

  lemma TopIsNamed(byFileName: Bundle, entry: string, stack: seq<string>, seen: set<string>, reachable: seq<Chunk>)
    requires stack != [] && Walked(byFileName, entry, stack, seen, reachable)
    ensures stack[|stack| - 1] in AllNames(byFileName, entry)
  {
  }

  lemma WalkedAll(byFileName: Bundle, entry: string, seen: set<string>, reachable: seq<Chunk>)
    requires Walked(byFileName, entry, [], seen, reachable)
    ensures forall i, j :: 0 <= i < j < |reachable| ==> reachable[i].fileName != reachable[j].fileName
    ensures forall c :: c in reachable <==>
      c.fileName in byFileName && byFileName[c.fileName] == c && Reachable(byFileName, entry, c.fileName)
  {
    forall f | Reachable(byFileName, entry, f)
      ensures f in seen
    {
      var steps: nat :| ReachedIn(byFileName, entry, f, steps);
      ReachableIsClosed(byFileName, entry, f, steps, seen);
    }
    hide Reachable, AllNames;
  }

  // The guard throws exactly when some chunk reachable from the entry requires electron,
  // and then names such a chunk.
  method AssertNoElectronRequire(entry: Chunk, byFileName: Bundle) returns (offender: Option<Chunk>)
    requires Keyed(byFileName)
    ensures offender.Some? <==>
      exists f <- byFileName :: Reachable(byFileName, entry.fileName, f) && byFileName[f].requiresElectron
    ensures offender.Some? ==>
      var f := offender.value.fileName;
      && f in byFileName && byFileName[f] == offender.value && offender.value.requiresElectron
      && Reachable(byFileName, entry.fileName, f)
  {
    var reachable := CollectReachableChunks(entry, byFileName);
    hide Reachable;
    for i := 0 to |reachable|
      invariant forall k :: 0 <= k < i ==> !reachable[k].requiresElectron
    {
      if reachable[i].requiresElectron {
        assert reachable[i] in reachable;
        return Some(reachable[i]);
      }
    }
    forall f <- byFileName | Reachable(byFileName, entry.fileName, f)
      ensures !byFileName[f].requiresElectron
    {
      assert byFileName[f] in reachable;
    }
    return None;
  }
}
