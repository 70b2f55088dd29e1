// The checksum bookkeeping of the native-chat benchmark: a closed form must predict what
// the timed loop accumulates (config/scripts/native-chat-live-session-benchmark.ts).
module CyclicChecksum {
  import opened Wrappers

  function Sum(values: seq<int>): int {
    if values == [] then 0 else Sum(values[..|values| - 1]) + values[|values| - 1]
  }

  // What the loop adds up: the values taken in turn, over and over.
  function CyclicSum(values: seq<int>, iterations: nat): int {
    if values == [] || iterations == 0 then 0
    else CyclicSum(values, iterations - 1) + values[(iterations - 1) % |values|]
  }

  lemma ModuloOfCycle(n: nat, cycles: nat, k: nat)
    requires k < n
    ensures (n * cycles + k) % n == k
  {
    var m := n * cycles + k;
    DivisionWithRest(m, n);
    var d := cycles - m / n;
    Distribute(n, cycles, m / n);
    assert n * d == m % n - k;
    if d > 0 {
      MultipleIsLarge(n, d);
    } else if d < 0 {
      Distribute(n, 0, d);
      MultipleIsLarge(n, -d);
    }
  }

  lemma DivisionWithRest(m: nat, n: nat)
    requires n > 0
    ensures m == n * (m / n) + m % n
  {
  }

  lemma Distribute(n: int, a: int, b: int)
    ensures n * (a - b) == n * a - n * b
  {
  }

  lemma {:induction false} MultipleIsLarge(n: int, d: int)
    requires n >= 0 && d > 0
    ensures n * d >= n
    decreases d
  {
    if d > 1 {
      MultipleIsLarge(n, d - 1);
      Distribute(n, d, 1);
    }
  }

  lemma {:induction false} WholeCycles(values: seq<int>, cycles: nat, rest: nat)
    requires values != [] && rest <= |values|
    ensures CyclicSum(values, |values| * cycles + rest) == Sum(values) * cycles + Sum(values[..rest])
    decreases cycles, rest
  {
    var n := |values|;
    if rest > 0 {
      WholeCycles(values, cycles, rest - 1);
      ModuloOfCycle(n, cycles, rest - 1);
      assert values[..rest][..rest - 1] == values[..rest - 1];
    } else if cycles > 0 {
      WholeCycles(values, cycles - 1, n);
      assert values[..n] == values && values[..0] == [];
      assert n * (cycles - 1) + n == n * cycles;
      assert Sum(values) * (cycles - 1) + Sum(values) == Sum(values) * cycles;
    } else {
      assert values[..0] == [];
    }
  }

  // The closed form equals the loop's sum for every list, empty or not, and every count.
  method Compute(values: seq<int>, iterations: nat) returns (total: int)
    ensures total == CyclicSum(values, iterations)
  {
    if |values| == 0 {
      return 0;
    }
    var cycle := 0;
    for i := 0 to |values|
      invariant cycle == Sum(values[..i])
    {
      assert values[..i + 1][..i] == values[..i];
      cycle := cycle + values[i];
    }
    assert values[..|values|] == values;
    var fullCycles := iterations / |values|;
    total := cycle * fullCycles;
    ghost var whole := total;
    for index := 0 to iterations % |values|
      invariant total == whole + Sum(values[..index])
    {
      assert values[..index + 1][..index] == values[..index];
      total := total + values[index];
    }
    ClosedForm(values, iterations);
  }

  lemma ClosedForm(values: seq<int>, iterations: nat)
    requires values != []
    ensures CyclicSum(values, iterations)
         == Sum(values) * (iterations / |values|) + Sum(values[..iterations % |values|])
  {
    WholeCycles(values, iterations / |values|, iterations % |values|);
    DivisionWithRest(iterations, |values|);
  }

  // ---------------------------------------------------------------------------
  // Sessions

  datatype Block =
    | TextBlock(text: string)
    | ToolCall(name: string)
    | ToolResult(output: string)
    | ImageBlock(path: Option<string>, url: Option<string>, alt: Option<string>)

  datatype Message = Message(id: string, roleCode: nat, blocks: seq<Block>)

  datatype Session = Session(statusCode: nat, messages: seq<Message>)

  function OrElse(first: Option<string>, second: Option<string>): Option<string> {
    if first.Some? then first else second
  }

  function BlockContent(message: Message): string {
    if message.blocks == [] then ""
    else
      match message.blocks[0]
      case TextBlock(text) => text
      case ToolCall(name) => name
      case ToolResult(output) => output
      case ImageBlock(path, url, alt) =>
        match OrElse(path, OrElse(url, alt)) case Some(s) => s case None => ""
  }

  function TailCode(s: string): int {
    if s == "" then 0 else s[|s| - 1] as int
  }

  function MessageWeight(message: Message, content: string): int {
    |message.id| + TailCode(message.id) + message.roleCode + |content| + TailCode(content)
  }

  function Weights(messages: seq<Message>): (weights: seq<int>)
    ensures |weights| == |messages|
    ensures forall k :: 0 <= k < |messages| ==> weights[k] == MessageWeight(messages[k], BlockContent(messages[k]))
  {
    seq(|messages|, k requires 0 <= k < |messages| => MessageWeight(messages[k], BlockContent(messages[k])))
  }

  // consumeSession: a session without messages has no message at any index.
  function ConsumeSession(session: Session, index: nat): int {
    if session.messages == [] then session.statusCode
    else
      var message := session.messages[index % |session.messages|];
      session.statusCode + MessageWeight(message, BlockContent(message))
  }

  function SessionExpectedChecksum(session: Session, iterations: nat): int {
    session.statusCode * iterations + CyclicSum(Weights(session.messages), iterations)
  }

  function Accumulated(operation: nat -> int, iterations: nat): int {
    if iterations == 0 then 0 else Accumulated(operation, iterations - 1) + operation(iterations - 1)
  }

  lemma {:induction false} SessionIsPredicted(session: Session, operation: nat -> int, iterations: nat)
    requires forall index :: operation(index) == ConsumeSession(session, index)
    ensures Accumulated(operation, iterations) == SessionExpectedChecksum(session, iterations)
  {
    if iterations > 0 {
      SessionIsPredicted(session, operation, iterations - 1);
      assert session.statusCode * iterations == session.statusCode * (iterations - 1) + session.statusCode;
    }
  }

  function PendingOutput(index: nat): int {
    index % 7 + 1
  }

  lemma {:induction false} PendingIsPredicted(operation: nat -> int, iterations: nat)
    requires forall index :: operation(index) == PendingOutput(index)
    ensures Accumulated(operation, iterations) == CyclicSum([1, 2, 3, 4, 5, 6, 7], iterations)
  {
    if iterations > 0 {
      PendingIsPredicted(operation, iterations - 1);
    }
  }

  // An operation that is predicted however often it runs.
  ghost predicate Predicted(operation: nat -> int, expected: nat -> int) {
    forall iterations :: expected(iterations) == Accumulated(operation, iterations)
  }

  lemma SessionOperationIsPredicted(session: Session, operation: nat -> int, expected: nat -> int)
    requires forall index :: operation(index) == ConsumeSession(session, index)
    requires forall iterations :: expected(iterations) == SessionExpectedChecksum(session, iterations)
    ensures Predicted(operation, expected)
  {
    forall iterations: nat
      ensures expected(iterations) == Accumulated(operation, iterations)
    {
      SessionIsPredicted(session, operation, iterations);
    }
  }

  lemma PendingOperationIsPredicted(operation: nat -> int, expected: nat -> int)
    requires forall index :: operation(index) == PendingOutput(index)
    requires forall iterations :: expected(iterations) == CyclicSum([1, 2, 3, 4, 5, 6, 7], iterations)
    ensures Predicted(operation, expected)
  {
    forall iterations: nat
      ensures expected(iterations) == Accumulated(operation, iterations)
    {
      PendingIsPredicted(operation, iterations);
    }
  }

  lemma {:induction false} AccumulatedBoth(f: nat -> int, g: nat -> int, both: nat -> int, iterations: nat)
    requires forall index :: both(index) == f(index) + g(index)
    ensures Accumulated(both, iterations) == Accumulated(f, iterations) + Accumulated(g, iterations)
  {
    if iterations > 0 {
      AccumulatedBoth(f, g, both, iterations - 1);
    }
  }

  // The combined arm: two predicted operations added up are predicted by the sum.
  lemma CombinedIsPredicted(f: nat -> int, g: nat -> int, both: nat -> int,
                            expectedF: nat -> int, expectedG: nat -> int, expected: nat -> int)
    requires Predicted(f, expectedF) && Predicted(g, expectedG)
    requires forall index :: both(index) == f(index) + g(index)
    requires forall iterations :: expected(iterations) == expectedF(iterations) + expectedG(iterations)
    ensures Predicted(both, expected)
  {
    forall iterations: nat
      ensures expected(iterations) == Accumulated(both, iterations)
    {
      AccumulatedBoth(f, g, both, iterations);
    }
  }

  // One timed sample: an arm of a case, what is expected of it, and how often it runs.
  datatype Sample = Sample(operation: nat -> int, expected: nat -> int, iterations: nat)

  // What the samples add to the checksum, and to the expected checksum.
  function Measured(samples: seq<Sample>): int {
    if samples == [] then 0
    else
      var last := samples[|samples| - 1];
      Measured(samples[..|samples| - 1]) + Accumulated(last.operation, last.iterations)
  }

  function Expected(samples: seq<Sample>): int {
    if samples == [] then 0
    else
      var last := samples[|samples| - 1];
      Expected(samples[..|samples| - 1]) + last.expected(last.iterations)
  }

  // Over any sequence of samples of predicted operations the two totals are equal.
  lemma {:induction false} SamplesBalance(samples: seq<Sample>)
    requires forall k :: 0 <= k < |samples| ==> Predicted(samples[k].operation, samples[k].expected)
    ensures Measured(samples) == Expected(samples)
  {
    if samples != [] {
      SamplesBalance(samples[..|samples| - 1]);
      assert Predicted(samples[|samples| - 1].operation, samples[|samples| - 1].expected);
    }
  }

  class Benchmark {
    var checksum: int
    var expectedChecksum: int

    constructor ()
      ensures checksum == 0 && expectedChecksum == 0
    {
      checksum, expectedChecksum := 0, 0;
    }

    // One timed sample adds the same to both totals when the operation is predicted, so
    // over any samples equal totals stay equal.
    method RunSample(operation: nat -> int, expected: nat -> int, iterations: nat)
      modifies this
      ensures checksum == old(checksum) + Accumulated(operation, iterations)
      ensures expectedChecksum == old(expectedChecksum) + expected(iterations)
      ensures Predicted(operation, expected) && old(checksum == expectedChecksum) ==> checksum == expectedChecksum
    {
      var sampleChecksum := 0;
      for index := 0 to iterations
        invariant sampleChecksum == Accumulated(operation, index)
        invariant checksum == old(checksum) && expectedChecksum == old(expectedChecksum)
      {
        sampleChecksum := sampleChecksum + operation(index);
      }
      checksum := checksum + sampleChecksum;
      expectedChecksum := expectedChecksum + expected(iterations);
    }

    // The rounds of a case, one sample after the other: equal totals stay equal.
    method RunSamples(samples: seq<Sample>)
      modifies this
      ensures checksum == old(checksum) + Measured(samples)
      ensures expectedChecksum == old(expectedChecksum) + Expected(samples)
      ensures (forall k :: 0 <= k < |samples| ==> Predicted(samples[k].operation, samples[k].expected)) ==>
        (checksum == expectedChecksum <==> old(checksum == expectedChecksum))
    {
      for round := 0 to |samples|
        invariant checksum == old(checksum) + Measured(samples[..round])
        invariant expectedChecksum == old(expectedChecksum) + Expected(samples[..round])
      {
        assert samples[..round + 1][..round] == samples[..round];
        RunSample(samples[round].operation, samples[round].expected, samples[round].iterations);
      }
      assert samples[..|samples|] == samples;
      if forall k :: 0 <= k < |samples| ==> Predicted(samples[k].operation, samples[k].expected) {
        SamplesBalance(samples);
      }
    }
  }
}
