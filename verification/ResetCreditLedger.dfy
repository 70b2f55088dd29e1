// The idempotent ledger of Codex reset credits kept by the mock host
// (mobile/scripts/mock-server-account-state.ts, src/shared/codex-reset-credit-scope.ts).
module ResetCreditLedger {
  import opened Wrappers

  const MAX_SAFE_INTEGER := 9007199254740991
  const DAY := 24 * 60 * 60 * 1000

  datatype AccountId = Personal | Team

  datatype Usage = Usage(availableResetCredits: nat, sessionUsedPercent: int, updatedAt: int, nextExpiresAt: int)

  // The compare-and-swap token of an offer, as the numbers it is written from.
  datatype Offer = Offer(available: nat, nextExpiresAt: int, sessionUsed: int, sessionResetsAt: int,
                         weeklyResetsAt: int, updatedAt: int)

  datatype Scope = Scope(account: AccountId, accountRevision: int, offer: Offer)

  // A serialised scope, compared by equality only; other objects serialise to other texts.
  datatype ScopeKey = OfScope(scope: Scope) | Foreign(text: string)

  datatype Outcome = Reset | NoCredit

  datatype Operation = Operation(scopeKey: ScopeKey, outcome: Outcome)

  datatype State = State(
    fixtureStartedAt: int,
    active: Option<AccountId>,
    usage: map<AccountId, Usage>,
    operations: map<string, Operation>,
    owners: map<ScopeKey, string>)

  datatype Response =
    | Consumed(outcome: Outcome, scope: ScopeKey)
    | OfferChanged(scope: ScopeKey)
    | InvalidIdempotencyKey
    | MissingScope
    | DifferentAccountScope
    | AlreadyBeingRedeemed

  function InitialUsage(startedAt: int, accountOffset: int): Usage {
    Usage(1, 100, startedAt + accountOffset, startedAt + (5 + accountOffset) * DAY)
  }

  // resetMockAccountState
  function Fixture(now: int): State {
    State(now, Some(Personal), map[Personal := InitialUsage(now, 0), Team := InitialUsage(now, 1)], map[], map[])
  }

  function AccountRevision(account: AccountId): int {
    if account == Personal then 1 else 2
  }

  predicate SafeTimestamp(t: int) {
    0 <= t <= MAX_SAFE_INTEGER
  }

  // getMockCodexResetScope with the scope builder: none without an active account, without
  // a credit, or with a time that is no safe integer.
  function CurrentScope(s: State): Option<Scope> {
    if s.active.None? || s.active.value !in s.usage then None
    else
      var usage := s.usage[s.active.value];
      if usage.availableResetCredits <= 0 || !SafeTimestamp(usage.updatedAt) then None
      else
        Some(Scope(s.active.value, AccountRevision(s.active.value),
                   Offer(usage.availableResetCredits, usage.nextExpiresAt, usage.sessionUsedPercent,
                         s.fixtureStartedAt + 90 * 60 * 1000, s.fixtureStartedAt + 3 * DAY, usage.updatedAt)))
  }

  predicate HexDigit(c: char) {
    '0' <= c <= '9' || 'a' <= c <= 'f' || 'A' <= c <= 'F'
  }

  predicate IsUuid(s: string) {
    && |s| == 36
    && s[8] == '-' && s[13] == '-' && s[18] == '-' && s[23] == '-'
    && (forall k :: 0 <= k < 36 && k != 8 && k != 13 && k != 18 && k != 23 ==> HexDigit(s[k]))
    && '1' <= s[14] <= '8'
    && s[19] in "89abAB"
  }

  // consumeMockCodexResetCredit: the response and the state it leaves.
  function Consume(s: State, key: string, scope: Option<ScopeKey>): (Response, State) {
    if !IsUuid(key) then (InvalidIdempotencyKey, s)
    else if scope.None? then (MissingScope, s)
    else if key in s.operations then
      if s.operations[key].scopeKey != scope.value then (DifferentAccountScope, s)
      else (Consumed(s.operations[key].outcome, scope.value), s)
    else
      var current := CurrentScope(s);
      if current.None? || OfScope(current.value) != scope.value then (OfferChanged(scope.value), s)
      else if scope.value in s.owners && s.owners[scope.value] != key then (AlreadyBeingRedeemed, s)
      else
        var account := current.value.account;
        var usage := s.usage[account];
        var outcome := if usage.availableResetCredits > 0 then Reset else NoCredit;
        (Consumed(outcome, scope.value),
         s.(owners := s.owners[scope.value := key],
            operations := s.operations[key := Operation(scope.value, outcome)],
            usage := if outcome == NoCredit then s.usage else
                       s.usage[account := usage.(availableResetCredits := 0, sessionUsedPercent := 0,
                                                 updatedAt := usage.updatedAt + 1)]))
  }

  // ---------------------------------------------------------------------------
  // The module's state and the functions that change it

  class AccountState {
    var fixtureStartedAt: int
    var activeCodexAccountId: Option<AccountId>
    var codexUsageByAccount: map<AccountId, Usage>
    var resetOperations: map<string, Operation>
    var resetOfferOwners: map<ScopeKey, string>

    ghost function Value(): State
      reads this
    {
      State(fixtureStartedAt, activeCodexAccountId, codexUsageByAccount, resetOperations, resetOfferOwners)
    }

    constructor (now: int)
      ensures Value() == Fixture(now)
    {
      fixtureStartedAt, activeCodexAccountId := now, Some(Personal);
      codexUsageByAccount := map[Personal := InitialUsage(now, 0), Team := InitialUsage(now, 1)];
      resetOperations, resetOfferOwners := map[], map[];
    }

    method ResetMockAccountState(now: int)
      modifies this
      ensures Value() == Fixture(now)
    {
      fixtureStartedAt, activeCodexAccountId := now, Some(Personal);
      codexUsageByAccount := map[Personal := InitialUsage(now, 0), Team := InitialUsage(now, 1)];
      resetOperations, resetOfferOwners := map[], map[];
    }

    method SelectMockCodexAccount(account: Option<AccountId>)
      modifies this`activeCodexAccountId
      ensures Value() == Apply(old(Value()), SelectAccount(account))
    {
      activeCodexAccountId := account;
    }

    method GetMockCodexResetScope() returns (scope: Option<Scope>)
      ensures scope == CurrentScope(Value())
    {
      if activeCodexAccountId.None? || activeCodexAccountId.value !in codexUsageByAccount {
        return None;
      }
      var account := activeCodexAccountId.value;
      var usage := codexUsageByAccount[account];
      if usage.availableResetCredits <= 0 || !SafeTimestamp(usage.updatedAt) {
        return None;
      }
      return Some(Scope(account, AccountRevision(account),
                        Offer(usage.availableResetCredits, usage.nextExpiresAt, usage.sessionUsedPercent,
                              fixtureStartedAt + 90 * 60 * 1000, fixtureStartedAt + 3 * DAY, usage.updatedAt)));
    }

    method ConsumeMockCodexResetCredit(idempotencyKey: string, expectedScope: Option<ScopeKey>)
      returns (response: Response)
      modifies this
      ensures (response, Value()) == Consume(old(Value()), idempotencyKey, expectedScope)
    {
      if !IsUuid(idempotencyKey) {
        return InvalidIdempotencyKey;
      }
      if expectedScope.None? {
        return MissingScope;
      }
      var suppliedScopeKey := expectedScope.value;
      if idempotencyKey in resetOperations {
        var previous := resetOperations[idempotencyKey];
        if previous.scopeKey != suppliedScopeKey {
          return DifferentAccountScope;
        }
        return Consumed(previous.outcome, suppliedScopeKey);
      }
      var currentScope := GetMockCodexResetScope();
      if currentScope.None? || OfScope(currentScope.value) != suppliedScopeKey {
        return OfferChanged(suppliedScopeKey);
      }
      if suppliedScopeKey in resetOfferOwners && resetOfferOwners[suppliedScopeKey] != idempotencyKey {
        return AlreadyBeingRedeemed;
      }
      resetOfferOwners := resetOfferOwners[suppliedScopeKey := idempotencyKey];
      var account := currentScope.value.account;
      var usage := codexUsageByAccount[account];
      var outcome := if usage.availableResetCredits > 0 then Reset else NoCredit;
      resetOperations := resetOperations[idempotencyKey := Operation(suppliedScopeKey, outcome)];
      if outcome == Reset {
        codexUsageByAccount := codexUsageByAccount[account :=
          usage.(availableResetCredits := 0, sessionUsedPercent := 0, updatedAt := usage.updatedAt + 1)];
      }
      return Consumed(outcome, suppliedScopeKey);
    }
  }

  // ---------------------------------------------------------------------------
  // Runs

  datatype Event =
    | SelectAccount(account: Option<AccountId>)
    | ConsumeCredit(key: string, scope: Option<ScopeKey>)
    | ResetFixture(now: int)

  function Apply(s: State, e: Event): State {
    match e
    case SelectAccount(account) => s.(active := account)
    case ConsumeCredit(key, scope) => Consume(s, key, scope).1
    case ResetFixture(now) => Fixture(now)
  }

  function After(s: State, events: seq<Event>): State
    decreases |events|
  {
    if events == [] then s else After(Apply(s, events[0]), events[1..])
  }

  // Switching between accounts, however often, changes which account is active and nothing
  // else: an offer that was made is made again when its account is back.
  lemma {:induction false} SwitchingLosesNothing(s: State, events: seq<Event>, account: AccountId)
    requires forall k :: 0 <= k < |events| ==> events[k].SelectAccount?
    ensures var back := Apply(After(s, events), SelectAccount(Some(account)));
            && back == s.(active := Some(account))
            && (s.active == Some(account) ==> CurrentScope(back) == CurrentScope(s))
    decreases |events|
  {
    if events != [] {
      SwitchingLosesNothing(Apply(s, events[0]), events[1..], account);
    }
  }

  // The keys whose operation reset an account.
  function ResetsOf(s: State, account: AccountId): set<string> {
    set key | key in s.operations && s.operations[key].outcome == Reset
              && s.operations[key].scopeKey.OfScope? && s.operations[key].scopeKey.scope.account == account
  }

  // The two maps are inverse to each other.
  predicate InverseMaps(s: State) {
    && (forall key <- s.operations ::
          s.operations[key].scopeKey in s.owners && s.owners[s.operations[key].scopeKey] == key)
    && (forall scope <- s.owners ::
          s.owners[scope] in s.operations && s.operations[s.owners[scope]].scopeKey == scope)
  }

  // Nothing but resets of a real scope is ever recorded.
  predicate OnlyResets(s: State) {
    forall key <- s.operations :: s.operations[key].outcome == Reset && s.operations[key].scopeKey.OfScope?
  }

  // Every account started with one credit.
  predicate Conserved(s: State) {
    forall account: AccountId ::
      account in s.usage && |ResetsOf(s, account)| + s.usage[account].availableResetCredits == 1
  }

  predicate Invariant(s: State) {
    InverseMaps(s) && OnlyResets(s) && Conserved(s)
  }

  lemma FixtureInvariant(now: int)
    ensures Invariant(Fixture(now))
  {
    var s := Fixture(now);
    forall account: AccountId
      ensures account in s.usage && |ResetsOf(s, account)| + s.usage[account].availableResetCredits == 1
    {
      assert account == Personal || account == Team;
      assert ResetsOf(s, account) == {};
    }
  }

  // With a credit left, no recorded scope is of that account.
  lemma UnusedAccountHasNoOwner(s: State, scope: Scope)
    requires Invariant(s) && s.usage[scope.account].availableResetCredits > 0
    ensures OfScope(scope) !in s.owners
  {
    assert ResetsOf(s, scope.account) == {} by {
      assert |ResetsOf(s, scope.account)| + s.usage[scope.account].availableResetCredits == 1;
    }
    assert forall key <- s.operations :: key !in ResetsOf(s, scope.account);
  }

  // The state after a fresh key redeems the current offer.
  function Redeemed(s: State, key: string, scope: Scope): State
    requires scope.account in s.usage
  {
    var usage := s.usage[scope.account];
    s.(owners := s.owners[OfScope(scope) := key],
       operations := s.operations[key := Operation(OfScope(scope), Reset)],
       usage := s.usage[scope.account := usage.(availableResetCredits := 0, sessionUsedPercent := 0,
                                                updatedAt := usage.updatedAt + 1)])
  }

  lemma RedeemedResets(s: State, key: string, scope: Scope, account: AccountId)
    requires key !in s.operations && scope.account in s.usage
    ensures ResetsOf(Redeemed(s, key, scope), account)
         == ResetsOf(s, account) + (if account == scope.account then {key} else {})
    ensures key !in ResetsOf(s, account)
  {
  }

  lemma RedeemedUsage(s: State, key: string, scope: Scope, account: AccountId)
    requires scope.account in s.usage && account in s.usage
    ensures account in Redeemed(s, key, scope).usage
    ensures Redeemed(s, key, scope).usage[account].availableResetCredits
         == if account == scope.account then 0 else s.usage[account].availableResetCredits
  {
  }

  lemma CreditsOf(s: State, account: AccountId)
    requires Invariant(s)
    ensures account in s.usage && |ResetsOf(s, account)| + s.usage[account].availableResetCredits == 1
  {
    hide InverseMaps, OnlyResets, ResetsOf;
  }

  lemma ConservedIs(s: State)
    requires forall account: AccountId ::
      account in s.usage && |ResetsOf(s, account)| + s.usage[account].availableResetCredits == 1
    ensures Conserved(s)
  {
    hide ResetsOf;
  }

  lemma RedeemedConserves(s: State, key: string, scope: Scope)
    requires scope.account in s.usage
    requires Invariant(s) && key !in s.operations && s.usage[scope.account].availableResetCredits > 0
    ensures Conserved(Redeemed(s, key, scope))
  {
    hide *;
    var t := Redeemed(s, key, scope);
    forall account: AccountId
      ensures account in t.usage && |ResetsOf(t, account)| + t.usage[account].availableResetCredits == 1
    {
      CreditsOf(s, account);
      CreditsOf(s, scope.account);
      RedeemedResets(s, key, scope, account);
      RedeemedUsage(s, key, scope, account);
    }
    ConservedIs(t);
  }

  lemma RedeemedKeepsMaps(s: State, key: string, scope: Scope)
    requires InverseMaps(s) && OnlyResets(s) && key !in s.operations && OfScope(scope) !in s.owners
    requires scope.account in s.usage
    ensures InverseMaps(Redeemed(s, key, scope)) && OnlyResets(Redeemed(s, key, scope))
  {
  }

  // A fresh key redeems exactly when it is well-formed and its scope is the current offer.
  lemma ConsumeCases(s: State, key: string, scope: Option<ScopeKey>)
    requires Invariant(s)
    ensures var (response, t) := Consume(s, key, scope);
            if IsUuid(key) && key !in s.operations
               && CurrentScope(s).Some? && scope == Some(OfScope(CurrentScope(s).value))
            then
              && response == Consumed(Reset, scope.value) && t == Redeemed(s, key, CurrentScope(s).value)
              && s.usage[CurrentScope(s).value.account].availableResetCredits == 1
            else
              t == s && response != AlreadyBeingRedeemed && (response.Consumed? ==> response.outcome == Reset)
  {
    hide IsUuid;
    if CurrentScope(s).Some? {
      var current := CurrentScope(s).value;
      UnusedAccountHasNoOwner(s, current);
      assert |ResetsOf(s, current.account)| + s.usage[current.account].availableResetCredits == 1;
    }
  }

  lemma ConsumeKeepsInvariant(s: State, key: string, scope: Option<ScopeKey>)
    requires Invariant(s)
    ensures Invariant(Consume(s, key, scope).1)
  {
    ConsumeCases(s, key, scope);
    if Consume(s, key, scope).1 != s {
      var current := CurrentScope(s).value;
      UnusedAccountHasNoOwner(s, current);
      RedeemedConserves(s, key, current);
      RedeemedKeepsMaps(s, key, current);
    }
    hide Consume, Redeemed, InverseMaps, OnlyResets, Conserved;
  }

  lemma {:induction false} InvariantAlways(s: State, events: seq<Event>)
    requires Invariant(s)
    ensures Invariant(After(s, events))
    decreases |events|
  {
    if events != [] {
      match events[0] {
        case SelectAccount(account) =>
          var t := s.(active := account);
          assert forall a :: ResetsOf(t, a) == ResetsOf(s, a);
        case ConsumeCredit(key, scope) => ConsumeKeepsInvariant(s, key, scope);
        case ResetFixture(now) => FixtureInvariant(now);
      }
      hide Invariant, Consume;
      InvariantAlways(Apply(s, events[0]), events[1..]);
    }
  }

  // In every reachable state: the maps are inverse bijections, and every account's
  // successful resets plus its remaining credits are its one initial credit.
  lemma ExactlyOnce(now: int, events: seq<Event>, account: AccountId)
    ensures var s := After(Fixture(now), events);
            && InverseMaps(s) && account in s.usage
            && |ResetsOf(s, account)| + s.usage[account].availableResetCredits == 1
  {
    FixtureInvariant(now);
    InvariantAlways(Fixture(now), events);
  }

  // In every reachable state a fresh key redeems exactly when it is well-formed and its
  // scope is the current offer; it then resets the account.  Two of the answers the code
  // provides for are never given: an offer redeemed by another key, and no credit.
  lemma FreshConsumption(now: int, events: seq<Event>, key: string, scope: Option<ScopeKey>)
    ensures var s := After(Fixture(now), events);
            var (response, t) := Consume(s, key, scope);
            && response != AlreadyBeingRedeemed
            && (response.Consumed? ==> response.outcome == Reset)
            && (t != s <==> IsUuid(key) && key !in s.operations
                            && CurrentScope(s).Some? && scope == Some(OfScope(CurrentScope(s).value)))
            && (t != s ==> response == Consumed(Reset, scope.value)
                           && s.usage[CurrentScope(s).value.account].availableResetCredits == 1
                           && t.usage[CurrentScope(s).value.account].availableResetCredits == 0
                           && CurrentScope(t) == None)
  {
    FixtureInvariant(now);
    InvariantAlways(Fixture(now), events);
    ConsumeCases(After(Fixture(now), events), key, scope);
    hide After, Fixture, Consume, Invariant;
  }

  // What every request is answered in every reachable state, and all it changes.
  lemma AnswersExactly(now: int, events: seq<Event>, key: string, scope: Option<ScopeKey>)
    ensures var s := After(Fixture(now), events);
            var (response, t) := Consume(s, key, scope);
            var current := CurrentScope(s);
            && (response == InvalidIdempotencyKey <==> !IsUuid(key))
            && (response == MissingScope <==> IsUuid(key) && scope == None)
            && (response == DifferentAccountScope <==>
                  IsUuid(key) && scope.Some? && key in s.operations && s.operations[key].scopeKey != scope.value)
            && (response.OfferChanged? <==>
                  IsUuid(key) && scope.Some? && key !in s.operations
                  && (current == None || scope != Some(OfScope(current.value))))
            && (response.OfferChanged? ==> response.scope == scope.value)
            && (response.Consumed? ==> response == Consumed(Reset, scope.value))
            && (if response.Consumed? && key !in s.operations then
                  current.Some? && current.value.account in s.usage && t == Redeemed(s, key, current.value)
                else t == s)
  {
    FixtureInvariant(now);
    InvariantAlways(Fixture(now), events);
    ConsumeCases(After(Fixture(now), events), key, scope);
    hide After, Fixture, IsUuid, CurrentScope, Conserved, InverseMaps;
  }

  // What an offer stands for: in every reachable state it is the active account's, the
  // account has its credit, and no recorded operation has redeemed it.
  lemma OfferIsUnspent(now: int, events: seq<Event>, scope: Scope)
    ensures var s := After(Fixture(now), events);
            CurrentScope(s) == Some(scope) ==>
              && s.active == Some(scope.account) && s.usage[scope.account].availableResetCredits == 1
              && OfScope(scope) !in s.owners
              && (forall key <- s.operations :: s.operations[key].scopeKey != OfScope(scope))
  {
    var s := After(Fixture(now), events);
    FixtureInvariant(now);
    InvariantAlways(Fixture(now), events);
    hide After, Fixture;
    if CurrentScope(s) == Some(scope) {
      UnusedAccountHasNoOwner(s, scope);
      assert |ResetsOf(s, scope.account)| + s.usage[scope.account].availableResetCredits == 1;
    }
  }

  predicate WithoutFixtureReset(events: seq<Event>) {
    forall i :: 0 <= i < |events| ==> !events[i].ResetFixture?
  }

  // A recorded operation stays as it is until the fixture is reset.
  lemma {:induction false} OperationsArePermanent(s: State, events: seq<Event>, key: string)
    requires key in s.operations && WithoutFixtureReset(events)
    ensures var t := After(s, events);
            key in t.operations && t.operations[key] == s.operations[key]
    decreases |events|
  {
    if events != [] {
      OperationsArePermanent(Apply(s, events[0]), events[1..], key);
    }
  }

  lemma {:induction false} AfterBoth(s: State, early: seq<Event>, late: seq<Event>)
    ensures After(s, early + late) == After(After(s, early), late)
    decreases |early|
  {
    if early == [] {
      assert early + late == late;
    } else {
      assert (early + late)[0] == early[0] && (early + late)[1..] == early[1..] + late;
      AfterBoth(Apply(s, early[0]), early[1..], late);
    }
  }

  // An offer once redeemed is never made again, through any account switches and requests,
  // until the fixture is reset.
  lemma RedeemedOfferIsNotRepeated(now: int, early: seq<Event>, key: string, scope: Scope, late: seq<Event>)
    requires var s := After(Fixture(now), early);
             key in s.operations && s.operations[key].scopeKey == OfScope(scope)
    requires WithoutFixtureReset(late)
    ensures CurrentScope(After(After(Fixture(now), early), late)) != Some(scope)
  {
    hide *;
    OperationsArePermanent(After(Fixture(now), early), late, key);
    AfterBoth(Fixture(now), early, late);
    OfferIsUnspent(now, early + late, scope);
  }

  // The reset does bring it back: at the same moment the same offer is made again.
  lemma ResetRepeatsOffer(now: int, key: string)
    requires IsUuid(key) && SafeTimestamp(now)
    ensures var scope := CurrentScope(Fixture(now));
            && scope.Some?
            && var redeemed := Apply(Fixture(now), ConsumeCredit(key, Some(OfScope(scope.value))));
               && key in redeemed.operations && redeemed.operations[key].scopeKey == OfScope(scope.value)
               && CurrentScope(redeemed) == None
               && CurrentScope(Apply(redeemed, ResetFixture(now))) == scope
  {
    hide IsUuid;
  }

  // Replay: once a key has an outcome, asking again with the same scope - after any
  // account switches and other consumptions - returns that outcome and changes nothing;
  // with another scope it is refused and changes nothing.
  lemma ReplayIsIdempotent(s: State, key: string, scope: ScopeKey, outcome: Outcome, events: seq<Event>, again: ScopeKey)
    requires Consume(s, key, Some(scope)).0 == Consumed(outcome, scope)
    requires WithoutFixtureReset(events)
    ensures var t := After(Consume(s, key, Some(scope)).1, events);
            Consume(t, key, Some(again)) == (if again == scope then Consumed(outcome, scope) else DifferentAccountScope, t)
  {
    OperationsArePermanent(Consume(s, key, Some(scope)).1, events, key);
  }
}
