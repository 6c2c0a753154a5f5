/** Redeeming Codex reset credits: every redemption carries an idempotency key and the offer the
    caller saw; the ledger remembers operations by key and owners by offer. */
module CreditLedger {
  import opened Options

  const PERSONAL := "codex-personal"
  const TEAM := "codex-team"
  const DAY_MS: int := 24 * 60 * 60 * 1000
  const MAX_SAFE_INTEGER: int := 0x1F_FFFF_FFFF_FFFF

  datatype Usage = Usage(credits: nat, usedPercent: nat, updatedAt: int, nextExpiresAt: int)

  /** The quota data an offer is tied to. */
  datatype Offer = Offer(credits: nat, nextExpiresAt: int, usedPercent: nat, sessionResetsAt: int, updatedAt: int)

  datatype Scope = Scope(accountId: string, accountRevision: nat, offer: Offer)

  /** The JSON text of the scope a caller supplies: that of some scope, or any other text. */
  datatype ScopeKey = Exact(scope: Scope) | Foreign(text: string)

  datatype Outcome = Reset | NoCredit

  datatype Operation = Operation(scopeKey: ScopeKey, outcome: Outcome)

  datatype State = State(
    startedAt: int,
    active: Option<string>,
    usage: map<string, Usage>,
    operations: map<string, Operation>,
    owners: map<ScopeKey, string>)

  datatype Refusal = InvalidKey | MissingScope | OtherScope | BeingRedeemed | UnknownAccount

  datatype Response = Redeemed(outcome: Outcome, scopeKey: ScopeKey) | OfferChanged | Refused(why: Refusal) | Selected

  // ---------------------------------------------------------------- operations

  function InitialUsage(startedAt: int, offset: int): Usage {
    Usage(1, 100, startedAt + offset, startedAt + (5 + offset) * DAY_MS)
  }

  function ResetState(now: int): State {
    State(now, Some(PERSONAL), map[PERSONAL := InitialUsage(now, 0), TEAM := InitialUsage(now, 1)], map[], map[])
  }

  function Select(s: State, account: Option<string>): (State, Response) {
    if account.Some? && account.value !in {PERSONAL, TEAM} then (s, Refused(UnknownAccount))
    else (s.(active := account), Selected)
  }

  function Revision(account: string): nat {
    if account == PERSONAL then 1 else 2
  }

  /** The offer on the table: none without an account, without credit, or when the time stamp
      is not a safe non-negative integer. */
  function CurrentScope(s: State): Option<Scope> {
    if s.active.None? || s.active.value !in s.usage then None
    else
      var u := s.usage[s.active.value];
      if u.credits == 0 || !(0 <= u.updatedAt <= MAX_SAFE_INTEGER) then None
      else
        Some(Scope(s.active.value, Revision(s.active.value),
                   Offer(u.credits, u.nextExpiresAt, u.usedPercent, s.startedAt + 90 * 60 * 1000, u.updatedAt)))
  }

  predicate IsHex(c: char) {
    '0' <= c <= '9' || 'a' <= c <= 'f' || 'A' <= c <= 'F'
  }

  predicate IsUuid(s: string) {
    && |s| == 36
    && (forall i | 0 <= i < 36 :: if i in {8, 13, 18, 23} then s[i] == '-' else IsHex(s[i]))
    && '1' <= s[14] <= '8'
    && s[19] in {'8', '9', 'a', 'b', 'A', 'B'}
  }

  /** Spends the account's credit. */
  function Spend(u: Usage): Usage {
    Usage(0, 0, u.updatedAt + 1, u.nextExpiresAt)
  }

  function Consume(s: State, key: string, supplied: Option<ScopeKey>): (State, Response) {
    if !IsUuid(key) then (s, Refused(InvalidKey))
    else if supplied.None? then (s, Refused(MissingScope))
    else if key in s.operations then
      if s.operations[key].scopeKey != supplied.value then (s, Refused(OtherScope))
      else (s, Redeemed(s.operations[key].outcome, supplied.value))
    else
      var current := CurrentScope(s);
      if current.None? || Exact(current.value) != supplied.value then (s, OfferChanged)
      else if supplied.value in s.owners && s.owners[supplied.value] != key then (s, Refused(BeingRedeemed))
      else
        var account := current.value.accountId;
        var outcome := if account in s.usage && s.usage[account].credits > 0 then Reset else NoCredit;
        (s.(owners := s.owners[supplied.value := key],
            operations := s.operations[key := Operation(supplied.value, outcome)],
            usage := if outcome == Reset then s.usage[account := Spend(s.usage[account])] else s.usage),
         Redeemed(outcome, supplied.value))
  }

  datatype Event = SelectAccount(account: Option<string>) | ConsumeCredit(key: string, supplied: Option<ScopeKey>)

  function Step(s: State, e: Event): (State, Response) {
    match e
    case SelectAccount(account) => Select(s, account)
    case ConsumeCredit(key, supplied) => Consume(s, key, supplied)
  }

  function Run(s: State, events: seq<Event>): State
    decreases |events|
  {
    if events == [] then s else Run(Step(s, events[0]).0, events[1..])
  }

  // ---------------------------------------------------------------- the invariant

  function CreditsLeft(s: State): nat
    requires PERSONAL in s.usage && TEAM in s.usage
  {
    s.usage[PERSONAL].credits + s.usage[TEAM].credits
  }

  /** Owners and operations are in one-to-one correspondence. */
  ghost predicate OneToOne(s: State) {
    && (forall k | k in s.operations ::
          s.operations[k].scopeKey in s.owners && s.owners[s.operations[k].scopeKey] == k)
    && (forall o | o in s.owners :: s.owners[o] in s.operations && s.operations[s.owners[o]].scopeKey == o)
  }

  /** Every recorded operation spent the one credit of the account its offer was for, and no
      other operation is for that account. */
  ghost predicate SpentOnce(s: State) {
    && (forall k | k in s.operations ::
          && s.operations[k].outcome == Reset
          && s.operations[k].scopeKey.Exact?
          && s.operations[k].scopeKey.scope.accountId in s.usage
          && s.usage[s.operations[k].scopeKey.scope.accountId].credits == 0)
    && (forall k, l | k in s.operations && l in s.operations && k != l ::
          s.operations[k].scopeKey.scope.accountId != s.operations[l].scopeKey.scope.accountId)
  }

  ghost predicate Invariant(s: State) {
    && s.usage.Keys == {PERSONAL, TEAM}
    && s.usage[PERSONAL].credits <= 1 && s.usage[TEAM].credits <= 1
    && OneToOne(s) && SpentOnce(s)
    && |s.operations.Keys| + CreditsLeft(s) == 2
  }

  lemma ResetEstablishes(now: int)
    ensures Invariant(ResetState(now))
  {}

  /** What a call does to a ledger in good order: nothing, or it redeems the current offer. */
  lemma ConsumeCases(s: State, key: string, supplied: Option<ScopeKey>)
    requires Invariant(s)
    ensures var (t, response) := Consume(s, key, supplied);
            && response != Refused(BeingRedeemed)
            && (response.Redeemed? ==> response.outcome == Reset)
            && (t == s || (key !in s.operations && CurrentScope(s).Some? && t == Redeem(s, key, CurrentScope(s).value)))
  {
    if supplied.Some? && key !in s.operations {
      var current := CurrentScope(s);
      if current.Some? && Exact(current.value) == supplied.value {
        OfferHasNoOwner(s, current.value);
      }
    }
  }

  lemma StepKeepsInvariant(s: State, e: Event)
    requires Invariant(s)
    ensures Invariant(Step(s, e).0)
    ensures Step(s, e).1 != Refused(BeingRedeemed)
    ensures Step(s, e).1.Redeemed? ==> Step(s, e).1.outcome == Reset
  {
    match e
    case SelectAccount(account) => SelectKeepsInvariant(s, account);
    case ConsumeCredit(key, supplied) =>
      ConsumeCases(s, key, supplied);
      ConsumeKeepsInvariant(s, key, supplied);
  }

  lemma ConsumeKeepsInvariant(s: State, key: string, supplied: Option<ScopeKey>)
    requires Invariant(s)
    ensures var t := Consume(s, key, supplied).0;
            Invariant(t)
  {
    ConsumeCases(s, key, supplied);
    if Consume(s, key, supplied).0 != s {
      OfferHasNoOwner(s, CurrentScope(s).value);
      RedeemKeepsInvariant(s, key, CurrentScope(s).value);
    }
  }

  lemma SelectKeepsInvariant(s: State, account: Option<string>)
    requires Invariant(s)
    ensures Invariant(Select(s, account).0)
  {}

  /** The state after the offer on the table has been redeemed with a fresh key. */
  function Redeem(s: State, key: string, scope: Scope): State
    requires scope.accountId in s.usage
  {
    s.(owners := s.owners[Exact(scope) := key],
       operations := s.operations[key := Operation(Exact(scope), Reset)],
       usage := s.usage[scope.accountId := Spend(s.usage[scope.accountId])])
  }

  lemma RedeemKeepsInvariant(s: State, key: string, scope: Scope)
    requires Invariant(s) && CurrentScope(s) == Some(scope) && key !in s.operations && Exact(scope) !in s.owners
    requires forall k | k in s.operations :: s.operations[k].scopeKey.scope.accountId != scope.accountId
    ensures Invariant(Redeem(s, key, scope))
  {
    var t := Redeem(s, key, scope);
    assert t.operations.Keys == s.operations.Keys + {key};
    assert t.usage.Keys == s.usage.Keys;
    RedeemKeepsOneToOne(s, key, scope);
    RedeemKeepsSpentOnce(s, key, scope);
  }

  lemma RedeemKeepsSpentOnce(s: State, key: string, scope: Scope)
    requires SpentOnce(s) && scope.accountId in s.usage && key !in s.operations
    requires forall k | k in s.operations :: s.operations[k].scopeKey.scope.accountId != scope.accountId
    ensures SpentOnce(Redeem(s, key, scope))
  {}

  lemma RedeemKeepsOneToOne(s: State, key: string, scope: Scope)
    requires OneToOne(s) && scope.accountId in s.usage && key !in s.operations && Exact(scope) !in s.owners
    ensures OneToOne(Redeem(s, key, scope))
  {}

  /** An offer still on the table has never been redeemed. */
  lemma OfferHasNoOwner(s: State, scope: Scope)
    requires Invariant(s) && CurrentScope(s) == Some(scope)
    ensures Exact(scope) !in s.owners
    ensures forall k | k in s.operations :: s.operations[k].scopeKey.scope.accountId != scope.accountId
  {
    forall o | o in s.owners ensures o != Exact(scope) {
      assert s.operations[s.owners[o]].scopeKey == o;
    }
  }

  lemma {:induction false} RunKeepsInvariant(s: State, events: seq<Event>)
    requires Invariant(s)
    ensures Invariant(Run(s, events))
    decreases |events|
  {
    if events != [] {
      StepKeepsInvariant(s, events[0]);
      RunKeepsInvariant(Step(s, events[0]).0, events[1..]);
    }
  }

  /** Over every run after a reset, resets recorded plus credits left stay two; offers and
      operations correspond one to one; no call is ever told that its offer is being redeemed,
      and none is recorded without a credit. */
  lemma CreditsAreConserved(now: int, events: seq<Event>)
    ensures var s := Run(ResetState(now), events);
            && s.usage.Keys == {PERSONAL, TEAM}
            && |s.operations.Keys| + CreditsLeft(s) == 2
            && (forall k | k in s.operations :: s.operations[k].outcome == Reset)
            && OneToOne(s)
            && (forall e: Event :: Step(s, e).1 != Refused(BeingRedeemed))
  {
    ResetEstablishes(now);
    RunKeepsInvariant(ResetState(now), events);
    var s := Run(ResetState(now), events);
    forall e: Event ensures Step(s, e).1 != Refused(BeingRedeemed) {
      StepKeepsInvariant(s, e);
    }
  }

  // ---------------------------------------------------------------- idempotency

  lemma {:induction false} OperationsPersist(s: State, events: seq<Event>, key: string)
    requires key in s.operations
    ensures key in Run(s, events).operations && Run(s, events).operations[key] == s.operations[key]
    decreases |events|
  {
    if events != [] {
      OperationsPersist(Step(s, events[0]).0, events[1..], key);
    }
  }

  /** A call that redeemed, repeated with the same key after anything else has happened, gives
      the same answer and changes nothing; with another offer it is refused. */
  lemma ReplayIsIdempotent(s: State, key: string, supplied: ScopeKey, events: seq<Event>, other: ScopeKey)
    requires Consume(s, key, Some(supplied)).1.Redeemed? && other != supplied
    ensures var first := Consume(s, key, Some(supplied));
            var later := Run(first.0, events);
            && Consume(later, key, Some(supplied)) == (later, first.1)
            && Consume(later, key, Some(other)) == (later, Refused(OtherScope))
  {
    var first := Consume(s, key, Some(supplied));
    OperationsPersist(first.0, events, key);
  }

  /** A fresh key redeems exactly when the offer it names is the one on the table. */
  lemma RedeemsExactlyTheCurrentOffer(now: int, events: seq<Event>, key: string, supplied: ScopeKey)
    requires IsUuid(key) && key !in Run(ResetState(now), events).operations
    ensures var s := Run(ResetState(now), events);
            var (t, response) := Consume(s, key, Some(supplied));
            && (response == Redeemed(Reset, supplied) <==>
                  CurrentScope(s).Some? && supplied == Exact(CurrentScope(s).value))
            && (response != Redeemed(Reset, supplied) ==> t == s && response == OfferChanged)
  {
    ResetEstablishes(now);
    RunKeepsInvariant(ResetState(now), events);
    var s := Run(ResetState(now), events);
    StepKeepsInvariant(s, ConsumeCredit(key, Some(supplied)));
  }

  // ---------------------------------------------------------------- what each call does

  /** Selecting a known account, or none, makes it the active one, and any offer then on the table
      is that account's; an unknown one is refused. Nothing else changes. */
  lemma SelectingChangesTheOffer(s: State, account: Option<string>)
    ensures var (t, response) := Select(s, account);
            && (response == Selected <==> account in {None, Some("codex-personal"), Some("codex-team")})
            && (response == Selected ==>
                  t.active == account
                  && (CurrentScope(t).Some? ==> account == Some(CurrentScope(t).value.accountId)))
            && (response != Selected ==> t == s && response == Refused(UnknownAccount))
            && t.startedAt == s.startedAt && t.usage == s.usage
            && t.operations == s.operations && t.owners == s.owners
  {}

  /** In a ledger in good order an offer is on the table exactly while the active account has its
      credit, as long as its time stamp is a safe integer: it is gone once the credit is spent. */
  lemma OfferWhileCreditLeft(s: State)
    requires Invariant(s)
    ensures CurrentScope(s).Some? <==>
              && s.active.Some? && s.active.value in {"codex-personal", "codex-team"}
              && s.usage[s.active.value].credits == 1
              && 0 <= s.usage[s.active.value].updatedAt < 0x20_0000_0000_0000
  {}

  /** Redeeming the offer on the table with a fresh key takes the active account's one credit,
      sets its use back to nothing, moves its time stamp on, records operation and owner, and
      takes the offer off the table; the other account keeps what it had. */
  lemma RedeemingSpendsTheCredit(s: State, key: string, scope: Scope)
    requires Invariant(s) && IsUuid(key) && key !in s.operations && CurrentScope(s) == Some(scope)
    ensures var (t, response) := Consume(s, key, Some(Exact(scope)));
            var account := scope.accountId;
            && response == Redeemed(Reset, Exact(scope))
            && s.active == Some(account) && t.active == s.active && t.startedAt == s.startedAt
            && t.usage.Keys == s.usage.Keys
            && t.usage[account] == Usage(0, 0, s.usage[account].updatedAt + 1, s.usage[account].nextExpiresAt)
            && (forall other | other in s.usage && other != account :: t.usage[other] == s.usage[other])
            && t.operations == s.operations[key := Operation(Exact(scope), Reset)]
            && t.owners == s.owners[Exact(scope) := key]
            && CurrentScope(t) == None
  {
    OfferHasNoOwner(s, scope);
  }

  /** Five groups of hexadecimal digits; the third begins with a version from 1 to 8 and the
      fourth with a variant. */
  ghost predicate UuidGroups(s: string, a: string, b: string, c: string, d: string, e: string) {
    && s == a + ("-" + (b + ("-" + (c + ("-" + (d + ("-" + e)))))))
    && |a| == 8 && |b| == |c| == |d| == 4 && |e| == 12
    && (forall x | x in a + b + c + d + e :: IsHex(x))
    && c[0] in "12345678" && d[0] in "89abAB"
  }

  lemma GroupsAreUuid(s: string, a: string, b: string, c: string, d: string, e: string)
    requires UuidGroups(s, a, b, c, d, e)
    ensures IsUuid(s)
  {
    assert forall i | 0 <= i < 8 :: s[i] == a[i] && a[i] in a + b + c + d + e;
    assert forall i | 0 <= i < 4 :: s[9 + i] == b[i] && b[i] in a + b + c + d + e;
  }

  lemma UuidHasGroups(s: string)
    requires IsUuid(s)
    ensures UuidGroups(s, s[..8], s[9..13], s[14..18], s[19..23], s[24..])
  {
    assert s[23..] == "-" + s[24..];
    assert s[19..] == s[19..23] + s[23..];
    assert s[18..] == "-" + s[19..];
    assert s[14..] == s[14..18] + s[18..];
    assert s[13..] == "-" + s[14..];
    assert s[9..] == s[9..13] + s[13..];
    assert s[8..] == "-" + s[9..];
    assert s == s[..8] + s[8..];
  }

  /** A key is well formed exactly if it is five such groups. */
  lemma KeysAreUuids(s: string)
    ensures IsUuid(s) <==> exists a, b, c, d, e :: UuidGroups(s, a, b, c, d, e)
  {
    if IsUuid(s) {
      UuidHasGroups(s);
    }
    forall a, b, c, d, e | UuidGroups(s, a, b, c, d, e) ensures IsUuid(s) {
      GroupsAreUuid(s, a, b, c, d, e);
    }
  }

  /** A call with a malformed key, or without a scope, is refused and changes nothing. */
  lemma BadCallsAreRefused(s: State, key: string, supplied: Option<ScopeKey>)
    requires !IsUuid(key) || supplied.None?
    ensures Consume(s, key, supplied) == (s, Refused(if IsUuid(key) then MissingScope else InvalidKey))
  {}

  // ---------------------------------------------------------------- the module's state

  /** The module-level variables, updated in place. */
  class Ledger {
    var startedAt: int
    var active: Option<string>
    var usage: map<string, Usage>
    var operations: map<string, Operation>
    var owners: map<ScopeKey, string>

    ghost function View(): State
      reads this
    {
      State(startedAt, active, usage, operations, owners)
    }

    constructor (now: int)
      ensures View() == ResetState(now)
    {
      new;
      ResetAll(now);
    }

    method ResetAll(now: int)
      modifies this
      ensures View() == ResetState(now) && Invariant(View())
    {
      startedAt := now;
      active := Some(PERSONAL);
      usage := map[PERSONAL := InitialUsage(now, 0), TEAM := InitialUsage(now, 1)];
      operations := map[];
      owners := map[];
      ResetEstablishes(now);
    }

    method SelectAccount(account: Option<string>) returns (response: Response)
      modifies this`active
      ensures (View(), response) == Select(old(View()), account)
    {
      if account.Some? && account.value !in {PERSONAL, TEAM} { return Refused(UnknownAccount); }
      active := account;
      response := Selected;
    }

    method ConsumeCredit(key: string, supplied: Option<ScopeKey>) returns (response: Response)
      modifies this`owners, this`operations, this`usage
      ensures (View(), response) == Consume(old(View()), key, supplied)
      ensures old(Invariant(View())) ==> Invariant(View())
    {
      if Invariant(View()) {
        ConsumeKeepsInvariant(View(), key, supplied);
      }
      if !IsUuid(key) { return Refused(InvalidKey); }
      if supplied.None? { return Refused(MissingScope); }
      var suppliedScopeKey := supplied.value;
      if key in operations {
        if operations[key].scopeKey != suppliedScopeKey { return Refused(OtherScope); }
        return Redeemed(operations[key].outcome, suppliedScopeKey);
      }
      var current := Offered();
      if current.None? || Exact(current.value) != suppliedScopeKey { return OfferChanged; }
      if suppliedScopeKey in owners && owners[suppliedScopeKey] != key { return Refused(BeingRedeemed); }
      var outcome := RedeemNow(key, suppliedScopeKey, current.value.accountId);
      response := Redeemed(outcome, suppliedScopeKey);
    }

    /** Records owner and operation, and spends the account's credit if it has one. */
    method RedeemNow(key: string, scopeKey: ScopeKey, account: string) returns (outcome: Outcome)
      modifies this`owners, this`operations, this`usage
      ensures outcome == if account in old(usage) && old(usage)[account].credits > 0 then Reset else NoCredit
      ensures owners == old(owners)[scopeKey := key]
      ensures operations == old(operations)[key := Operation(scopeKey, outcome)]
      ensures usage == if outcome == Reset then old(usage)[account := Spend(old(usage)[account])] else old(usage)
    {
      owners := owners[scopeKey := key];
      outcome := if account in usage && usage[account].credits > 0 then Reset else NoCredit;
      operations := operations[key := Operation(scopeKey, outcome)];
      if outcome == Reset {
        usage := usage[account := Spend(usage[account])];
      }
    }

    method Offered() returns (scope: Option<Scope>)
      ensures scope == CurrentScope(View())
    {
      if active.None? || active.value !in usage { return None; }
      var u := usage[active.value];
      if u.credits == 0 || !(0 <= u.updatedAt <= MAX_SAFE_INTEGER) { return None; }
      return Some(Scope(active.value, Revision(active.value),
                        Offer(u.credits, u.nextExpiresAt, u.usedPercent, startedAt + 90 * 60 * 1000, u.updatedAt)));
    }
  }
}
