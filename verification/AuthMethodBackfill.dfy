/** db/migrations/20241014084900_identity-multiple-auth-methods.ts: delete the access tokens of
    identities without an auth method, then copy each identity's method onto its tokens in
    batches. */
module AuthMethodBackfill {
  import opened Prelude

  const BATCH_SIZE := 10_000

  type Id = string
  type Method = string
  type Identities = map<Id, Option<Method>>

  datatype Token = Token(identityId: Id, authMethod: Option<Method>)

  type Tokens = map<Id, Token>

  predicate HasMethod(identities: Identities, identityId: Id) {
    identityId in identities && identities[identityId].Some?
  }

  /** WHERE "authMethod" IS NULL. */
  function NullTokens(tokens: Tokens): set<Id> {
    set id | id in tokens && tokens[id].authMethod.None?
  }

  /** UPDATE ... SET authMethod = (SELECT ... first()) for the tokens of one batch; the subquery is
      null when no identity matches. */
  function Backfill(tokens: Tokens, identities: Identities, batch: set<Id>): Tokens {
    map id | id in tokens ::
      if id in batch
      then tokens[id].(authMethod := if HasMethod(identities, tokens[id].identityId)
                                     then identities[tokens[id].identityId] else None)
      else tokens[id]
  }

  /** The tokens the migration should leave: those of identities with a method, carrying it. */
  function Backfilled(tokens: Tokens, identities: Identities): Tokens {
    map id | id in tokens && HasMethod(identities, tokens[id].identityId) ::
      Token(tokens[id].identityId, identities[tokens[id].identityId])
  }

  /** The tokens right after the new column has been added. */
  function Nulled(tokens: Tokens): Tokens {
    map id | id in tokens :: Token(tokens[id].identityId, None)
  }

  /** DELETE of the tokens whose identity has no method. */
  function WithoutOrphans(tokens: Tokens, identities: Identities): Tokens {
    map id | id in tokens && HasMethod(identities, tokens[id].identityId) :: tokens[id]
  }

  /** The tokens after adding the column and the delete. */
  function Kept(tokens: Tokens, identities: Identities): Tokens {
    map id | id in tokens && HasMethod(identities, tokens[id].identityId) :: Token(tokens[id].identityId, None)
  }

  /** Every token is either still null or carries its identity's method. */
  ghost predicate PartlyFilled(before: Tokens, tokens: Tokens, identities: Identities) {
    && tokens.Keys == before.Keys
    && forall id :: id in tokens ==>
         && tokens[id].identityId == before[id].identityId
         && HasMethod(identities, tokens[id].identityId)
         && (tokens[id].authMethod.Some? ==> tokens[id].authMethod == identities[tokens[id].identityId])
  }

  /** After the initial delete a batch update fills exactly its batch. */
  lemma BatchIsFilled(before: Tokens, tokens: Tokens, identities: Identities, batch: set<Id>)
    requires PartlyFilled(before, tokens, identities)
    requires batch <= NullTokens(tokens)
    ensures var after := Backfill(tokens, identities, batch);
            && PartlyFilled(before, after, identities)
            && |after| == |tokens|
            && NullTokens(after) == NullTokens(tokens) - batch
            && |NullTokens(after)| == |NullTokens(tokens)| - |batch|
  {
    var after := Backfill(tokens, identities, batch);
    assert after.Keys == tokens.Keys;
    assert |after| == |after.Keys| && |tokens| == |tokens.Keys|;
    assert NullTokens(after) == NullTokens(tokens) - batch;
  }

  /** The tokens are as they should be exactly when none is null any more. */
  lemma FilledExactlyWhenNoneIsNull(before: Tokens, tokens: Tokens, identities: Identities)
    requires PartlyFilled(Kept(before, identities), tokens, identities)
    ensures tokens == Backfilled(before, identities) <==> NullTokens(tokens) == {}
  {
    var kept := Kept(before, identities);
    assert tokens.Keys == kept.Keys == Backfilled(before, identities).Keys;
    if NullTokens(tokens) == {} {
      forall id | id in tokens ensures tokens[id] == Backfilled(before, identities)[id] {
        assert id !in NullTokens(tokens);
        assert kept[id].identityId == before[id].identityId;
      }
    }
    if tokens == Backfilled(before, identities) {
      forall id | id in tokens ensures id !in NullTokens(tokens) {
        assert tokens[id] == Backfilled(before, identities)[id];
      }
    }
  }

  /** A remark on why the delete comes first: a batch of tokens whose identities have no method stays
      null however often it is updated, and the loop would not progress. */
  lemma OrphanTokensStayNull(tokens: Tokens, identities: Identities, batch: set<Id>)
    requires batch <= NullTokens(tokens)
    ensures NullTokens(Backfill(tokens, identities, batch)) == NullTokens(tokens)
            <==> forall id :: id in batch ==> !HasMethod(identities, tokens[id].identityId)
  {
    var after := Backfill(tokens, identities, batch);
    if NullTokens(after) == NullTokens(tokens) {
      forall id | id in batch ensures !HasMethod(identities, tokens[id].identityId) {
        assert id in NullTokens(after);
      }
    }
  }

  // ---------------------------------------------------------------- crashes and re-runs

  /** The column, its NOT NULL constraint, and the tokens. */
  datatype TableState = TableState(hasColumn: bool, notNull: bool, tokens: Tokens)

  /** The state in which the migration finishes. */
  function Finished(before: Tokens, identities: Identities): TableState {
    TableState(true, true, Backfilled(before, identities))
  }

  /** What the migration, which runs without a transaction, can leave behind when it does not finish. */
  ghost predicate Interrupted(before: Tokens, identities: Identities, s: TableState) {
    && !s.notNull
    && if !s.hasColumn then s.tokens == before
       else s.tokens == Nulled(before) || PartlyFilled(Kept(before, identities), s.tokens, identities)
  }

  /** A re-run that is not interrupted: with the column there it does nothing. */
  function Rerun(identities: Identities, s: TableState): TableState {
    if s.hasColumn then s else Finished(s.tokens, identities)
  }

  /** A re-run finishes the migration, constraint included, exactly if the interruption came before the
      column was added. */
  lemma RerunFinishesExactlyWhen(before: Tokens, identities: Identities, s: TableState)
    requires Interrupted(before, identities, s)
    ensures Rerun(identities, s) == Finished(before, identities) <==> !s.hasColumn
  {
  }

  /** As to the tokens alone, a re-run ends with the right ones also if no token was null any more. */
  lemma RerunCompletesExactlyWhen(before: Tokens, identities: Identities, s: TableState)
    requires Interrupted(before, identities, s)
    ensures Rerun(identities, s).tokens == Backfilled(before, identities)
            <==> !s.hasColumn || NullTokens(s.tokens) == {}
  {
    if s.hasColumn {
      if PartlyFilled(Kept(before, identities), s.tokens, identities) {
        FilledExactlyWhenNoneIsNull(before, s.tokens, identities);
      } else {
        NulledIsFilledExactlyWhen(before, identities);
      }
    }
  }

  lemma NulledIsFilledExactlyWhen(before: Tokens, identities: Identities)
    ensures Nulled(before) == Backfilled(before, identities) <==> NullTokens(Nulled(before)) == {}
  {
    var tokens := Nulled(before);
    if NullTokens(tokens) == {} {
      assert forall id :: id in before ==> id in NullTokens(tokens);
      assert tokens == Backfilled(before, identities);
    } else {
      var id :| id in NullTokens(tokens);
      if id in Backfilled(before, identities) {
        assert Backfilled(before, identities)[id].authMethod.Some?;
      }
    }
  }

  /** Interruptions that a re-run does not repair happen: one token, and a crash right after the first
      statement leaves it null for good. */
  lemma StuckTable() returns (before: Tokens, identities: Identities, s: TableState)
    ensures Interrupted(before, identities, s)
    ensures Rerun(identities, s).tokens != Backfilled(before, identities)
  {
    before, identities := map["t" := Token("i", None)], map["i" := Some("m")];
    s := TableState(true, false, Nulled(before));
    assert s.tokens["t"].authMethod.None? && Backfilled(before, identities)["t"].authMethod.Some?;
  }

  /** How many updates the loop makes for `n` tokens: at least one. */
  function Passes(n: nat): nat {
    if n <= BATCH_SIZE then 1 else 1 + Passes(n - BATCH_SIZE)
  }

  lemma {:induction false} PassesReach(n: nat)
    ensures (Passes(n) - 1) * BATCH_SIZE < n <= Passes(n) * BATCH_SIZE || (n == 0 && Passes(n) == 1)
  {
    if n > BATCH_SIZE {
      PassesReach(n - BATCH_SIZE);
    }
  }

  lemma KeptAndBackfilled(before: Tokens, identities: Identities)
    ensures WithoutOrphans(Nulled(before), identities) == Kept(before, identities)
    ensures |Kept(before, identities)| == |Backfilled(before, identities)|
  {
    var a, b := Kept(before, identities), Backfilled(before, identities);
    assert WithoutOrphans(Nulled(before), identities).Keys == a.Keys == b.Keys;
    assert |a| == |a.Keys| && |b| == |b.Keys|;
  }

  class AccessTokenTable {
    var hasAuthMethodColumn: bool
    var authMethodNotNull: bool
    var tokens: Tokens
    const identities: Identities

    constructor (tokens: Tokens, identities: Identities, hasColumn: bool)
      ensures this.tokens == tokens && this.identities == identities
      ensures hasAuthMethodColumn == hasColumn && !authMethodNotNull
    {
      this.tokens, this.identities := tokens, identities;
      hasAuthMethodColumn, authMethodNotNull := hasColumn, false;
    }

    /** The batch loop, interrupted when it would make more than `limit` updates. Each pass fills every
        token of its batch, so the number of tokens still to fill falls by a batch, and at the end the
        running total is the number of tokens. */
    method FillInBatches(limit: nat) returns (totalUpdated: nat, passes: nat, finished: bool)
      requires forall id :: id in tokens ==> HasMethod(identities, tokens[id].identityId)
      requires forall id :: id in tokens ==> tokens[id].authMethod.None?
      modifies this`tokens
      ensures PartlyFilled(old(tokens), tokens, identities) && |tokens| == |old(tokens)|
      ensures |NullTokens(tokens)| == Max(0, |tokens| - passes * BATCH_SIZE)
      ensures finished <==> limit >= Passes(|tokens|)
      ensures passes == Min(limit, Passes(|tokens|))
      ensures finished ==> totalUpdated == |tokens|
    {
      var nullable := TakeSome(NullTokens(tokens), BATCH_SIZE);
      totalUpdated, passes, finished := 0, 0, false;
      assert NullTokens(tokens) == tokens.Keys;
      PassesReach(|tokens|);
      while passes < limit
        invariant PartlyFilled(old(tokens), tokens, identities) && |tokens| == |old(tokens)|
        invariant totalUpdated + |NullTokens(tokens)| == |tokens|
        invariant |NullTokens(tokens)| == Max(0, |tokens| - passes * BATCH_SIZE)
        invariant nullable <= NullTokens(tokens) && |nullable| == Min(|NullTokens(tokens)|, BATCH_SIZE)
        invariant passes <= limit && passes < Passes(|tokens|)
        decreases limit - passes
      {
        var batchIds := nullable;
        BatchIsFilled(old(tokens), tokens, identities, batchIds);
        tokens := Backfill(tokens, identities, batchIds);
        nullable := TakeSome(NullTokens(tokens), BATCH_SIZE);
        totalUpdated := totalUpdated + |batchIds|;
        passes := passes + 1;
        if |nullable| == 0 {
          finished := true;
          break;
        }
      }
    }

    /** The migration, interrupted when it would execute more than `limit` writing statements. If it
        finishes, it leaves exactly the tokens whose identity has a method, each with that method,
        counts every one of them once, and can make the column NOT NULL; it finishes exactly if it is
        given a statement for the column, one for the delete, one for each batch and one for the
        constraint. Interrupted, it leaves one of the states described above, with one batch filled
        for every statement after the second. With the column present it does nothing. */
    method Up(limit: nat) returns (totalUpdated: nat, finished: bool)
      modifies this
      ensures old(hasAuthMethodColumn) ==>
                && finished && totalUpdated == 0
                && tokens == old(tokens) && hasAuthMethodColumn && authMethodNotNull == old(authMethodNotNull)
      ensures !old(hasAuthMethodColumn) ==>
                (finished <==> limit >= Passes(|Backfilled(old(tokens), identities)|) + 3)
      ensures !old(hasAuthMethodColumn) && finished ==>
                && tokens == Backfilled(old(tokens), identities)
                && totalUpdated == |tokens|
                && hasAuthMethodColumn && authMethodNotNull && NullTokens(tokens) == {}
      ensures !finished ==>
                && (hasAuthMethodColumn <==> limit >= 1)
                && authMethodNotNull == old(authMethodNotNull)
                && Interrupted(old(tokens), identities, TableState(hasAuthMethodColumn, false, tokens))
                && (limit == 1 ==> tokens == Nulled(old(tokens)))
                && (limit >= 2 ==> |NullTokens(tokens)| == Max(0, |tokens| - (limit - 2) * BATCH_SIZE))
    {
      totalUpdated, finished := 0, false;
      if !hasAuthMethodColumn {
        if limit < 1 {
          return;
        }
        hasAuthMethodColumn := true;
        tokens := Nulled(tokens);
        if limit < 2 {
          return;
        }
        tokens := WithoutOrphans(tokens, identities);
        KeptAndBackfilled(old(tokens), identities);
        var passes, filled;
        totalUpdated, passes, filled := FillInBatches(limit - 2);
        FilledExactlyWhenNoneIsNull(old(tokens), tokens, identities);
        PassesReach(|tokens|);
        if limit < passes + 3 {
          return;
        }
        authMethodNotNull := NullTokens(tokens) == {};
      }
      finished := true;
    }

    /** A run that may be interrupted, followed by one that is not. Afterwards the migration is finished,
        constraint included, exactly if the first run executed none of its statements or all of them. */
    method UpAgain(limit: nat)
      requires !hasAuthMethodColumn && !authMethodNotNull
      modifies this
      ensures TableState(hasAuthMethodColumn, authMethodNotNull, tokens) == Finished(old(tokens), identities)
              <==> limit == 0 || limit >= Passes(|Backfilled(old(tokens), identities)|) + 3
    {
      ghost var before := tokens;
      var totalUpdated, finished := Up(limit);
      ghost var s := TableState(hasAuthMethodColumn, authMethodNotNull, tokens);
      totalUpdated, finished := Up(Passes(|Backfilled(tokens, identities)|) + 3);
      if Interrupted(before, identities, s) {
        RerunFinishesExactlyWhen(before, identities, s);
      }
    }
  }
}
