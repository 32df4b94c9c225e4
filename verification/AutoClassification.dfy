/** The automatic run: clean up, then for each rule in turn delete and re-insert the assignments of its matches. */
module AutoClassification {
  import opened Common
  import opened ClassificationModel

  datatype Kind = Auto | Manual

  datatype Assignment = Assignment(account: int, classification: int, rule: Option<int>, kind: Kind)

  // ---- One rule ----

  /** Whether evaluating the rule raises: an invalid expression, or a candidate whose facts are missing. */
  predicate Raises(e: Engine, rule: Rule, accounts: seq<Account>) {
    rule.expression.None? || !(e.valid)(rule.expression.value) ||
    exists a <- OfType(e, accounts, RuleType(e, rule)) :: a.facts.None?
  }

  predicate Matches(e: Engine, rule: Rule, a: Account) {
    && rule.expression.Some? && a.facts.Some?
    && RuleType(e, rule) != "" && AccountType(e, a) == RuleType(e, rule)
    && (e.matches)(a.facts.value, rule.expression.value)
  }

  function Matched(e: Engine, rule: Rule, accounts: seq<Account>): seq<Account> {
    Filter((a: Account) => Matches(e, rule, a), accounts)
  }

  /** Deletes the classification's assignments of the matched accounts and inserts the new ones. */
  function Upserted(rows: seq<Assignment>, matched: seq<Account>, classification: int, rule: int): seq<Assignment> {
    Filter((r: Assignment) => !(r.classification == classification && exists a <- matched :: a.id == r.account), rows)
    + Inserted(matched, classification, rule)
  }

  function Inserted(matched: seq<Account>, classification: int, rule: int): seq<Assignment> {
    seq(|matched|, i requires 0 <= i < |matched| => Assignment(matched[i].id, classification, Some(rule), Auto))
  }

  /** A rule without an id is passed over; a failed write is rolled back to its savepoint and swallowed. */
  function RuleApplied(e: Engine, rows: seq<Assignment>, rule: Rule, accounts: seq<Account>, writeFails: bool): seq<Assignment> {
    if rule.id.None? || writeFails || Matched(e, rule, accounts) == [] then rows
    else Upserted(rows, Matched(e, rule, accounts), rule.classificationId, rule.id.value)
  }

  /** The assignments after the first k rules. */
  function RulesApplied(e: Engine, rows: seq<Assignment>, rules: seq<Rule>, accounts: seq<Account>, fails: nat -> bool): seq<Assignment> {
    if rules == [] then rows
    else
      var n := |rules| - 1;
      RuleApplied(e, RulesApplied(e, rows, rules[..n], accounts, fails), rules[n], accounts, fails(n))
  }

  // ---- What the assignments mean ----

  function For(rows: seq<Assignment>, account: int, classification: int): seq<Assignment> {
    Filter((r: Assignment) => r.account == account && r.classification == classification, rows)
  }

  /** The last rule of the classification that matches the account and whose write went through. */
  function LastMatch(e: Engine, rules: seq<Rule>, a: Account, classification: int, fails: nat -> bool): (k: Option<nat>)
    ensures k.Some? ==> k.value < |rules|
  {
    if rules == [] then None
    else
      var n := |rules| - 1;
      if Decides(e, rules[n], a, classification) && !fails(n) then Some(n)
      else LastMatch(e, rules[..n], a, classification, fails)
  }

  predicate Decides(e: Engine, rule: Rule, a: Account, classification: int) {
    rule.id.Some? && rule.classificationId == classification && Matches(e, rule, a)
  }

  /** LastMatch is the greatest index of a deciding rule whose write did not fail. */
  lemma {:induction false} LastMatchMeaning(e: Engine, rules: seq<Rule>, a: Account, classification: int, fails: nat -> bool)
    ensures LastMatch(e, rules, a, classification, fails).None? <==>
      forall j :: 0 <= j < |rules| && Decides(e, rules[j], a, classification) ==> fails(j)
    ensures LastMatch(e, rules, a, classification, fails).Some? ==>
      var k := LastMatch(e, rules, a, classification, fails).value;
      && Decides(e, rules[k], a, classification) && !fails(k)
      && forall j :: k < j < |rules| && Decides(e, rules[j], a, classification) ==> fails(j)
  {
    if rules == [] {
    } else {
      var n := |rules| - 1;
      LastMatchMeaning(e, rules[..n], a, classification, fails);
      assert forall j :: 0 <= j < n ==> rules[..n][j] == rules[j];
    }
  }

  lemma {:induction false} ForNone(rows: seq<Assignment>, account: int, classification: int)
    requires forall r :: r in rows ==> !(r.account == account && r.classification == classification)
    ensures For(rows, account, classification) == []
  {
    if rows == [] {
    } else {
      ForNone(rows[1..], account, classification);
    }
  }

  /** Deleting rows that are not the account's, or not the classification's, leaves the pair's rows alone. */
  lemma {:induction false} ForAfterDelete(rows: seq<Assignment>, keep: Assignment -> bool, account: int, classification: int)
    requires forall r :: r in rows && r.account == account && r.classification == classification ==> keep(r)
    ensures For(Filter(keep, rows), account, classification) == For(rows, account, classification)
  {
    if rows == [] {
    } else {
      ForAfterDelete(rows[1..], keep, account, classification);
    }
  }

  lemma ForAppend(xs: seq<Assignment>, ys: seq<Assignment>, account: int, classification: int)
    ensures For(xs + ys, account, classification) == For(xs, account, classification) + For(ys, account, classification)
  {
    FilterAppend((r: Assignment) => r.account == account && r.classification == classification, xs, ys);
  }

  lemma ForOne(row: Assignment, account: int, classification: int)
    ensures For([row], account, classification) ==
      if row.account == account && row.classification == classification then [row] else []
  {
    var rest: seq<Assignment> := [row][1..];
    assert rest == [] && For(rest, account, classification) == [];
  }

  /** Among distinct accounts, the insert adds one row for each of its accounts and none for others. */
  lemma {:induction false} ForInserted(matched: seq<Account>, classification: int, rule: int, account: int)
    requires DistinctAccounts(matched)
    ensures For(Inserted(matched, classification, rule), account, classification) ==
      if exists a :: a in matched && a.id == account then [Assignment(account, classification, Some(rule), Auto)] else []
  {
    if matched == [] {
    } else {
      var n := |matched| - 1;
      var before, last := matched[..n], Assignment(matched[n].id, classification, Some(rule), Auto);
      ForInserted(before, classification, rule, account);
      assert Inserted(matched, classification, rule) == Inserted(before, classification, rule) + [last];
      ForAppend(Inserted(before, classification, rule), [last], account, classification);
      ForOne(last, account, classification);
      assert matched == before + [matched[n]];
      if matched[n].id == account {
        forall a | a in before ensures a.id != account {
          var i :| 0 <= i < n && before[i] == a;
          assert matched[i].id != matched[n].id;
        }
      }
    }
  }

  lemma {:induction false} FilterDistinct(p: Account -> bool, accounts: seq<Account>)
    requires DistinctAccounts(accounts)
    ensures DistinctAccounts(Filter(p, accounts))
  {
    if accounts == [] {
    } else {
      FilterDistinct(p, accounts[1..]);
      FilterMember(p, accounts[1..]);
      forall a | a in Filter(p, accounts[1..]) ensures a.id != accounts[0].id {
        assert a in accounts[1..];
        var i :| 0 <= i < |accounts[1..]| && accounts[1..][i] == a;
        assert accounts[i + 1] == a;
      }
    }
  }

  /** One write, seen from one account and one classification. */
  lemma UpsertedFor(rows: seq<Assignment>, matched: seq<Account>, classification: int, rule: int, account: int, c: int)
    requires DistinctAccounts(matched)
    ensures For(Upserted(rows, matched, classification, rule), account, c) ==
      if c == classification && exists a :: a in matched && a.id == account
      then [Assignment(account, c, Some(rule), Auto)]
      else For(rows, account, c)
  {
    var keep := (r: Assignment) => !(r.classification == classification && exists a <- matched :: a.id == r.account);
    var kept := Filter(keep, rows);
    var added := Inserted(matched, classification, rule);
    assert Upserted(rows, matched, classification, rule) == kept + added;
    ForAppend(kept, added, account, c);
    if c == classification && exists a :: a in matched && a.id == account {
      FilterMember(keep, rows);
      ForNone(kept, account, c);
      ForInserted(matched, classification, rule, account);
    } else {
      ForAfterDelete(rows, keep, account, c);
      if c == classification {
        ForInserted(matched, classification, rule, account);
      } else {
        ForNone(added, account, c);
      }
    }
  }

  lemma FilteredById(p: Account -> bool, accounts: seq<Account>, a: Account)
    requires DistinctAccounts(accounts) && a in accounts
    ensures p(a) <==> exists x :: x in Filter(p, accounts) && x.id == a.id
  {
    FilterMember(p, accounts);
    if x :| x in Filter(p, accounts) && x.id == a.id {
      SameAccount(accounts, x, a);
    }
    assert p(a) ==> a in Filter(p, accounts);
  }

  /**
   * After any prefix of the rules, each account has exactly one row for a classification when some rule
   * of it matched, carrying the last such rule's id, and otherwise the rows it had before.
   */
  lemma {:induction false} AssignedByLastMatch(e: Engine, rows: seq<Assignment>, rules: seq<Rule>, accounts: seq<Account>,
                                               fails: nat -> bool, a: Account, c: int)
    requires DistinctAccounts(accounts) && a in accounts
    ensures For(RulesApplied(e, rows, rules, accounts, fails), a.id, c) ==
      var last := LastMatch(e, rules, a, c, fails);
      if last.Some? then [Assignment(a.id, c, rules[last.value].id, Auto)] else For(rows, a.id, c)
  {
    if rules == [] {
    } else {
      var n := |rules| - 1;
      var rule := rules[n];
      var before := RulesApplied(e, rows, rules[..n], accounts, fails);
      AssignedByLastMatch(e, rows, rules[..n], accounts, fails, a, c);
      LastMatchMeaning(e, rules[..n], a, c, fails);
      var p := (x: Account) => Matches(e, rule, x);
      var matched := Filter(p, accounts);
      assert matched == Matched(e, rule, accounts);
      FilterDistinct(p, accounts);
      FilteredById(p, accounts, a);
      if rule.id.Some? {
        UpsertedFor(before, matched, rule.classificationId, rule.id.value, a.id, c);
      }
    }
  }

  /** Rows of accounts that are not in the run are neither deleted nor added by any rule. */
  lemma {:induction false} OthersUntouched(e: Engine, rows: seq<Assignment>, rules: seq<Rule>, accounts: seq<Account>,
                                           fails: nat -> bool, outside: Assignment -> bool)
    requires forall r, a :: outside(r) && a in accounts ==> r.account != a.id
    ensures Filter(outside, RulesApplied(e, rows, rules, accounts, fails)) == Filter(outside, rows)
  {
    if rules == [] {
    } else {
      var n := |rules| - 1;
      OthersUntouched(e, rows, rules[..n], accounts, fails, outside);
      var before := RulesApplied(e, rows, rules[..n], accounts, fails);
      var matched := Matched(e, rules[n], accounts);
      FilterMember((a: Account) => Matches(e, rules[n], a), accounts);
      if rules[n].id.Some? {
        OutsideUpserted(before, matched, rules[n].classificationId, rules[n].id.value, outside);
      }
    }
  }

  lemma OutsideUpserted(rows: seq<Assignment>, matched: seq<Account>, classification: int, rule: int, outside: Assignment -> bool)
    requires forall r, a :: outside(r) && a in matched ==> r.account != a.id
    ensures Filter(outside, Upserted(rows, matched, classification, rule)) == Filter(outside, rows)
  {
    var keep := (r: Assignment) => !(r.classification == classification && exists a <- matched :: a.id == r.account);
    var added := Inserted(matched, classification, rule);
    assert Upserted(rows, matched, classification, rule) == Filter(keep, rows) + added;
    FilterAppend(outside, Filter(keep, rows), added);
    FilterNone(outside, added);
    FilterKeeps(outside, keep, rows);
  }

  lemma {:induction false} FilterNone(p: Assignment -> bool, rows: seq<Assignment>)
    requires forall r :: r in rows ==> !p(r)
    ensures Filter(p, rows) == []
  {
    if rows == [] {
    } else {
      FilterNone(p, rows[1..]);
    }
  }

  lemma {:induction false} FilterKeeps(p: Assignment -> bool, keep: Assignment -> bool, rows: seq<Assignment>)
    requires forall r :: r in rows && p(r) ==> keep(r)
    ensures Filter(p, Filter(keep, rows)) == Filter(p, rows)
  {
    if rows == [] {
    } else {
      FilterKeeps(p, keep, rows[1..]);
    }
  }

  // ---- The whole run ----

  datatype Outcome = AlreadyCancelled | NoRules | NoAccounts | CancelledAt(k: nat) | FailedAt(k: nat) | Completed

  /** The rows left after the clean-up: none, or on a scoped run those of accounts outside the scope. */
  function Cleaned(rows: seq<Assignment>, accounts: seq<Account>, scoped: bool): seq<Assignment> {
    if !scoped then [] else Filter((r: Assignment) => !InScope(accounts, r.account), rows)
  }

  predicate InScope(accounts: seq<Account>, account: int) {
    account > 0 && exists a <- accounts :: a.id == account
  }

  /** How many rules a run gets through before it is cancelled or a rule raises. */
  function Progress(e: Engine, rules: seq<Rule>, accounts: seq<Account>, cancelled: nat -> bool, from: nat): (k: nat)
    requires from <= |rules|
    ensures from <= k <= |rules|
    decreases |rules| - from
  {
    if from == |rules| || cancelled(from) || (rules[from].id.Some? && Raises(e, rules[from], accounts)) then from
    else Progress(e, rules, accounts, cancelled, from + 1)
  }

  /** A run stops before the first rule at which it finds itself cancelled or whose evaluation raises. */
  lemma {:induction false} ProgressIsFirstStop(e: Engine, rules: seq<Rule>, accounts: seq<Account>, cancelled: nat -> bool, from: nat)
    requires from <= |rules|
    ensures var k := Progress(e, rules, accounts, cancelled, from);
      && (forall j :: from <= j < k ==> !cancelled(j) && (rules[j].id.None? || !Raises(e, rules[j], accounts)))
      && (k == |rules| || cancelled(k) || (rules[k].id.Some? && Raises(e, rules[k], accounts)))
    decreases |rules| - from
  {
    if from == |rules| || cancelled(from) || (rules[from].id.Some? && Raises(e, rules[from], accounts)) {
    } else {
      ProgressIsFirstStop(e, rules, accounts, cancelled, from + 1);
    }
  }

  /** Accounts by normalised database type; accounts without one are left out. */
  lemma OfTypeAppend(e: Engine, accounts: seq<Account>, a: Account, t: string)
    ensures OfType(e, accounts + [a], t) == OfType(e, accounts, t) + if t != "" && AccountType(e, a) == t then [a] else []
  {
    assert [a][1..] == [];
    FilterAppend((x: Account) => AccountType(e, x) == t, accounts, [a]);
  }

  method BuildAccountsByDbType(e: Engine, accounts: seq<Account>) returns (byType: map<string, seq<Account>>)
    ensures forall d: string :: (if d in byType then byType[d] else []) == OfType(e, accounts, d)
  {
    byType := map[];
    for i := 0 to |accounts|
      invariant forall d: string :: (if d in byType then byType[d] else []) == OfType(e, accounts[..i], d)
    {
      var a := accounts[i];
      var d := AccountType(e, a);
      assert accounts[..i + 1] == accounts[..i] + [a];
      forall t: string ensures OfType(e, accounts[..i + 1], t) == OfType(e, accounts[..i], t) + if t != "" && d == t then [a] else [] {
        OfTypeAppend(e, accounts[..i], a, t);
      }
      if d == "" {
        continue;
      }
      byType := byType[d := (if d in byType then byType[d] else []) + [a]];
    }
    assert accounts[..|accounts|] == accounts;
  }

  datatype EvaluationError = ValidationError

  /** Evaluates an expression on the candidates, stopping at the first one whose facts are missing. */
  method FindMatchedAccounts(e: Engine, expression: string, candidates: seq<Account>)
    returns (r: Result<seq<Account>, EvaluationError>)
    ensures r.Err? <==> exists a :: a in candidates && a.facts.None?
    ensures r.Ok? ==>
      r.value == Filter((a: Account) => a.facts.Some? && (e.matches)(a.facts.value, expression), candidates)
  {
    ghost var p := (a: Account) => a.facts.Some? && (e.matches)(a.facts.value, expression);
    var matched: seq<Account> := [];
    for i := 0 to |candidates|
      invariant matched == Filter(p, candidates[..i])
      invariant forall a :: a in candidates[..i] ==> a.facts.Some?
    {
      var a := candidates[i];
      assert candidates[..i + 1] == candidates[..i] + [a];
      FilterAppend(p, candidates[..i], [a]);
      assert [a][1..] == [];
      if a.facts.None? {
        return Err(ValidationError);
      }
      if (e.matches)(a.facts.value, expression) {
        matched := matched + [a];
      }
    }
    assert candidates[..|candidates|] == candidates;
    r := Ok(matched);
  }

  lemma {:induction false} MatchedOfType(e: Engine, rule: Rule, accounts: seq<Account>)
    requires rule.expression.Some?
    ensures Matched(e, rule, accounts) ==
      Filter((a: Account) => a.facts.Some? && (e.matches)(a.facts.value, rule.expression.value),
             OfType(e, accounts, RuleType(e, rule)))
  {
    if accounts == [] {
    } else {
      MatchedOfType(e, rule, accounts[1..]);
    }
  }

  /** The assignment table. */
  class AssignmentTable {
    var rows: seq<Assignment>

    constructor (rows: seq<Assignment>)
      ensures this.rows == rows
    {
      this.rows := rows;
    }

    method CleanupAllAssignments() returns (deleted: nat)
      modifies this
      ensures rows == [] && deleted == |old(rows)|
    {
      deleted := |rows|;
      rows := [];
    }

    /** Ids that are not positive are ignored. */
    method CleanupAssignmentsForAccounts(accounts: seq<Account>) returns (deleted: int)
      modifies this
      ensures rows == Cleaned(old(rows), accounts, true) && deleted == |old(rows)| - |rows|
      ensures forall r :: r in rows <==> r in old(rows) && !(r.account > 0 && exists a :: a in accounts && a.id == r.account)
    {
      FilterMember((r: Assignment) => !InScope(accounts, r.account), rows);
      var kept := Filter((r: Assignment) => !InScope(accounts, r.account), rows);
      deleted := |rows| - |kept|;
      rows := kept;
    }

    /** Delete, then insert, inside one savepoint; a database error leaves the table as it was and returns 0. */
    method UpsertAssignments(matched: seq<Account>, classification: int, rule: int, fails: bool) returns (count: nat)
      modifies this
      ensures rows == if matched == [] || fails then old(rows) else Upserted(old(rows), matched, classification, rule)
      ensures count == if fails then 0 else |matched|
    {
      if matched == [] {
        return 0;
      }
      var savepoint := rows;
      rows := Filter((r: Assignment) =>
        !(r.classification == classification && exists a <- matched :: a.id == r.account), rows);
      rows := rows + Inserted(matched, classification, rule);
      if fails {
        rows := savepoint;
        return 0;
      }
      return |matched|;
    }

    /** Validates and evaluates one rule and writes its matches. */
    method ProcessRule(e: Engine, rule: Rule, ruleId: int, accounts: seq<Account>, byType: map<string, seq<Account>>, fails: bool)
      returns (r: Result<(nat, nat), EvaluationError>)
      requires rule.id == Some(ruleId)
      requires forall d: string :: (if d in byType then byType[d] else []) == OfType(e, accounts, d)
      modifies this
      ensures r.Err? <==>
        (rule.expression.None? || !(e.valid)(rule.expression.value) ||
         exists a :: a in accounts && a.facts.None? && (e.normalize)(a.dbType) == (e.normalize)(rule.dbType) != "")
      ensures r.Err? ==> rows == old(rows)
      ensures r.Err? <==> Raises(e, rule, accounts)
      ensures r.Ok? ==> rows == RuleApplied(e, old(rows), rule, accounts, fails)
      ensures r.Ok? ==> r.value == (|Matched(e, rule, accounts)|, if fails then 0 else |Matched(e, rule, accounts)|)
    {
      if rule.expression.None? || !(e.valid)(rule.expression.value) {
        return Err(ValidationError);
      }
      var d := RuleType(e, rule);
      FilterMember((a: Account) => AccountType(e, a) == d, accounts);
      var found := FindMatchedAccounts(e, rule.expression.value, if d in byType then byType[d] else []);
      if found.Err? {
        return Err(ValidationError);
      }
      MatchedOfType(e, rule, accounts);
      var added := UpsertAssignments(found.value, rule.classificationId, ruleId, fails);
      return Ok((|found.value|, added));
    }
  }

  /** Matches counted over the rules a run applied; a rule without an id is not counted. */
  function TotalMatches(e: Engine, rules: seq<Rule>, accounts: seq<Account>): nat {
    if rules == [] then 0
    else TotalMatches(e, rules[..|rules| - 1], accounts)
         + if rules[|rules| - 1].id.Some? then |Matched(e, rules[|rules| - 1], accounts)| else 0
  }

  /** The run: nothing happens without rules or accounts, else clean-up and the rule loop. */
  method AutoClassifyAccounts(table: AssignmentTable, e: Engine, rules: seq<Rule>, accounts: seq<Account>, scoped: bool,
                              cancelledBefore: bool, cancelled: nat -> bool, fails: nat -> bool)
    returns (outcome: Outcome, totalMatches: nat, totalAdded: nat)
    modifies table
    ensures cancelledBefore ==> outcome == AlreadyCancelled
    ensures !cancelledBefore && rules == [] ==> outcome == NoRules
    ensures !cancelledBefore && rules != [] && accounts == [] ==> outcome == NoAccounts
    ensures cancelledBefore || rules == [] || accounts == [] ==> table.rows == old(table.rows)
    ensures !cancelledBefore && rules != [] && accounts != [] ==>
      var k := Progress(e, rules, accounts, cancelled, 0);
      && table.rows == RulesApplied(e, Cleaned(old(table.rows), accounts, scoped), rules[..k], accounts, fails)
      && outcome == (if k == |rules| then Completed else if cancelled(k) then CancelledAt(k) else FailedAt(k))
      && totalMatches == TotalMatches(e, rules[..k], accounts)
    ensures totalAdded <= totalMatches
    ensures (forall k :: 0 <= k < |rules| ==> !fails(k)) ==> totalAdded == totalMatches
  {
    totalMatches, totalAdded := 0, 0;
    if cancelledBefore {
      return AlreadyCancelled, 0, 0;
    }
    if rules == [] {
      return NoRules, 0, 0;
    }
    if accounts == [] {
      return NoAccounts, 0, 0;
    }
    if scoped {
      var _ := table.CleanupAssignmentsForAccounts(accounts);
    } else {
      var _ := table.CleanupAllAssignments();
    }
    ghost var cleaned := table.rows;
    var byType := BuildAccountsByDbType(e, accounts);
    for k := 0 to |rules|
      invariant table.rows == RulesApplied(e, cleaned, rules[..k], accounts, fails)
      invariant Progress(e, rules, accounts, cancelled, 0) == Progress(e, rules, accounts, cancelled, k)
      invariant totalMatches == TotalMatches(e, rules[..k], accounts)
      invariant totalAdded <= totalMatches
      invariant (forall j :: 0 <= j < |rules| ==> !fails(j)) ==> totalAdded == totalMatches
    {
      assert rules[..k + 1][..k] == rules[..k];
      if cancelled(k) {
        return CancelledAt(k), totalMatches, totalAdded;
      }
      if rules[k].id.None? {
        continue;
      }
      var r := table.ProcessRule(e, rules[k], rules[k].id.value, accounts, byType, fails(k));
      if r.Err? {
        return FailedAt(k), totalMatches, totalAdded;
      }
      totalMatches := totalMatches + r.value.0;
      totalAdded := totalAdded + r.value.1;
    }
    assert rules[..|rules|] == rules;
    outcome := Completed;
  }

  /** The table once the first k rules of a run have been applied. */
  function RunRows(e: Engine, rows: seq<Assignment>, rules: seq<Rule>, accounts: seq<Account>, scoped: bool, fails: nat -> bool): seq<Assignment> {
    RulesApplied(e, Cleaned(rows, accounts, scoped), rules, accounts, fails)
  }

  /**
   * What a run leaves behind, whether it completed or stopped after a prefix of the rules: an account in
   * scope has exactly one assignment to a classification if some applied rule of it matched and was
   * written, carrying the last such rule's id, and no assignment to it otherwise.
   */
  lemma RunAssigns(e: Engine, rows: seq<Assignment>, rules: seq<Rule>, accounts: seq<Account>, scoped: bool,
                   fails: nat -> bool, a: Account, c: int)
    requires DistinctAccounts(accounts) && a in accounts && (scoped ==> a.id > 0)
    ensures For(RunRows(e, rows, rules, accounts, scoped, fails), a.id, c) ==
      match LastMatch(e, rules, a, c, fails)
      case None => []
      case Some(k) => [Assignment(a.id, c, rules[k].id, Auto)]
  {
    AssignedByLastMatch(e, Cleaned(rows, accounts, scoped), rules, accounts, fails, a, c);
    if scoped {
      FilterMember((r: Assignment) => !InScope(accounts, r.account), rows);
    }
    ForNone(Cleaned(rows, accounts, scoped), a.id, c);
  }

  /** Without write errors: assigned if and only if some rule of the classification and of the account's type matches its facts. */
  lemma RunAssignsIffMatched(e: Engine, rows: seq<Assignment>, rules: seq<Rule>, accounts: seq<Account>, scoped: bool,
                             fails: nat -> bool, a: Account, c: int)
    requires DistinctAccounts(accounts) && a in accounts && (scoped ==> a.id > 0)
    requires forall k :: 0 <= k < |rules| ==> !fails(k)
    ensures |For(RunRows(e, rows, rules, accounts, scoped, fails), a.id, c)| <= 1
    ensures |For(RunRows(e, rows, rules, accounts, scoped, fails), a.id, c)| == 1 <==>
      exists k ::
        && 0 <= k < |rules| && rules[k].id.Some? && rules[k].classificationId == c
        && (e.normalize)(rules[k].dbType) == (e.normalize)(a.dbType) != ""
        && rules[k].expression.Some? && a.facts.Some? && (e.matches)(a.facts.value, rules[k].expression.value)
  {
    assert forall k :: 0 <= k < |rules| ==> (Decides(e, rules[k], a, c) <==>
      (rules[k].id.Some? && rules[k].classificationId == c && (e.normalize)(rules[k].dbType) == (e.normalize)(a.dbType) != ""
       && rules[k].expression.Some? && a.facts.Some? && (e.matches)(a.facts.value, rules[k].expression.value)));
    RunAssigns(e, rows, rules, accounts, scoped, fails, a, c);
    LastMatchMeaning(e, rules, a, c, fails);
  }

  /** A scoped run leaves every assignment of an account that is not among its accounts exactly as it was. */
  lemma ScopedRunKeepsOthers(e: Engine, rows: seq<Assignment>, rules: seq<Rule>, accounts: seq<Account>, fails: nat -> bool)
    ensures var outside := (r: Assignment) => forall a <- accounts :: a.id != r.account;
            Filter(outside, RunRows(e, rows, rules, accounts, true, fails)) == Filter(outside, rows)
  {
    var outside := (r: Assignment) => forall a <- accounts :: a.id != r.account;
    OthersUntouched(e, Cleaned(rows, accounts, true), rules, accounts, fails, outside);
    FilterKeeps(outside, (r: Assignment) => !InScope(accounts, r.account), rows);
  }

  // ---- What a run counts ----

  /** Each rule index with each account that the rule matches. */
  function MatchedPairs(e: Engine, rules: seq<Rule>, accounts: seq<Account>): set<(nat, Account)> {
    set k: nat, a | k < |rules| && a in accounts && rules[k].id.Some?
      && (e.normalize)(rules[k].dbType) == (e.normalize)(a.dbType) != ""
      && rules[k].expression.Some? && a.facts.Some? && (e.matches)(a.facts.value, rules[k].expression.value) :: (k, a)
  }

  lemma {:induction false} FilterKeepsDistinct(p: Account -> bool, accounts: seq<Account>)
    requires DistinctAccounts(accounts)
    ensures |Filter(p, accounts)| == |set a | a in accounts && p(a)|
  {
    FilterDistinct(p, accounts);
    FilterMember(p, accounts);
    DistinctSize(Filter(p, accounts), set a | a in accounts && p(a));
  }

  lemma PairsStep(e: Engine, rules: seq<Rule>, accounts: seq<Account>, n: nat, here: set<Account>, added: set<(nat, Account)>)
    requires |rules| == n + 1
    requires here == if rules[n].id.Some? then set a | a in accounts && Matches(e, rules[n], a) else {}
    requires added == set a | a in here :: (n, a)
    ensures MatchedPairs(e, rules, accounts) == MatchedPairs(e, rules[..n], accounts) + added
    ensures MatchedPairs(e, rules[..n], accounts) !! added
  {
    forall k: nat, a: Account
      ensures (k, a) in MatchedPairs(e, rules, accounts) <==> (k, a) in MatchedPairs(e, rules[..n], accounts) || (k, a) in added
    {
      if k < n {
        assert rules[..n][k] == rules[k];
      }
    }
  }

  /** The total is the number of pairs of a rule with an account it matches. */
  lemma {:induction false} TotalMatchesMeaning(e: Engine, rules: seq<Rule>, accounts: seq<Account>)
    requires DistinctAccounts(accounts)
    ensures TotalMatches(e, rules, accounts) == |MatchedPairs(e, rules, accounts)|
  {
    if rules == [] {
      assert MatchedPairs(e, rules, accounts) == {};
    } else {
      var n := |rules| - 1;
      TotalMatchesMeaning(e, rules[..n], accounts);
      var matching := set a | a in accounts && Matches(e, rules[n], a);
      var here := if rules[n].id.Some? then matching else {};
      var added := set a | a in here :: (n as nat, a);
      PairSize(here, n, added);
      PairsStep(e, rules, accounts, n, here, added);
      MatchedSize(e, rules[n], accounts);
    }
  }

  lemma MatchedSize(e: Engine, rule: Rule, accounts: seq<Account>)
    requires DistinctAccounts(accounts)
    ensures |Matched(e, rule, accounts)| == |set a | a in accounts && Matches(e, rule, a)|
  {
    var p := (a: Account) => Matches(e, rule, a);
    FilterKeepsDistinct(p, accounts);
    assert (set a | a in accounts && Matches(e, rule, a)) == set a | a in accounts && p(a);
  }

  lemma {:induction false} PairSize(s: set<Account>, n: nat, pairs: set<(nat, Account)>)
    requires pairs == set a | a in s :: (n, a)
    ensures |pairs| == |s|
  {
    if s == {} {
    } else {
      var x :| x in s;
      assert pairs - {(n, x)} == set a | a in s - {x} :: (n, a);
      PairSize(s - {x}, n, pairs - {(n, x)});
    }
  }
}
