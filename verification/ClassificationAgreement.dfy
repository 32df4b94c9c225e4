/** What the daily rows mean, and that they count what the automatic run assigns. */
module ClassificationAgreement {
  import opened Common
  import opened Ordering
  import opened ClassificationModel
  import opened DailyClassification
  import opened DailyRun
  import Auto = AutoClassification

  // ---- Upsert keys ----

  /** Each owner reports under one instance. */
  ghost predicate OwnerDeterminesInstance(scopes: set<OwnerScope>) {
    forall x, y :: x in scopes && y in scopes && x.ownerType == y.ownerType && x.ownerId == y.ownerId ==> x == y
  }

  /** The unique key of the rule statistics, for one day. */
  predicate SameRuleKey(a: RuleRecord, b: RuleRecord) {
    a.ruleId == b.ruleId && a.dbType == b.dbType && a.scope.ownerType == b.scope.ownerType && a.scope.ownerId == b.scope.ownerId
  }

  /** The unique key of the classification statistics, for one day. */
  predicate SameClassKey(a: ClassRecord, b: ClassRecord) {
    a.classificationId == b.classificationId && a.dbType == b.dbType
    && a.scope.ownerType == b.scope.ownerType && a.scope.ownerId == b.scope.ownerId
  }

  ghost predicate RuleKeysDistinct(rows: seq<RuleRecord>) {
    forall i, j :: 0 <= i < j < |rows| ==> !SameRuleKey(rows[i], rows[j])
  }

  ghost predicate ClassKeysDistinct(rows: seq<ClassRecord>) {
    forall i, j :: 0 <= i < j < |rows| ==> !SameClassKey(rows[i], rows[j])
  }

  ghost predicate DistinctRuleIds(rules: seq<Rule>) {
    forall i, j :: 0 <= i < j < |rules| && rules[i].id.Some? ==> rules[i].id != rules[j].id
  }

  /** Rows listed over distinct scopes fall on distinct keys exactly when each owner reports under one instance. */
  lemma ListedKeysIff(e: Engine, rule: Rule, accounts: seq<Account>, scopes: set<OwnerScope>, xs: seq<OwnerScope>)
    requires rule.id.Some? && SortedListing(scopes, xs)
    ensures RuleKeysDistinct(RecordsOf(e, rule, accounts, xs)) <==> OwnerDeterminesInstance(scopes)
  {
    var rows := RecordsOf(e, rule, accounts, xs);
    ListingMembers(ScopeLe, scopes, xs);
    if RuleKeysDistinct(rows) {
      forall x, y | x in scopes && y in scopes && x.ownerType == y.ownerType && x.ownerId == y.ownerId ensures x == y {
        assert x in xs && y in xs;
        var i :| 0 <= i < |xs| && xs[i] == x;
        var j :| 0 <= j < |xs| && xs[j] == y;
        assert rows[i].scope == x && rows[j].scope == y;
      }
    }
    if OwnerDeterminesInstance(scopes) {
      forall i, j | 0 <= i < j < |rows| ensures !SameRuleKey(rows[i], rows[j]) {
        assert xs[i] in xs && xs[j] in xs && xs[i] != xs[j];
      }
    }
  }

  /** A rule's rows fall on distinct keys exactly when each owner of its type reports under one instance. */
  lemma RuleRowKeysIff(e: Engine, rule: Rule, accounts: seq<Account>)
    requires rule.id.Some?
    ensures RuleKeysDistinct(RuleRows(e, rule, accounts)) <==> OwnerDeterminesInstance(ScopesOf(e, accounts, RuleType(e, rule)))
  {
    var scopes := ScopesOf(e, accounts, RuleType(e, rule));
    ListedKeysIff(e, rule, accounts, scopes, SortedScopes(scopes));
  }

  predicate OfSomeRule(rules: seq<Rule>, r: RuleRecord) {
    exists i :: 0 <= i < |rules| && rules[i].id == Some(r.ruleId)
  }

  lemma OfEarlierRule(rules: seq<Rule>, r: RuleRecord)
    requires rules != [] && OfSomeRule(rules[..|rules| - 1], r)
    ensures OfSomeRule(rules, r)
  {
    var n := |rules| - 1;
    var i :| 0 <= i < n && rules[..n][i].id == Some(r.ruleId);
    assert rules[i].id == Some(r.ruleId);
  }

  lemma {:induction false} RowsOfRules(e: Engine, rules: seq<Rule>, accounts: seq<Account>)
    ensures forall r :: r in AllRuleRows(e, rules, accounts) ==> OfSomeRule(rules, r)
  {
    if rules == [] {
    } else {
      var n := |rules| - 1;
      RowsOfRules(e, rules[..n], accounts);
      forall r | r in AllRuleRows(e, rules, accounts) ensures OfSomeRule(rules, r) {
        if r in AllRuleRows(e, rules[..n], accounts) {
          OfEarlierRule(rules, r);
        } else {
          assert rules[n].id == Some(r.ruleId);
        }
      }
    }
  }

  ghost predicate AllOwnersDetermine(e: Engine, rules: seq<Rule>, accounts: seq<Account>) {
    forall k :: 0 <= k < |rules| && rules[k].id.Some? ==>
      OwnerDeterminesInstance(ScopesOf(e, accounts, RuleType(e, rules[k])))
  }

  lemma AllOwnersDetermineStep(e: Engine, rules: seq<Rule>, accounts: seq<Account>)
    requires rules != []
    ensures var n := |rules| - 1;
      AllOwnersDetermine(e, rules, accounts) <==>
        (AllOwnersDetermine(e, rules[..n], accounts) &&
         (rules[n].id.Some? ==> OwnerDeterminesInstance(ScopesOf(e, accounts, RuleType(e, rules[n])))))
  {
  }

  /** Over a whole run the rule rows can be upserted without hitting a key twice exactly under that condition. */
  lemma {:induction false} AllRuleRowKeysIff(e: Engine, rules: seq<Rule>, accounts: seq<Account>)
    requires DistinctRuleIds(rules)
    ensures RuleKeysDistinct(AllRuleRows(e, rules, accounts)) <==> AllOwnersDetermine(e, rules, accounts)
  {
    if rules == [] {
    } else {
      var n := |rules| - 1;
      AllRuleRowKeysIff(e, rules[..n], accounts);
      AllOwnersDetermineStep(e, rules, accounts);
      if rules[n].id.Some? {
        var before, here := AllRuleRows(e, rules[..n], accounts), RuleRows(e, rules[n], accounts);
        assert AllRuleRows(e, rules, accounts) == before + here;
        RuleRowKeysIff(e, rules[n], accounts);
        IdsApart(e, rules, accounts);
        KeysOfConcat(before, here);
      } else {
        assert AllRuleRows(e, rules, accounts) == AllRuleRows(e, rules[..n], accounts);
      }
    }
  }

  ghost predicate Apart(xs: seq<RuleRecord>, ys: seq<RuleRecord>) {
    forall a, b :: a in xs && b in ys ==> a.ruleId != b.ruleId
  }

  lemma IdsApart(e: Engine, rules: seq<Rule>, accounts: seq<Account>)
    requires DistinctRuleIds(rules) && rules != [] && rules[|rules| - 1].id.Some?
    ensures Apart(AllRuleRows(e, rules[..|rules| - 1], accounts), RuleRows(e, rules[|rules| - 1], accounts))
  {
    var n := |rules| - 1;
    var before := AllRuleRows(e, rules[..n], accounts);
    var here := RuleRows(e, rules[n], accounts);
    RowsOfRules(e, rules[..n], accounts);
    forall a, b | a in before && b in here ensures a.ruleId != b.ruleId {
      var i :| 0 <= i < n && rules[..n][i].id == Some(a.ruleId);
      assert rules[i].id != rules[n].id;
    }
  }

  lemma KeysOfConcat(xs: seq<RuleRecord>, ys: seq<RuleRecord>)
    requires Apart(xs, ys)
    ensures RuleKeysDistinct(xs + ys) <==> RuleKeysDistinct(xs) && RuleKeysDistinct(ys)
  {
    var all := xs + ys;
    if RuleKeysDistinct(all) {
      forall i, j | 0 <= i < j < |xs| ensures !SameRuleKey(xs[i], xs[j]) {
        assert !SameRuleKey(all[i], all[j]);
      }
      forall i, j | 0 <= i < j < |ys| ensures !SameRuleKey(ys[i], ys[j]) {
        assert !SameRuleKey(all[|xs| + i], all[|xs| + j]);
      }
    }
    if RuleKeysDistinct(xs) && RuleKeysDistinct(ys) {
      forall i, j | 0 <= i < j < |all| ensures !SameRuleKey(all[i], all[j]) {
        if i < |xs| && |xs| <= j {
          assert all[i] in xs && all[j] in ys;
        }
      }
    }
  }

  ghost predicate AllTypesDetermine(e: Engine, rules: seq<Rule>, accounts: seq<Account>) {
    forall p :: p in PairsOf(e, rules) ==> OwnerDeterminesInstance(ScopesOf(e, accounts, p.1))
  }

  /** The classification rows likewise: distinct keys exactly when owners of every type with a rule report once. */
  lemma ClassRowKeysIff(e: Engine, rules: seq<Rule>, accounts: seq<Account>, rows: seq<ClassRecord>)
    requires ClassRows(e, rules, accounts, rows)
    ensures ClassKeysDistinct(rows) <==> AllTypesDetermine(e, rules, accounts)
  {
  }

  // ---- Counts ----

  function SumCounts(rows: seq<RuleRecord>): nat {
    if rows == [] then 0 else SumCounts(rows[..|rows| - 1]) + rows[|rows| - 1].count
  }

  function OwnersOf(xs: seq<OwnerScope>): set<(string, int)> {
    set x | x in xs :: (x.ownerType, x.ownerId)
  }

  lemma {:induction false} SumOverOwners(e: Engine, rule: Rule, accounts: seq<Account>, xs: seq<OwnerScope>)
    requires rule.id.Some? && DistinctAccounts(accounts)
    requires forall i, j :: 0 <= i < j < |xs| ==> xs[i].ownerType != xs[j].ownerType || xs[i].ownerId != xs[j].ownerId
    ensures SumCounts(RecordsOf(e, rule, accounts, xs)) == |MatchesOfOwners(e, rule, accounts, OwnersOf(xs))|
  {
    if xs == [] {
      assert MatchesOfOwners(e, rule, accounts, {}) == {};
    } else {
      var n := |xs| - 1;
      var x := xs[n];
      SumOverOwners(e, rule, accounts, xs[..n]);
      assert RecordsOf(e, rule, accounts, xs)[..n] == RecordsOf(e, rule, accounts, xs[..n]);
      assert xs == xs[..n] + [x];
      assert OwnersOf(xs) == OwnersOf(xs[..n]) + {(x.ownerType, x.ownerId)};
      assert (x.ownerType, x.ownerId) !in OwnersOf(xs[..n]);
      OwnersPartition(e, rule, accounts, OwnersOf(xs[..n]), x.ownerType, x.ownerId);
    }
  }

  /** When owners report once, a rule's counts over its rows add up to the accounts it matches: none is lost or doubled. */
  lemma RuleCountsSum(e: Engine, rule: Rule, accounts: seq<Account>)
    requires rule.id.Some? && DistinctAccounts(accounts)
    requires OwnerDeterminesInstance(ScopesOf(e, accounts, RuleType(e, rule)))
    ensures SumCounts(RuleRows(e, rule, accounts)) == |AllMatches(e, rule, accounts)|
  {
    var scopes := ScopesOf(e, accounts, RuleType(e, rule));
    var xs := SortedScopes(scopes);
    ListingMembers(ScopeLe, scopes, xs);
    forall i, j | 0 <= i < j < |xs| ensures xs[i].ownerType != xs[j].ownerType || xs[i].ownerId != xs[j].ownerId {
      assert xs[i] in xs && xs[j] in xs;
    }
    SumOverOwners(e, rule, accounts, xs);
    forall a | a in accounts && Counts(e, rule, a)
      ensures (ResolveScope(e, a).value.ownerType, ResolveScope(e, a).value.ownerId) in OwnersOf(xs)
    {
      assert ResolveScope(e, a).value in xs;
    }
    assert MatchesOfOwners(e, rule, accounts, OwnersOf(xs)) == AllMatches(e, rule, accounts);
  }

  /** The rules' counts for an owner, added up over the rules of a classification. */
  function SumOfRules(e: Engine, rules: seq<Rule>, accounts: seq<Account>, key: ClassKey): nat {
    if rules == [] then 0
    else
      var n := |rules| - 1;
      SumOfRules(e, rules[..n], accounts, key) +
      if Contributes(e, rules[n], key) then |RuleMatches(e, rules[n], accounts, key.ownerType, key.ownerId)| else 0
  }

  lemma UnionSize(a: set<int>, b: set<int>)
    ensures |a + b| <= |a| + |b|
  {
  }

  /** The distinct count of a classification row lies between each of its rules' counts and their sum. */
  lemma {:induction false} DistinctCountBounds(e: Engine, rules: seq<Rule>, accounts: seq<Account>, key: ClassKey)
    ensures |ClassMatches(e, rules, accounts, key)| <= SumOfRules(e, rules, accounts, key)
    ensures forall rule :: rule in rules && Contributes(e, rule, key) ==>
      |RuleMatches(e, rule, accounts, key.ownerType, key.ownerId)| <= |ClassMatches(e, rules, accounts, key)|
  {
    if rules == [] {
      assert ClassMatches(e, rules, accounts, key) == {};
    } else {
      var n := |rules| - 1;
      DistinctCountBounds(e, rules[..n], accounts, key);
      assert rules == rules[..n] + [rules[n]];
      ClassMatchesStep(e, rules[..n], rules[n], accounts, key);
      UnionSize(ClassMatches(e, rules[..n], accounts, key),
                if rules[n].id.Some? then Added(e, rules[n], accounts, key) else {});
    }
    forall rule | rule in rules && Contributes(e, rule, key) ensures
      |RuleMatches(e, rule, accounts, key.ownerType, key.ownerId)| <= |ClassMatches(e, rules, accounts, key)|
    {
      SubsetSize(RuleMatches(e, rule, accounts, key.ownerType, key.ownerId), ClassMatches(e, rules, accounts, key));
    }
  }

  // ---- Agreement with the automatic run ----

  /** The accounts of an owner and type that the table assigns to the classification. */
  function AssignedAccounts(e: Engine, rows: seq<Auto.Assignment>, accounts: seq<Account>, key: ClassKey): set<int> {
    set a | a in accounts && Indexed(e, a, key.dbType) && OwnedBy(e, a, key.ownerType, key.ownerId)
            && Auto.For(rows, a.id, key.classificationId) != [] :: a.id
  }

  /** Writing the database type into an account's facts does not change a rule's verdict. */
  ghost predicate TypeInsensitive(e: Engine, rules: seq<Rule>, accounts: seq<Account>) {
    forall rule, a |
      && rule in rules && a in accounts && rule.expression.Some? && a.facts.Some?
      && (e.normalize)(a.dbType) == (e.normalize)(rule.dbType) ::
      ((e.matches)(a.facts.value["db_type" := (e.normalize)(a.dbType)], rule.expression.value) <==>
       (e.matches)(a.facts.value, rule.expression.value))
  }

  /** The daily predicate and the automatic one pick the same accounts out of those with an owner. */
  lemma SameVerdict(e: Engine, rules: seq<Rule>, accounts: seq<Account>, rule: Rule, a: Account, key: ClassKey)
    requires TypeInsensitive(e, rules, accounts) && rule in rules && a in accounts
    requires a.facts.Some? && a.id > 0 && Indexed(e, a, key.dbType)
    ensures Contributes(e, rule, key) && Counts(e, rule, a) <==> Auto.Decides(e, rule, a, key.classificationId)
  {
  }

  /**
   * Auto and daily agree: after a full automatic run in which every write succeeded, the accounts the
   * daily run counts for a classification, database type and owner are exactly those of that owner and
   * type that the run assigned to the classification.
   */
  lemma DailyCountsAutoAssignments(e: Engine, rows: seq<Auto.Assignment>, rules: seq<Rule>, accounts: seq<Account>,
                                   fails: nat -> bool, key: ClassKey)
    requires DistinctAccounts(accounts) && forall a :: a in accounts ==> a.id > 0 && a.facts.Some?
    requires forall k :: 0 <= k < |rules| ==> !fails(k)
    requires TypeInsensitive(e, rules, accounts)
    ensures ClassMatches(e, rules, accounts, key) ==
      AssignedAccounts(e, Auto.RunRows(e, rows, rules, accounts, false, fails), accounts, key)
  {
    var final := Auto.RunRows(e, rows, rules, accounts, false, fails);
    forall a | a in accounts && Indexed(e, a, key.dbType) && OwnedBy(e, a, key.ownerType, key.ownerId)
      ensures a.id in ClassMatches(e, rules, accounts, key) <==> Auto.For(final, a.id, key.classificationId) != []
    {
      Auto.RunAssignsIffMatched(e, rows, rules, accounts, false, fails, a, key.classificationId);
      if k :| 0 <= k < |rules| && Auto.Decides(e, rules[k], a, key.classificationId) {
        SameVerdict(e, rules, accounts, rules[k], a, key);
        assert rules[k] in rules;
      }
      if a.id in ClassMatches(e, rules, accounts, key) {
        var rule, b :| rule in rules && b in accounts && Contributes(e, rule, key) && Counts(e, rule, b)
          && OwnedBy(e, b, key.ownerType, key.ownerId) && b.id == a.id;
        SameAccount(accounts, a, b);
        SameVerdict(e, rules, accounts, rule, a, key);
        var k :| 0 <= k < |rules| && rules[k] == rule;
        assert Auto.Decides(e, rules[k], a, key.classificationId);
      }
    }
  }

  /** So each classification row's distinct count is the number of accounts assigned. */
  lemma RowCountsAssignments(e: Engine, assignments: seq<Auto.Assignment>, rules: seq<Rule>, accounts: seq<Account>,
                             fails: nat -> bool, rows: seq<ClassRecord>, r: ClassRecord)
    requires DistinctAccounts(accounts) && forall a :: a in accounts ==> a.id > 0 && a.facts.Some?
    requires forall k :: 0 <= k < |rules| ==> !fails(k)
    requires TypeInsensitive(e, rules, accounts)
    requires ClassRows(e, rules, accounts, rows) && r in rows
    ensures r.count ==
      |AssignedAccounts(e, Auto.RunRows(e, assignments, rules, accounts, false, fails), accounts, KeyOf(r))|
  {
    DailyCountsAutoAssignments(e, assignments, rules, accounts, fails, KeyOf(r));
  }
}
