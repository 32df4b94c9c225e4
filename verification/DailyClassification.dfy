/** The daily run: index the accounts by type and owner, evaluate each rule, and count matches per owner scope. */
module DailyClassification {
  import opened Common
  import opened ClassificationModel
  import opened Ordering

  /** An owner and the instance its accounts are reported under. */
  datatype OwnerScope = OwnerScope(ownerType: string, ownerId: int, instanceId: int)

  function ResolveScope(e: Engine, a: Account): Option<OwnerScope> {
    var given := if a.ownerType == "" then "instance" else a.ownerType;
    var ownerType := if (e.normalize)(given) == "" then "instance" else (e.normalize)(given);
    var ownerId := if a.ownerId.Some? && a.ownerId.value != 0 then a.ownerId.value else a.instanceId;
    if a.instanceId <= 0 || ownerId <= 0 then None else Some(OwnerScope(ownerType, ownerId, a.instanceId))
  }

  /**
   * An account has an owner when its instance id and owner id are positive; an absent or zero owner id is
   * the instance's, and an empty owner type is "instance".
   */
  lemma ScopeResolution(e: Engine, a: Account)
    ensures ResolveScope(e, a).Some? <==>
      a.instanceId > 0 && (a.ownerId == None || a.ownerId.value >= 0)
    ensures ResolveScope(e, a).Some? ==>
      var s := ResolveScope(e, a).value;
      && s.instanceId == a.instanceId
      && s.ownerId == (if a.ownerId in {None, Some(0)} then a.instanceId else a.ownerId.value)
      && (a.ownerType != "" && (e.normalize)(a.ownerType) != "" ==> s.ownerType == (e.normalize)(a.ownerType))
      && (a.ownerType != "" && (e.normalize)(a.ownerType) == "" ==> s.ownerType == "instance")
      && (a.ownerType == "" && (e.normalize)("instance") in {"", "instance"} ==> s.ownerType == "instance")
  {
  }

  /** Accounts the run indexes: they have a database type and an owner. */
  predicate Indexed(e: Engine, a: Account, dbType: string) {
    dbType != "" && AccountType(e, a) == dbType && ResolveScope(e, a).Some?
  }

  function ScopesOf(e: Engine, accounts: seq<Account>, dbType: string): set<OwnerScope> {
    set a | a in accounts && Indexed(e, a, dbType) :: ResolveScope(e, a).value
  }

  /** The facts a rule sees: absent facts are empty, and the database type is written over them. */
  function MergedFacts(a: Account, dbType: string): Facts {
    (if a.facts.Some? then a.facts.value else map[])["db_type" := dbType]
  }

  /** A rule sees each present fact unchanged, except that db_type is the type; absent facts give only db_type. */
  lemma FactsSeen(a: Account, dbType: string)
    ensures var seen := MergedFacts(a, dbType);
      && Get(seen, "db_type") == Some(dbType)
      && (a.facts.Some? ==> forall k: string :: k != "db_type" ==> Get(seen, k) == Get(a.facts.value, k))
      && (a.facts.None? ==> seen.Keys == {"db_type"})
  {
  }

  /**
   * A rule counts an account that has a positive id, an owner and the rule's database type, when the
   * expression holds of the account's facts with the type written over them.
   */
  lemma CountedIff(e: Engine, rule: Rule, a: Account)
    requires a.facts.Some? && rule.expression.Some?
    ensures Counts(e, rule, a) <==>
      && a.id > 0 && a.instanceId > 0 && (a.ownerId.None? || a.ownerId.value >= 0)
      && (e.normalize)(a.dbType) == (e.normalize)(rule.dbType) != ""
      && (e.matches)(a.facts.value["db_type" := (e.normalize)(a.dbType)], rule.expression.value)
  {
  }

  predicate Counts(e: Engine, rule: Rule, a: Account) {
    && rule.expression.Some? && a.id > 0 && Indexed(e, a, RuleType(e, rule))
    && (e.matches)(MergedFacts(a, RuleType(e, rule)), rule.expression.value)
  }

  predicate OwnedBy(e: Engine, a: Account, ownerType: string, ownerId: int) {
    ResolveScope(e, a).Some? && ResolveScope(e, a).value.ownerType == ownerType && ResolveScope(e, a).value.ownerId == ownerId
  }

  /** The accounts of an owner that a rule matches. */
  function RuleMatches(e: Engine, rule: Rule, accounts: seq<Account>, ownerType: string, ownerId: int): set<int> {
    set a | a in accounts && Counts(e, rule, a) && OwnedBy(e, a, ownerType, ownerId) :: a.id
  }

  /** The accounts of an owner and database type that some rule of the classification matches. */
  function ClassMatches(e: Engine, rules: seq<Rule>, accounts: seq<Account>, key: ClassKey): set<int> {
    set rule, a | rule in rules && a in accounts && Contributes(e, rule, key) && Counts(e, rule, a)
                  && OwnedBy(e, a, key.ownerType, key.ownerId) :: a.id
  }

  /** The key of the accumulator shared by all rules. */
  datatype ClassKey = ClassKey(classificationId: int, dbType: string, ownerType: string, ownerId: int)

  predicate Contributes(e: Engine, rule: Rule, key: ClassKey) {
    rule.id.Some? && rule.classificationId == key.classificationId && RuleType(e, rule) == key.dbType
  }

  datatype RuleRecord = RuleRecord(ruleId: int, classificationId: int, dbType: string, scope: OwnerScope, count: nat)

  datatype ClassRecord = ClassRecord(classificationId: int, dbType: string, scope: OwnerScope, count: nat)

  function Values<K, V>(m: map<K, set<V>>, k: K): set<V> {
    if k in m then m[k] else {}
  }

  // ---- Building the indexes ----

  function Candidates(e: Engine, accounts: seq<Account>, dbType: string): seq<Account> {
    Filter((a: Account) => Indexed(e, a, dbType), accounts)
  }

  ghost predicate TypeIndex(e: Engine, accounts: seq<Account>, byType: map<string, seq<Account>>) {
    forall d: string :: (if d in byType then byType[d] else []) == Candidates(e, accounts, d)
  }

  ghost predicate ScopeIndex(e: Engine, accounts: seq<Account>, scopes: map<string, set<OwnerScope>>) {
    forall d: string :: Values(scopes, d) == ScopesOf(e, accounts, d)
  }

  lemma TypeIndexStep(e: Engine, accounts: seq<Account>, a: Account, byType: map<string, seq<Account>>)
    requires TypeIndex(e, accounts, byType)
    ensures var d := AccountType(e, a);
      TypeIndex(e, accounts + [a],
        if Indexed(e, a, d) then byType[d := (if d in byType then byType[d] else []) + [a]] else byType)
  {
    forall t: string ensures Candidates(e, accounts + [a], t) ==
      (Candidates(e, accounts, t) + if Indexed(e, a, t) then [a] else [])
    {
      FilterAppend((x: Account) => Indexed(e, x, t), accounts, [a]);
      var rest: seq<Account> := [a][1..];
      assert rest == [];
    }
  }

  lemma ScopesStep(e: Engine, accounts: seq<Account>, a: Account, d: string)
    ensures ScopesOf(e, accounts + [a], d) ==
            ScopesOf(e, accounts, d) + if Indexed(e, a, d) then {ResolveScope(e, a).value} else {}
  {
  }

  lemma ScopeIndexStep(e: Engine, accounts: seq<Account>, a: Account, scopes: map<string, set<OwnerScope>>)
    requires ScopeIndex(e, accounts, scopes)
    ensures var d := AccountType(e, a);
      ScopeIndex(e, accounts + [a],
        if Indexed(e, a, d) then scopes[d := Values(scopes, d) + {ResolveScope(e, a).value}] else scopes)
  {
    forall t: string ensures ScopesOf(e, accounts + [a], t) ==
      (ScopesOf(e, accounts, t) + if Indexed(e, a, t) then {ResolveScope(e, a).value} else {})
    {
      ScopesStep(e, accounts, a, t);
    }
  }

  method BuildAccountIndexes(e: Engine, accounts: seq<Account>)
    returns (byType: map<string, seq<Account>>, scopes: map<string, set<OwnerScope>>)
    ensures TypeIndex(e, accounts, byType) && ScopeIndex(e, accounts, scopes)
  {
    byType, scopes := map[], map[];
    for i := 0 to |accounts|
      invariant TypeIndex(e, accounts[..i], byType) && ScopeIndex(e, accounts[..i], scopes)
    {
      var a := accounts[i];
      assert accounts[..i + 1] == accounts[..i] + [a];
      TypeIndexStep(e, accounts[..i], a, byType);
      ScopeIndexStep(e, accounts[..i], a, scopes);
      var d := AccountType(e, a);
      var scope := ResolveScope(e, a);
      if d == "" || scope.None? {
        continue;
      }
      byType := byType[d := (if d in byType then byType[d] else []) + [a]];
      scopes := scopes[d := Values(scopes, d) + {scope.value}];
    }
    assert accounts[..|accounts|] == accounts;
  }

  /** The database types for which a classification has rules. */
  function TypesOf(e: Engine, rules: seq<Rule>, c: int): set<string> {
    set rule | rule in rules && rule.classificationId == c && RuleType(e, rule) != "" :: RuleType(e, rule)
  }

  ghost predicate ClassIndex(e: Engine, rules: seq<Rule>, types: map<int, set<string>>) {
    forall c: int :: Values(types, c) == TypesOf(e, rules, c)
  }

  lemma ClassIndexStep(e: Engine, rules: seq<Rule>, rule: Rule, types: map<int, set<string>>)
    requires ClassIndex(e, rules, types)
    ensures var d, c := RuleType(e, rule), rule.classificationId;
      ClassIndex(e, rules + [rule], if d != "" then types[c := Values(types, c) + {d}] else types)
  {
    forall c: int ensures TypesOf(e, rules + [rule], c) ==
      (TypesOf(e, rules, c) + if rule.classificationId == c && RuleType(e, rule) != "" then {RuleType(e, rule)} else {})
    {
      TypesStep(e, rules, rule, c);
    }
  }

  lemma TypesStep(e: Engine, rules: seq<Rule>, rule: Rule, c: int)
    ensures TypesOf(e, rules + [rule], c) ==
            TypesOf(e, rules, c) + if rule.classificationId == c && RuleType(e, rule) != "" then {RuleType(e, rule)} else {}
  {
  }

  /** The order in which a dictionary filled from the rules meets the classifications. */
  function ClassOrder(e: Engine, rules: seq<Rule>): seq<int> {
    if rules == [] then []
    else
      var before := ClassOrder(e, rules[..|rules| - 1]);
      var rule := rules[|rules| - 1];
      if RuleType(e, rule) == "" || rule.classificationId in before then before else before + [rule.classificationId]
  }

  lemma {:induction false} ClassOrderMembers(e: Engine, rules: seq<Rule>)
    ensures Distinct(ClassOrder(e, rules))
    ensures forall c :: c in ClassOrder(e, rules) <==> exists rule :: rule in rules && rule.classificationId == c && RuleType(e, rule) != ""
  {
    if rules == [] {
    } else {
      var n := |rules| - 1;
      ClassOrderMembers(e, rules[..n]);
      assert rules == rules[..n] + [rules[n]];
    }
  }

  /** Some rule of c that has a type comes before every such rule of d. */
  ghost predicate MetBefore(e: Engine, rules: seq<Rule>, c: int, d: int) {
    exists k ::
      && 0 <= k < |rules| && rules[k].classificationId == c && RuleType(e, rules[k]) != ""
      && forall m :: 0 <= m <= k && rules[m].classificationId == d ==> RuleType(e, rules[m]) == ""
  }

  ghost predicate MetInOrder(e: Engine, rules: seq<Rule>, order: seq<int>) {
    forall i, j :: 0 <= i < j < |order| ==> MetBefore(e, rules, order[i], order[j])
  }

  lemma MetBeforeExtends(e: Engine, rules: seq<Rule>, c: int, d: int)
    requires rules != [] && MetBefore(e, rules[..|rules| - 1], c, d)
    ensures MetBefore(e, rules, c, d)
  {
    var before := rules[..|rules| - 1];
    var k :| 0 <= k < |before| && before[k].classificationId == c && RuleType(e, before[k]) != ""
      && forall m :: 0 <= m <= k && before[m].classificationId == d ==> RuleType(e, before[m]) == "";
    assert rules[k].classificationId == c && RuleType(e, rules[k]) != "";
    forall m | 0 <= m <= k && rules[m].classificationId == d ensures RuleType(e, rules[m]) == "" {
      assert before[m] == rules[m];
    }
  }

  /** The order is that of the classifications' first rules with a type. */
  lemma {:induction false} ClassOrderFirst(e: Engine, rules: seq<Rule>)
    ensures MetInOrder(e, rules, ClassOrder(e, rules))
  {
    if rules == [] {
    } else {
      var n := |rules| - 1;
      var before, order := ClassOrder(e, rules[..n]), ClassOrder(e, rules);
      ClassOrderFirst(e, rules[..n]);
      ClassOrderMembers(e, rules[..n]);
      forall i, j | 0 <= i < j < |order| ensures MetBefore(e, rules, order[i], order[j]) {
        if j < |before| {
          assert order[i] == before[i] && order[j] == before[j];
          MetBeforeExtends(e, rules, order[i], order[j]);
        } else {
          assert before[i] in before;
          var rule :| rule in rules[..n] && rule.classificationId == order[i] && RuleType(e, rule) != "";
          var k :| 0 <= k < n && rules[..n][k] == rule;
          assert rules[k] == rule;
          forall m | 0 <= m <= k && rules[m].classificationId == order[j] ensures RuleType(e, rules[m]) == "" {
            assert rules[..n][m] in rules[..n];
          }
        }
      }
    }
  }

  /** The types of each classification, and the order in which the dictionary was filled. */
  method BuildClassificationDbTypes(e: Engine, rules: seq<Rule>) returns (types: map<int, set<string>>, order: seq<int>)
    ensures ClassIndex(e, rules, types)
    ensures order == ClassOrder(e, rules) && forall c :: c in order <==> c in types
  {
    types, order := map[], [];
    for i := 0 to |rules|
      invariant ClassIndex(e, rules[..i], types)
      invariant order == ClassOrder(e, rules[..i]) && forall c :: c in order <==> c in types
    {
      assert rules[..i + 1][..i] == rules[..i];
      assert rules[..i + 1] == rules[..i] + [rules[i]];
      ClassIndexStep(e, rules[..i], rules[i], types);
      var d := RuleType(e, rules[i]);
      if d == "" {
        continue;
      }
      var c := rules[i].classificationId;
      if c !in types {
        order := order + [c];
      }
      types := types[c := Values(types, c) + {d}];
    }
    assert rules[..|rules|] == rules;
  }

  // ---- One rule ----

  ghost predicate OwnerSets(e: Engine, rule: Rule, candidates: seq<Account>, byOwner: map<(string, int), set<int>>) {
    && (forall t: string, o: int :: Values(byOwner, (t, o)) == RuleMatches(e, rule, candidates, t, o))
    && (forall k :: k in byOwner ==> byOwner[k] != {})
  }

  /** What a rule adds to the shared sets. */
  function Added(e: Engine, rule: Rule, candidates: seq<Account>, k: ClassKey): set<int> {
    if k.classificationId == rule.classificationId && k.dbType == RuleType(e, rule)
    then RuleMatches(e, rule, candidates, k.ownerType, k.ownerId) else {}
  }

  ghost predicate Accumulated(e: Engine, rule: Rule, candidates: seq<Account>,
                              before: map<ClassKey, set<int>>, now: map<ClassKey, set<int>>) {
    forall k: ClassKey :: Values(now, k) == Values(before, k) + Added(e, rule, candidates, k)
  }

  lemma SkippedAccount(e: Engine, rule: Rule, candidates: seq<Account>, a: Account,
                       byOwner: map<(string, int), set<int>>, before: map<ClassKey, set<int>>, now: map<ClassKey, set<int>>)
    requires !Counts(e, rule, a)
    requires OwnerSets(e, rule, candidates, byOwner) && Accumulated(e, rule, candidates, before, now)
    ensures OwnerSets(e, rule, candidates + [a], byOwner) && Accumulated(e, rule, candidates + [a], before, now)
  {
  }

  lemma CountedAccount(e: Engine, rule: Rule, candidates: seq<Account>, a: Account, byOwner: map<(string, int), set<int>>)
    requires Counts(e, rule, a) && OwnerSets(e, rule, candidates, byOwner)
    ensures var s := ResolveScope(e, a).value;
      var owner := (s.ownerType, s.ownerId);
      OwnerSets(e, rule, candidates + [a], byOwner[owner := Values(byOwner, owner) + {a.id}])
  {
  }

  lemma AccumulatedAccount(e: Engine, rule: Rule, candidates: seq<Account>, a: Account,
                           before: map<ClassKey, set<int>>, now: map<ClassKey, set<int>>, next: map<ClassKey, set<int>>)
    requires Counts(e, rule, a) && Accumulated(e, rule, candidates, before, now)
    requires var s := ResolveScope(e, a).value;
      var key := ClassKey(rule.classificationId, RuleType(e, rule), s.ownerType, s.ownerId);
      next == now[key := Values(now, key) + {a.id}]
    ensures Accumulated(e, rule, candidates + [a], before, next)
  {
  }

  /** The accumulator that every rule adds its matches to. */
  class MatchAccumulator {
    var matched: map<ClassKey, set<int>>

    constructor ()
      ensures matched == map[]
    {
      matched := map[];
    }

    /** Evaluates a rule on its candidates, filling its own per-owner sets and the shared ones. */
    method EvaluateRule(e: Engine, rule: Rule, candidates: seq<Account>) returns (byOwner: map<(string, int), set<int>>)
      requires rule.expression.Some?
      requires forall a :: a in candidates ==> Indexed(e, a, RuleType(e, rule))
      modifies this
      ensures OwnerSets(e, rule, candidates, byOwner)
      ensures Accumulated(e, rule, candidates, old(matched), matched)
    {
      byOwner := map[];
      var d := RuleType(e, rule);
      for i := 0 to |candidates|
        invariant OwnerSets(e, rule, candidates[..i], byOwner)
        invariant Accumulated(e, rule, candidates[..i], old(matched), matched)
      {
        var a := candidates[i];
        assert candidates[..i + 1] == candidates[..i] + [a];
        var scope := ResolveScope(e, a);
        if a.id <= 0 || scope.None? || !(e.matches)(MergedFacts(a, d), rule.expression.value) {
          SkippedAccount(e, rule, candidates[..i], a, byOwner, old(matched), matched);
          continue;
        }
        var owner := (scope.value.ownerType, scope.value.ownerId);
        var key := ClassKey(rule.classificationId, d, owner.0, owner.1);
        CountedAccount(e, rule, candidates[..i], a, byOwner);
        AccumulatedAccount(e, rule, candidates[..i], a, old(matched), matched, matched[key := Values(matched, key) + {a.id}]);
        byOwner := byOwner[owner := Values(byOwner, owner) + {a.id}];
        matched := matched[key := Values(matched, key) + {a.id}];
      }
      assert candidates[..|candidates|] == candidates;
    }
  }

  // ---- Sorted scopes ----

  /** Tuple order on (owner_type, owner_id, instance_id). */
  predicate ScopeLe(a: OwnerScope, b: OwnerScope) {
    if a.ownerType != b.ownerType then StrLe(a.ownerType, b.ownerType)
    else if a.ownerId != b.ownerId then a.ownerId < b.ownerId
    else a.instanceId <= b.instanceId
  }

  lemma ScopeLePreorder()
    ensures TotalPreorder(ScopeLe)
    ensures forall a, b :: ScopeLe(a, b) && ScopeLe(b, a) ==> a == b
  {
    forall a, b ensures ScopeLe(a, b) || ScopeLe(b, a) {
      StrLeTotal(a.ownerType, b.ownerType);
    }
    forall a, b, c | ScopeLe(a, b) && ScopeLe(b, c) ensures ScopeLe(a, c) {
      if a.ownerType != b.ownerType && b.ownerType != c.ownerType {
        StrLeTransitive(a.ownerType, b.ownerType, c.ownerType);
        if a.ownerType == c.ownerType {
          StrLeAntisymmetric(a.ownerType, b.ownerType);
        }
      }
    }
    forall a, b | ScopeLe(a, b) && ScopeLe(b, a) ensures a == b {
      if a.ownerType != b.ownerType {
        StrLeAntisymmetric(a.ownerType, b.ownerType);
      }
    }
  }

  /** xs lists the scopes of s once each, in order. */
  ghost predicate SortedListing(s: set<OwnerScope>, xs: seq<OwnerScope>) {
    Listing(ScopeLe, s, xs)
  }

  lemma ListingUnique(s: set<OwnerScope>, xs: seq<OwnerScope>, ys: seq<OwnerScope>)
    requires SortedListing(s, xs) && SortedListing(s, ys)
    ensures xs == ys
  {
    ScopeLePreorder();
    SortedUnique(ScopeLe, xs, ys);
  }

  /** Ascending by owner type, then owner id, then instance id, with no scope twice. */
  predicate ScopesAscend(xs: seq<OwnerScope>) {
    forall i, j :: 0 <= i < j < |xs| ==>
      && StrLe(xs[i].ownerType, xs[j].ownerType)
      && (xs[i].ownerType == xs[j].ownerType ==> xs[i].ownerId <= xs[j].ownerId)
      && (xs[i].ownerType == xs[j].ownerType && xs[i].ownerId == xs[j].ownerId ==> xs[i].instanceId < xs[j].instanceId)
  }

  lemma ListingAscends(s: set<OwnerScope>, xs: seq<OwnerScope>)
    requires SortedListing(s, xs)
    ensures ScopesAscend(xs)
    ensures forall x :: x in xs <==> x in s
  {
    ListingMembers(ScopeLe, s, xs);
    forall i, j | 0 <= i < j < |xs| ensures StrLe(xs[i].ownerType, xs[j].ownerType) {
      StrLeTotal(xs[i].ownerType, xs[i].ownerType);
    }
  }

  method SortScopes(s: set<OwnerScope>) returns (xs: seq<OwnerScope>)
    ensures SortedListing(s, xs)
    ensures ScopesAscend(xs) && forall x :: x in xs <==> x in s
  {
    ScopeLePreorder();
    xs := SortSet(ScopeLe, s);
    ListingAscends(s, xs);
  }
}
