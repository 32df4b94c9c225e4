/** The daily run over all rules: its rows per rule and scope, and per classification, type and scope. */
module DailyRun {
  import opened Common
  import opened Ordering
  import opened ClassificationModel
  import opened DailyClassification

  ghost function SortedScopes(s: set<OwnerScope>): (xs: seq<OwnerScope>)
    ensures SortedListing(s, xs)
  {
    if s == {} then []
    else
      var x :| x in s;
      var rest := SortedScopes(s - {x});
      ScopeLePreorder();
      InsertSorted(ScopeLe, x, rest);
      InsertPermutes(ScopeLe, x, rest);
      assert s == s - {x} + {x};
      Insert(ScopeLe, x, rest)
  }

  function RecordOf(e: Engine, rule: Rule, accounts: seq<Account>, scope: OwnerScope): RuleRecord
    requires rule.id.Some?
  {
    RuleRecord(rule.id.value, rule.classificationId, RuleType(e, rule), scope,
               |RuleMatches(e, rule, accounts, scope.ownerType, scope.ownerId)|)
  }

  function RecordsOf(e: Engine, rule: Rule, accounts: seq<Account>, xs: seq<OwnerScope>): seq<RuleRecord>
    requires rule.id.Some?
  {
    seq(|xs|, i requires 0 <= i < |xs| => RecordOf(e, rule, accounts, xs[i]))
  }

  /** A rule's rows: one per owner scope of its database type, in scope order. */
  ghost function RuleRows(e: Engine, rule: Rule, accounts: seq<Account>): seq<RuleRecord>
    requires rule.id.Some?
  {
    RecordsOf(e, rule, accounts, SortedScopes(ScopesOf(e, accounts, RuleType(e, rule))))
  }

  /** A row is the rule's, for one scope of its type, and counts the accounts of the scope's owner that the rule matches. */
  ghost predicate CountsOwner(e: Engine, rule: Rule, accounts: seq<Account>, r: RuleRecord) {
    && rule.id == Some(r.ruleId) && r.classificationId == rule.classificationId && r.dbType == (e.normalize)(rule.dbType)
    && r.count == |set a | a in accounts && Counts(e, rule, a)
                            && ResolveScope(e, a).value.ownerType == r.scope.ownerType
                            && ResolveScope(e, a).value.ownerId == r.scope.ownerId :: a.id|
  }

  /** Some account of the type, matched or not, is reported under the scope. */
  ghost predicate ScopeSeen(e: Engine, accounts: seq<Account>, dbType: string, s: OwnerScope) {
    exists a :: a in accounts && (e.normalize)(a.dbType) == dbType != "" && ResolveScope(e, a) == Some(s)
  }

  /** A rule has one row for each scope that some account of its type is reported under, in tuple order. */
  lemma RuleRowsMeaning(e: Engine, rule: Rule, accounts: seq<Account>) returns (xs: seq<OwnerScope>)
    requires rule.id.Some?
    ensures var rows := RuleRows(e, rule, accounts);
      && |rows| == |xs|
      && forall i :: 0 <= i < |rows| ==> rows[i].scope == xs[i] && CountsOwner(e, rule, accounts, rows[i])
    ensures ScopesAscend(xs)
    ensures forall s :: s in xs <==> ScopeSeen(e, accounts, (e.normalize)(rule.dbType), s)
  {
    xs := SortedScopes(ScopesOf(e, accounts, RuleType(e, rule)));
    ListingAscends(ScopesOf(e, accounts, RuleType(e, rule)), xs);
    ScopesAreSeen(e, accounts, RuleType(e, rule));
    RecordsCountOwners(e, rule, accounts, xs);
  }

  lemma ScopesAreSeen(e: Engine, accounts: seq<Account>, dbType: string)
    ensures forall s :: s in ScopesOf(e, accounts, dbType) <==> ScopeSeen(e, accounts, dbType, s)
  {
  }

  lemma RecordsCountOwners(e: Engine, rule: Rule, accounts: seq<Account>, xs: seq<OwnerScope>)
    requires rule.id.Some?
    ensures var rows := RecordsOf(e, rule, accounts, xs);
      forall i :: 0 <= i < |xs| ==> rows[i].scope == xs[i] && CountsOwner(e, rule, accounts, rows[i])
  {
    forall i | 0 <= i < |xs| ensures CountsOwner(e, rule, accounts, RecordOf(e, rule, accounts, xs[i])) {
      RecordCountsOwner(e, rule, accounts, xs[i]);
    }
  }

  lemma RecordCountsOwner(e: Engine, rule: Rule, accounts: seq<Account>, s: OwnerScope)
    requires rule.id.Some?
    ensures CountsOwner(e, rule, accounts, RecordOf(e, rule, accounts, s))
  {
    assert RuleMatches(e, rule, accounts, s.ownerType, s.ownerId) ==
      set a | a in accounts && Counts(e, rule, a)
              && ResolveScope(e, a).value.ownerType == s.ownerType && ResolveScope(e, a).value.ownerId == s.ownerId :: a.id;
  }

  ghost function AllRuleRows(e: Engine, rules: seq<Rule>, accounts: seq<Account>): seq<RuleRecord> {
    if rules == [] then []
    else
      var n := |rules| - 1;
      AllRuleRows(e, rules[..n], accounts) + if rules[n].id.Some? then RuleRows(e, rules[n], accounts) else []
  }

  /** All accounts a rule matches. */
  function AllMatches(e: Engine, rule: Rule, accounts: seq<Account>): set<int> {
    set a | a in accounts && Counts(e, rule, a) :: a.id
  }

  /** The accounts a rule matches whose owner is among the given ones. */
  function MatchesOfOwners(e: Engine, rule: Rule, accounts: seq<Account>, owners: set<(string, int)>): set<int> {
    set a | a in accounts && Counts(e, rule, a) &&
      (ResolveScope(e, a).value.ownerType, ResolveScope(e, a).value.ownerId) in owners :: a.id
  }

  /** Owners partition the matches, because an account has one owner and ids are distinct. */
  lemma OwnersPartition(e: Engine, rule: Rule, accounts: seq<Account>, owners: set<(string, int)>, t: string, o: int)
    requires DistinctAccounts(accounts) && (t, o) !in owners
    ensures |MatchesOfOwners(e, rule, accounts, owners + {(t, o)})| ==
            |MatchesOfOwners(e, rule, accounts, owners)| + |RuleMatches(e, rule, accounts, t, o)|
  {
    var before, here := MatchesOfOwners(e, rule, accounts, owners), RuleMatches(e, rule, accounts, t, o);
    assert MatchesOfOwners(e, rule, accounts, owners + {(t, o)}) == before + here;
    forall id | id in before && id in here ensures false {
      var a :| a in accounts && Counts(e, rule, a) && a.id == id &&
        (ResolveScope(e, a).value.ownerType, ResolveScope(e, a).value.ownerId) in owners;
      var b :| b in accounts && Counts(e, rule, b) && OwnedBy(e, b, t, o) && b.id == id;
      SameAccount(accounts, a, b);
    }
    assert before !! here;
  }

  lemma CandidatesSuffice(e: Engine, rule: Rule, accounts: seq<Account>)
    ensures forall a :: a in Candidates(e, accounts, RuleType(e, rule)) ==> Indexed(e, a, RuleType(e, rule))
    ensures forall t: string, o: int ::
      RuleMatches(e, rule, Candidates(e, accounts, RuleType(e, rule)), t, o) == RuleMatches(e, rule, accounts, t, o)
  {
    FilterMember((a: Account) => Indexed(e, a, RuleType(e, rule)), accounts);
  }

  /** Sums the sizes of a rule's per-owner sets. */
  method SumSizes(e: Engine, ghost rule: Rule, ghost accounts: seq<Account>, byOwner: map<(string, int), set<int>>)
    returns (total: nat)
    requires DistinctAccounts(accounts) && OwnerSets(e, rule, accounts, byOwner)
    ensures total == |AllMatches(e, rule, accounts)|
  {
    total := 0;
    var todo := byOwner.Keys;
    ghost var done: set<(string, int)> := {};
    assert MatchesOfOwners(e, rule, accounts, done) == {};
    while todo != {}
      invariant done + todo == byOwner.Keys && done !! todo
      invariant total == |MatchesOfOwners(e, rule, accounts, done)|
      decreases todo
    {
      var owner :| owner in todo;
      OwnersPartition(e, rule, accounts, done, owner.0, owner.1);
      assert Values(byOwner, (owner.0, owner.1)) == byOwner[owner];
      total := total + |byOwner[owner]|;
      done, todo := done + {owner}, todo - {owner};
    }
    assert done == byOwner.Keys;
    AllOwners(e, rule, accounts, byOwner);
  }

  lemma AllOwners(e: Engine, rule: Rule, accounts: seq<Account>, byOwner: map<(string, int), set<int>>)
    requires OwnerSets(e, rule, accounts, byOwner)
    ensures MatchesOfOwners(e, rule, accounts, byOwner.Keys) == AllMatches(e, rule, accounts)
  {
    forall a | a in accounts && Counts(e, rule, a)
      ensures (ResolveScope(e, a).value.ownerType, ResolveScope(e, a).value.ownerId) in byOwner
    {
      var s := ResolveScope(e, a).value;
      assert a.id in RuleMatches(e, rule, accounts, s.ownerType, s.ownerId);
      assert Values(byOwner, (s.ownerType, s.ownerId)) == RuleMatches(e, rule, accounts, s.ownerType, s.ownerId);
    }
  }

  /** One row per scope, counting the owner's matches. */
  method BuildRuleRecords(e: Engine, rule: Rule, byOwner: map<(string, int), set<int>>, xs: seq<OwnerScope>, ghost accounts: seq<Account>)
    returns (records: seq<RuleRecord>)
    requires rule.id.Some? && OwnerSets(e, rule, accounts, byOwner)
    ensures records == RecordsOf(e, rule, accounts, xs)
  {
    records := [];
    for i := 0 to |xs|
      invariant records == RecordsOf(e, rule, accounts, xs)[..i]
    {
      var owner := (xs[i].ownerType, xs[i].ownerId);
      records := records + [RuleRecord(rule.id.value, rule.classificationId, RuleType(e, rule), xs[i], |Values(byOwner, owner)|)];
    }
  }

  /** Evaluating on the indexed candidates is evaluating on all accounts. */
  lemma CandidatesEnough(e: Engine, rule: Rule, accounts: seq<Account>, byOwner: map<(string, int), set<int>>,
                         before: map<ClassKey, set<int>>, now: map<ClassKey, set<int>>)
    requires OwnerSets(e, rule, Candidates(e, accounts, RuleType(e, rule)), byOwner)
    requires Accumulated(e, rule, Candidates(e, accounts, RuleType(e, rule)), before, now)
    ensures OwnerSets(e, rule, accounts, byOwner) && Accumulated(e, rule, accounts, before, now)
  {
    CandidatesSuffice(e, rule, accounts);
  }

  datatype DecodeError = DecodeError

  /** Evaluates one rule and builds its rows and its matched total. */
  method CalculateRuleRecords(acc: MatchAccumulator, e: Engine, rule: Rule, byType: map<string, seq<Account>>,
                              scopes: map<string, set<OwnerScope>>, ghost accounts: seq<Account>)
    returns (r: Result<(seq<RuleRecord>, nat), DecodeError>)
    requires rule.id.Some? && DistinctAccounts(accounts)
    requires TypeIndex(e, accounts, byType) && ScopeIndex(e, accounts, scopes)
    modifies acc
    ensures r.Err? <==> rule.expression.None?
    ensures r.Err? ==> acc.matched == old(acc.matched)
    ensures r.Ok? ==> r.value == (RuleRows(e, rule, accounts), |AllMatches(e, rule, accounts)|)
    ensures r.Ok? ==> Accumulated(e, rule, accounts, old(acc.matched), acc.matched)
  {
    if rule.expression.None? {
      return Err(DecodeError);
    }
    var d := RuleType(e, rule);
    var candidates := if d in byType then byType[d] else [];
    assert candidates == Candidates(e, accounts, d);
    var xs := SortScopes(Values(scopes, d));
    ListingUnique(ScopesOf(e, accounts, d), xs, SortedScopes(ScopesOf(e, accounts, d)));
    CandidatesSuffice(e, rule, accounts);
    var byOwner := acc.EvaluateRule(e, rule, candidates);
    CandidatesEnough(e, rule, accounts, byOwner, old(acc.matched), acc.matched);
    var total := SumSizes(e, rule, accounts, byOwner);
    var records := BuildRuleRecords(e, rule, byOwner, xs, accounts);
    return Ok((records, total));
  }

  lemma ClassMatchesStep(e: Engine, rules: seq<Rule>, rule: Rule, accounts: seq<Account>, key: ClassKey)
    ensures ClassMatches(e, rules + [rule], accounts, key) ==
            ClassMatches(e, rules, accounts, key) + if rule.id.Some? then Added(e, rule, accounts, key) else {}
  {
  }

  // ---- The classification rows ----

  /** One row per classification, database type it has rules for, and owner scope of that type, for the pairs in done. */
  ghost predicate ClassRowsOf(e: Engine, rules: seq<Rule>, accounts: seq<Account>, done: set<(int, string)>, rows: seq<ClassRecord>) {
    && (forall r :: r in rows ==>
          (r.classificationId, r.dbType) in done && r.scope in ScopesOf(e, accounts, r.dbType)
          && r.count == |ClassMatches(e, rules, accounts, KeyOf(r))|)
    && (forall i, j :: 0 <= i < j < |rows| ==> !SameGroup(rows[i], rows[j]))
    && (forall p, scope :: p in done && scope in ScopesOf(e, accounts, p.1) ==> HasRow(rows, p.0, p.1, scope))
  }

  function KeyOf(r: ClassRecord): ClassKey {
    ClassKey(r.classificationId, r.dbType, r.scope.ownerType, r.scope.ownerId)
  }

  predicate SameGroup(a: ClassRecord, b: ClassRecord) {
    a.classificationId == b.classificationId && a.dbType == b.dbType && a.scope == b.scope
  }

  predicate HasRow(rows: seq<ClassRecord>, c: int, d: string, scope: OwnerScope) {
    exists r :: r in rows && r.classificationId == c && r.dbType == d && r.scope == scope
  }

  function PairsOf(e: Engine, rules: seq<Rule>): set<(int, string)> {
    set rule | rule in rules && RuleType(e, rule) != "" :: (rule.classificationId, RuleType(e, rule))
  }

  ghost predicate ClassRows(e: Engine, rules: seq<Rule>, accounts: seq<Account>, rows: seq<ClassRecord>) {
    ClassRowsOf(e, rules, accounts, PairsOf(e, rules), rows)
  }

  /**
   * A row belongs to a scope some account of its type is reported under, and counts the accounts of the
   * scope's owner that a rule of the classification and type matches, each once.
   */
  lemma ClassRowMeaning(e: Engine, rules: seq<Rule>, accounts: seq<Account>, rows: seq<ClassRecord>, r: ClassRecord)
    requires ClassRows(e, rules, accounts, rows) && r in rows
    ensures ScopeSeen(e, accounts, r.dbType, r.scope)
    ensures r.count == |set rule, a | rule in rules && a in accounts && rule.id.Some? && Counts(e, rule, a)
        && rule.classificationId == r.classificationId && (e.normalize)(rule.dbType) == r.dbType
        && ResolveScope(e, a).value.ownerType == r.scope.ownerType
        && ResolveScope(e, a).value.ownerId == r.scope.ownerId :: a.id|
  {
    ScopesAreSeen(e, accounts, r.dbType);
    assert ClassMatches(e, rules, accounts, KeyOf(r)) == set rule, a | rule in rules && a in accounts && rule.id.Some? && Counts(e, rule, a)
        && rule.classificationId == r.classificationId && (e.normalize)(rule.dbType) == r.dbType
        && ResolveScope(e, a).value.ownerType == r.scope.ownerType
        && ResolveScope(e, a).value.ownerId == r.scope.ownerId :: a.id;
  }

  function ClassRecordsOf(c: int, d: string, matched: map<ClassKey, set<int>>, xs: seq<OwnerScope>): seq<ClassRecord> {
    seq(|xs|, i requires 0 <= i < |xs| =>
      ClassRecord(c, d, xs[i], |Values(matched, ClassKey(c, d, xs[i].ownerType, xs[i].ownerId))|))
  }

  ghost predicate HoldsClassMatches(e: Engine, rules: seq<Rule>, accounts: seq<Account>, matched: map<ClassKey, set<int>>) {
    forall key: ClassKey :: Values(matched, key) == ClassMatches(e, rules, accounts, key)
  }

  lemma SkipKeepsMatches(e: Engine, rules: seq<Rule>, accounts: seq<Account>, k: nat, matched: map<ClassKey, set<int>>)
    requires k < |rules| && rules[k].id.None? && HoldsClassMatches(e, rules[..k], accounts, matched)
    ensures HoldsClassMatches(e, rules[..k + 1], accounts, matched)
  {
    assert rules[..k + 1] == rules[..k] + [rules[k]];
    forall key: ClassKey ensures Values(matched, key) == ClassMatches(e, rules[..k + 1], accounts, key) {
      ClassMatchesStep(e, rules[..k], rules[k], accounts, key);
    }
  }

  lemma StepExtendsMatches(e: Engine, rules: seq<Rule>, accounts: seq<Account>, k: nat,
                           before: map<ClassKey, set<int>>, matched: map<ClassKey, set<int>>)
    requires k < |rules| && rules[k].id.Some? && HoldsClassMatches(e, rules[..k], accounts, before)
    requires Accumulated(e, rules[k], accounts, before, matched)
    ensures HoldsClassMatches(e, rules[..k + 1], accounts, matched)
  {
    assert rules[..k + 1] == rules[..k] + [rules[k]];
    forall key: ClassKey ensures Values(matched, key) == ClassMatches(e, rules[..k + 1], accounts, key) {
      ClassMatchesStep(e, rules[..k], rules[k], accounts, key);
    }
  }

  lemma AddPair(e: Engine, rules: seq<Rule>, accounts: seq<Account>, done: set<(int, string)>, rows: seq<ClassRecord>,
                c: int, d: string, matched: map<ClassKey, set<int>>, xs: seq<OwnerScope>)
    requires ClassRowsOf(e, rules, accounts, done, rows) && (c, d) !in done
    requires HoldsClassMatches(e, rules, accounts, matched) && SortedListing(ScopesOf(e, accounts, d), xs)
    ensures ClassRowsOf(e, rules, accounts, done + {(c, d)}, rows + ClassRecordsOf(c, d, matched, xs))
  {
    var more := ClassRecordsOf(c, d, matched, xs);
    var all := rows + more;
    ListingMembers(ScopeLe, ScopesOf(e, accounts, d), xs);
    forall r | r in more ensures r.classificationId == c && r.dbType == d && r.scope in ScopesOf(e, accounts, d)
      && r.count == |ClassMatches(e, rules, accounts, KeyOf(r))|
    {
      var i :| 0 <= i < |more| && more[i] == r;
      assert xs[i] in xs;
    }
    forall i, j | 0 <= i < j < |all| ensures !SameGroup(all[i], all[j]) {
      if i < |rows| && |rows| <= j {
        assert all[i] in rows && all[j] in more;
      }
    }
    forall p, scope | p in done + {(c, d)} && scope in ScopesOf(e, accounts, p.1) ensures HasRow(all, p.0, p.1, scope) {
      if p == (c, d) {
        assert scope in xs;
        var i :| 0 <= i < |xs| && xs[i] == scope;
        assert more[i] in all;
      } else {
        assert HasRow(rows, p.0, p.1, scope);
        var r :| r in rows && r.classificationId == p.0 && r.dbType == p.1 && r.scope == scope;
        assert r in all;
      }
    }
  }

  // ---- In which order ----

  /** The position of an element, or the length of the list. */
  function Position(order: seq<int>, c: int): nat {
    if order == [] || order[0] == c then 0 else 1 + Position(order[1..], c)
  }

  lemma {:induction false} PositionOf(order: seq<int>, i: nat)
    requires i < |order| && Distinct(order)
    ensures Position(order, order[i]) == i
  {
    if i == 0 {
    } else {
      assert order[i] != order[0];
      PositionOf(order[1..], i - 1);
    }
  }

  /** Classification by classification in dictionary order, then by type, then by scope. */
  predicate RowLe(order: seq<int>, a: ClassRecord, b: ClassRecord) {
    if a.classificationId != b.classificationId then Position(order, a.classificationId) <= Position(order, b.classificationId)
    else if a.dbType != b.dbType then StrLe(a.dbType, b.dbType)
    else ScopeLe(a.scope, b.scope)
  }

  ghost predicate InOrder(order: seq<int>, rows: seq<ClassRecord>) {
    forall i, j :: 0 <= i < j < |rows| ==> RowLe(order, rows[i], rows[j])
  }

  /** Rows of one classification ascend by database type, then by owner type, owner id and instance id. */
  lemma RowsAscend(order: seq<int>, rows: seq<ClassRecord>, i: nat, j: nat)
    requires InOrder(order, rows) && i < j < |rows| && rows[i].classificationId == rows[j].classificationId
    ensures StrLe(rows[i].dbType, rows[j].dbType)
    ensures rows[i].dbType == rows[j].dbType ==>
      var a, b := rows[i].scope, rows[j].scope;
      && StrLe(a.ownerType, b.ownerType)
      && (a.ownerType == b.ownerType ==> a.ownerId <= b.ownerId)
      && (a.ownerType == b.ownerType && a.ownerId == b.ownerId ==> a.instanceId <= b.instanceId)
  {
    assert RowLe(order, rows[i], rows[j]);
    StrLeTotal(rows[i].dbType, rows[i].dbType);
    StrLeTotal(rows[i].scope.ownerType, rows[i].scope.ownerType);
  }

  /** Rows of different classifications stand in the order of the classifications' first rules with a type. */
  lemma RowsByFirstRule(e: Engine, rules: seq<Rule>, accounts: seq<Account>, rows: seq<ClassRecord>, i: nat, j: nat)
    requires ClassRows(e, rules, accounts, rows) && InOrder(ClassOrder(e, rules), rows)
    requires i < j < |rows| && rows[i].classificationId != rows[j].classificationId
    ensures MetBefore(e, rules, rows[i].classificationId, rows[j].classificationId)
  {
    assert RowLe(ClassOrder(e, rules), rows[i], rows[j]);
    assert rows[i] in rows && rows[j] in rows;
    PairsInOrder(e, rules, rows[i].classificationId, rows[i].dbType);
    PairsInOrder(e, rules, rows[j].classificationId, rows[j].dbType);
    EarlierIsMetBefore(e, rules, rows[i].classificationId, rows[j].classificationId);
  }

  lemma EarlierIsMetBefore(e: Engine, rules: seq<Rule>, c: int, d: int)
    requires c in ClassOrder(e, rules) && d in ClassOrder(e, rules) && c != d
    requires Position(ClassOrder(e, rules), c) <= Position(ClassOrder(e, rules), d)
    ensures MetBefore(e, rules, c, d)
  {
    var order := ClassOrder(e, rules);
    ClassOrderMembers(e, rules);
    ClassOrderFirst(e, rules);
    var p :| 0 <= p < |order| && order[p] == c;
    var q :| 0 <= q < |order| && order[q] == d;
    PositionOf(order, p);
    PositionOf(order, q);
  }

  lemma PairsInOrder(e: Engine, rules: seq<Rule>, c: int, d: string)
    requires (c, d) in PairsOf(e, rules)
    ensures c in ClassOrder(e, rules)
  {
    ClassOrderMembers(e, rules);
    var rule :| rule in rules && RuleType(e, rule) != "" && (rule.classificationId, RuleType(e, rule)) == (c, d);
  }

  /** Every row comes before the rows of type d of classification c. */
  ghost predicate Precede(order: seq<int>, rows: seq<ClassRecord>, c: int, d: string) {
    forall r :: r in rows ==>
      if r.classificationId != c then Position(order, r.classificationId) <= Position(order, c)
      else r.dbType != d && StrLe(r.dbType, d)
  }

  lemma AppendInOrder(order: seq<int>, rows: seq<ClassRecord>, c: int, d: string, matched: map<ClassKey, set<int>>, xs: seq<OwnerScope>)
    requires InOrder(order, rows) && Precede(order, rows, c, d) && Sorted(ScopeLe, xs)
    ensures InOrder(order, rows + ClassRecordsOf(c, d, matched, xs))
  {
    var more := ClassRecordsOf(c, d, matched, xs);
    var all := rows + more;
    forall i, j | 0 <= i < j < |all| ensures RowLe(order, all[i], all[j]) {
      if i < |rows| <= j {
        assert all[i] in rows;
      }
    }
  }

  /** The pairs of a classification with the listed types. */
  function PairsWith(c: int, types: seq<string>): set<(int, string)> {
    set d | d in types :: (c, d)
  }

  /** The rows of one classification, type by type in order. */
  method BuildRowsOfClass(e: Engine, c: int, types: set<string>, scopes: map<string, set<OwnerScope>>,
                          matched: map<ClassKey, set<int>>, rows: seq<ClassRecord>, ghost done: set<(int, string)>,
                          ghost order: seq<int>, ghost rules: seq<Rule>, ghost accounts: seq<Account>)
    returns (all: seq<ClassRecord>)
    requires ClassRowsOf(e, rules, accounts, done, rows) && forall d: string :: (c, d) !in done
    requires InOrder(order, rows) && forall p :: p in done ==> Position(order, p.0) <= Position(order, c)
    requires HoldsClassMatches(e, rules, accounts, matched) && ScopeIndex(e, accounts, scopes)
    ensures ClassRowsOf(e, rules, accounts, done + (set d | d in types :: (c, d)), all)
    ensures InOrder(order, all)
  {
    StrLePreorder();
    var sorted := SortSet(StrLe, types);
    ListingMembers(StrLe, types, sorted);
    all := rows;
    for i := 0 to |sorted|
      invariant ClassRowsOf(e, rules, accounts, done + PairsWith(c, sorted[..i]), all)
      invariant InOrder(order, all)
    {
      var d := sorted[i];
      var xs := SortScopes(Values(scopes, d));
      NextTypeFollows(e, rules, accounts, done, order, all, c, sorted, i);
      AddPair(e, rules, accounts, done + PairsWith(c, sorted[..i]), all, c, d, matched, xs);
      AppendInOrder(order, all, c, d, matched, xs);
      all := all + ClassRecordsOf(c, d, matched, xs);
      assert sorted[..i + 1] == sorted[..i] + [d];
      assert done + PairsWith(c, sorted[..i]) + {(c, d)} == done + PairsWith(c, sorted[..i + 1]);
    }
    assert sorted[..|sorted|] == sorted;
    assert PairsWith(c, sorted) == set d | d in types :: (c, d);
  }

  lemma NextTypeFollows(e: Engine, rules: seq<Rule>, accounts: seq<Account>, done: set<(int, string)>, order: seq<int>,
                        rows: seq<ClassRecord>, c: int, sorted: seq<string>, i: nat)
    requires i < |sorted| && Sorted(StrLe, sorted) && forall k :: 0 <= k < i ==> sorted[k] != sorted[i]
    requires ClassRowsOf(e, rules, accounts, done + PairsWith(c, sorted[..i]), rows)
    requires forall d: string :: (c, d) !in done
    requires forall p :: p in done ==> Position(order, p.0) <= Position(order, c)
    ensures Precede(order, rows, c, sorted[i]) && (c, sorted[i]) !in done + PairsWith(c, sorted[..i])
  {
    forall r | r in rows
      ensures if r.classificationId != c then Position(order, r.classificationId) <= Position(order, c)
              else r.dbType != sorted[i] && StrLe(r.dbType, sorted[i])
    {
      var p := (r.classificationId, r.dbType);
      if p in PairsWith(c, sorted[..i]) {
        var k :| 0 <= k < i && sorted[k] == r.dbType;
      } else {
        assert p in done;
      }
    }
  }

  /** The pairs of the classifications listed so far. */
  function PairsListed(types: map<int, set<string>>, listed: seq<int>): set<(int, string)> {
    set c, d | c in listed && c in types && d in types[c] :: (c, d)
  }

  lemma EarlierPositions(order: seq<int>, types: map<int, set<string>>, i: nat)
    requires i < |order| && Distinct(order)
    ensures forall p :: p in PairsListed(types, order[..i]) ==> Position(order, p.0) <= Position(order, order[i])
    ensures forall d: string :: (order[i], d) !in PairsListed(types, order[..i])
  {
    PositionOf(order, i);
    forall p | p in PairsListed(types, order[..i]) ensures Position(order, p.0) <= i {
      var k :| 0 <= k < i && order[k] == p.0;
      PositionOf(order, k);
    }
  }

  method BuildClassificationRecords(e: Engine, types: map<int, set<string>>, order: seq<int>, scopes: map<string, set<OwnerScope>>,
                                    matched: map<ClassKey, set<int>>, ghost rules: seq<Rule>, ghost accounts: seq<Account>)
    returns (rows: seq<ClassRecord>)
    requires ClassIndex(e, rules, types) && ScopeIndex(e, accounts, scopes) && HoldsClassMatches(e, rules, accounts, matched)
    requires order == ClassOrder(e, rules) && forall c :: c in order <==> c in types
    ensures ClassRows(e, rules, accounts, rows) && InOrder(ClassOrder(e, rules), rows)
  {
    rows := [];
    ClassOrderMembers(e, rules);
    for i := 0 to |order|
      invariant ClassRowsOf(e, rules, accounts, PairsListed(types, order[..i]), rows)
      invariant InOrder(order, rows)
    {
      assert order[i] in order;
      EarlierPositions(order, types, i);
      ghost var done := PairsListed(types, order[..i]);
      rows := BuildRowsOfClass(e, order[i], types[order[i]], scopes, matched, rows, done, order, rules, accounts);
      assert order[..i + 1] == order[..i] + [order[i]];
      assert done + (set d | d in types[order[i]] :: (order[i], d)) == PairsListed(types, order[..i + 1]);
    }
    assert order[..|order|] == order;
    PairsIndexed(e, rules, types);
    assert PairsListed(types, order) == set c, d | c in types.Keys && d in types[c] :: (c, d);
  }

  lemma PairsIndexed(e: Engine, rules: seq<Rule>, types: map<int, set<string>>)
    requires ClassIndex(e, rules, types)
    ensures PairsOf(e, rules) == set c, d | c in types.Keys && d in types[c] :: (c, d)
  {
    forall c: int, d: string ensures (c, d) in PairsOf(e, rules) <==> d in Values(types, c) {
      assert Values(types, c) == TypesOf(e, rules, c);
    }
  }

  /** There is one such list: the rows and their order are settled by rules and accounts. */
  lemma ClassRowsUnique(e: Engine, rules: seq<Rule>, accounts: seq<Account>, xs: seq<ClassRecord>, ys: seq<ClassRecord>)
    requires ClassRows(e, rules, accounts, xs) && ClassRows(e, rules, accounts, ys)
    requires InOrder(ClassOrder(e, rules), xs) && InOrder(ClassOrder(e, rules), ys)
    ensures xs == ys
  {
    RowsAmong(e, rules, accounts, xs, ys);
    RowsAmong(e, rules, accounts, ys, xs);
    SameElements(xs, ys);
    var order := ClassOrder(e, rules);
    var le := (a: ClassRecord, b: ClassRecord) => RowLe(order, a, b);
    forall a, b | a in xs && b in xs && le(a, b) && le(b, a) ensures a == b {
      RowsTellApart(e, rules, accounts, xs, a, b);
    }
    SortedUnique(le, xs, ys);
  }

  lemma RowsAmong(e: Engine, rules: seq<Rule>, accounts: seq<Account>, xs: seq<ClassRecord>, ys: seq<ClassRecord>)
    requires ClassRows(e, rules, accounts, xs) && ClassRows(e, rules, accounts, ys)
    ensures Distinct(xs) && forall r :: r in xs ==> r in ys
  {
    forall r | r in xs ensures r in ys {
      assert HasRow(ys, r.classificationId, r.dbType, r.scope) by {
        var p := (r.classificationId, r.dbType);
        assert p in PairsOf(e, rules) && r.scope in ScopesOf(e, accounts, p.1);
      }
      var o :| o in ys && o.classificationId == r.classificationId && o.dbType == r.dbType && o.scope == r.scope;
      assert o == r;
    }
  }

  lemma RowsTellApart(e: Engine, rules: seq<Rule>, accounts: seq<Account>, rows: seq<ClassRecord>, a: ClassRecord, b: ClassRecord)
    requires ClassRows(e, rules, accounts, rows) && a in rows && b in rows
    requires RowLe(ClassOrder(e, rules), a, b) && RowLe(ClassOrder(e, rules), b, a)
    ensures a == b
  {
    var order := ClassOrder(e, rules);
    ClassOrderMembers(e, rules);
    assert (a.classificationId, a.dbType) in PairsOf(e, rules) && (b.classificationId, b.dbType) in PairsOf(e, rules);
    assert a.classificationId in order && b.classificationId in order;
    if a.classificationId != b.classificationId {
      var i :| 0 <= i < |order| && order[i] == a.classificationId;
      var j :| 0 <= j < |order| && order[j] == b.classificationId;
      PositionOf(order, i);
      PositionOf(order, j);
    } else if a.dbType != b.dbType {
      StrLeAntisymmetric(a.dbType, b.dbType);
    } else {
      ScopeLePreorder();
    }
  }

  // ---- The run ----

  datatype Outcome = CancelledAt(k: nat) | FailedAt(k: nat) | Completed

  function Progress(rules: seq<Rule>, cancelled: nat -> bool, from: nat): (k: nat)
    requires from <= |rules|
    ensures from <= k <= |rules|
    decreases |rules| - from
  {
    if from == |rules| || cancelled(from) || (rules[from].id.Some? && rules[from].expression.None?) then from
    else Progress(rules, cancelled, from + 1)
  }

  /** A run stops before the first rule at which it is cancelled or whose expression does not decode. */
  lemma {:induction false} ProgressIsFirstStop(rules: seq<Rule>, cancelled: nat -> bool, from: nat)
    requires from <= |rules|
    ensures var k := Progress(rules, cancelled, from);
      && (forall j :: from <= j < k ==> !cancelled(j) && (rules[j].id.Some? ==> rules[j].expression.Some?))
      && (k == |rules| || cancelled(k) || (rules[k].id.Some? && rules[k].expression.None?))
    decreases |rules| - from
  {
    if from == |rules| || cancelled(from) || (rules[from].id.Some? && rules[from].expression.None?) {
    } else {
      ProgressIsFirstStop(rules, cancelled, from + 1);
    }
  }

  /** All rules in turn; the classification rows are built only when every rule has been evaluated. */
  method CalculateRuleStatistics(e: Engine, rules: seq<Rule>, accounts: seq<Account>, cancelled: nat -> bool)
    returns (outcome: Outcome, ruleRows: seq<RuleRecord>, classRows: seq<ClassRecord>)
    requires DistinctAccounts(accounts)
    ensures var k := Progress(rules, cancelled, 0);
      && outcome == (if k == |rules| then Completed else if cancelled(k) then CancelledAt(k) else FailedAt(k))
      && ruleRows == AllRuleRows(e, rules[..k], accounts)
      && if outcome.Completed? then ClassRows(e, rules, accounts, classRows) && InOrder(ClassOrder(e, rules), classRows)
         else classRows == []
  {
    var byType, scopes := BuildAccountIndexes(e, accounts);
    var types, order := BuildClassificationDbTypes(e, rules);
    var acc := new MatchAccumulator();
    ruleRows, classRows := [], [];
    for k := 0 to |rules|
      invariant fresh(acc)
      invariant Progress(rules, cancelled, 0) == Progress(rules, cancelled, k)
      invariant ruleRows == AllRuleRows(e, rules[..k], accounts)
      invariant HoldsClassMatches(e, rules[..k], accounts, acc.matched)
    {
      assert rules[..k + 1] == rules[..k] + [rules[k]] && rules[..k + 1][..k] == rules[..k];
      if cancelled(k) {
        return CancelledAt(k), ruleRows, [];
      }
      if rules[k].id.None? {
        SkipKeepsMatches(e, rules, accounts, k, acc.matched);
        continue;
      }
      ghost var before := acc.matched;
      var r := CalculateRuleRecords(acc, e, rules[k], byType, scopes, accounts);
      if r.Err? {
        return FailedAt(k), ruleRows, [];
      }
      StepExtendsMatches(e, rules, accounts, k, before, acc.matched);
      ruleRows := ruleRows + r.value.0;
    }
    assert rules[..|rules|] == rules;
    classRows := BuildClassificationRecords(e, types, order, scopes, acc.matched, rules, accounts);
    outcome := Completed;
  }
}
