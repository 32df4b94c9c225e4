/** Accounts, classification rules and the evaluator that both classification runs share. */
module ClassificationModel {
  import opened Common

  type Facts = map<string, string>

  datatype Account = Account(
    id: int, dbType: string, instanceId: int, ownerType: string, ownerId: Option<int>, facts: Option<Facts>)

  /** An expression that does not decode is absent. */
  datatype Rule = Rule(id: Option<int>, classificationId: int, dbType: string, expression: Option<string>)

  /** Trim-and-lower-case, the expression validator and the rule evaluator, which the runs do not look into. */
  datatype Engine = Engine(
    normalize: string -> string, valid: string -> bool, matches: (Facts, string) -> bool)

  function AccountType(e: Engine, a: Account): string {
    (e.normalize)(a.dbType)
  }

  function RuleType(e: Engine, r: Rule): string {
    (e.normalize)(r.dbType)
  }

  ghost predicate DistinctAccounts(accounts: seq<Account>) {
    forall i, j :: 0 <= i < j < |accounts| ==> accounts[i].id != accounts[j].id
  }

  lemma SameAccount(accounts: seq<Account>, a: Account, b: Account)
    requires DistinctAccounts(accounts) && a in accounts && b in accounts && a.id == b.id
    ensures a == b
  {
  }

  /** The accounts a rule of a database type is tried on. */
  function OfType(e: Engine, accounts: seq<Account>, dbType: string): seq<Account> {
    if dbType == "" then [] else Filter((a: Account) => AccountType(e, a) == dbType, accounts)
  }
}
