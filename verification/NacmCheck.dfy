/** engine/netconf_agent.py, nacm_check: the access decision of section 3.4 of RFC 8341. */
module NacmCheck {
  import opened Text
  import opened OrderedDict
  import opened Nacm

  datatype LocalUser = LocalUser(name: string, privilege: int)

  /** A request to be decided; path "" and module "*" stand for "not given". */
  datatype Query = Query(user: string, operation: string, moduleName: string, path: string)

  const RECOVERY_GROUPS := {"ndm-admin", "PRIV15"}
  const BUILT_IN_ADMIN := "admin"

  /** _user_groups */
  function UserGroups(c: Config, user: string): set<string> {
    set g | g in c.groups && user in g.1 :: g.0
  }

  /** _is_recovery */
  predicate IsRecovery(c: Config, locals: seq<LocalUser>, user: string) {
    user != "" &&
    (UserGroups(c, user) * RECOVERY_GROUPS != {}
     || (if locals != [] then exists u :: u in locals && u.name == user && u.privilege >= 15
         else user == BUILT_IN_ADMIN))
  }

  predicate ListApplies(l: RuleList, groups: set<string>) {
    ANY in l.groups || exists g :: g in l.groups && g in groups
  }

  predicate RuleApplies(r: Rule, q: Query) {
    (r.moduleName == ANY || q.moduleName == ANY || r.moduleName == q.moduleName)
    && (r.operations == ANY || q.operation in Words(r.operations))
    && (r.path == "" || q.path == "" || Contains(q.path, r.path))
    && (r.rpcName == "" || q.operation == "exec")
  }

  function DefaultFor(c: Config, operation: string): string {
    if operation == "read" then c.readDefault
    else if operation == "exec" then c.execDefault
    else c.writeDefault
  }

  predicate IsDataWrite(operation: string) { operation == "create" || operation == "update" || operation == "delete" }

  // ---------- the declarative decision ----------

  /** Rule j of rule-list i applies to the request. */
  ghost predicate Applies(c: Config, q: Query, i: int, j: int) {
    0 <= i < |c.ruleLists| && 0 <= j < |c.ruleLists[i].1.rules|
    && ListApplies(c.ruleLists[i].1, UserGroups(c, q.user)) && RuleApplies(c.ruleLists[i].1.rules[j], q)
  }

  ghost predicate Earlier(i: int, j: int, i': int, j': int) { i < i' || (i == i' && j < j') }

  /** Rule j of rule-list i is the first one, in list order and then rule order, that applies. */
  ghost predicate Decides(c: Config, q: Query, i: int, j: int) {
    Applies(c, q, i, j) && forall i', j' :: Earlier(i', j', i, j) ==> !Applies(c, q, i', j')
  }

  ghost predicate SomeRuleApplies(c: Config, q: Query) { exists i, j :: Applies(c, q, i, j) }

  /** The decision goes to the configured default: NACM is on, the user is no recovery user,
      and no rule applies. */
  ghost predicate ToDefault(c: Config, locals: seq<LocalUser>, q: Query) {
    c.enabled && !IsRecovery(c, locals, q.user) && !SomeRuleApplies(c, q)
  }

  ghost predicate Permitted(c: Config, locals: seq<LocalUser>, q: Query) {
    if !c.enabled || IsRecovery(c, locals, q.user) then true
    else if SomeRuleApplies(c, q) then exists i, j :: Decides(c, q, i, j) && c.ruleLists[i].1.rules[j].action == PERMIT
    else DefaultFor(c, q.operation) == PERMIT
  }

  ghost predicate DeniedByDefault(c: Config, locals: seq<LocalUser>, q: Query) {
    ToDefault(c, locals, q) && DefaultFor(c, q.operation) != PERMIT
  }

  /** The counters after one decision: only a denial by default is counted. */
  ghost function Counted(c: Config, n: Counters, locals: seq<LocalUser>, q: Query): Counters {
    if DeniedByDefault(c, locals, q) then
      n.(operations := n.operations + 1,
         dataWrites := n.dataWrites + (if IsDataWrite(q.operation) then 1 else 0))
    else n
  }

  lemma DecidesIsUnique(c: Config, q: Query, i: int, j: int, i': int, j': int)
    requires Decides(c, q, i, j) && Decides(c, q, i', j')
    ensures i == i' && j == j'
  {
    hide Applies;
    assert !Earlier(i, j, i', j') && !Earlier(i', j', i, j);
  }

  // ---------- the nested loops ----------

  /** The decision loops, given the fields of the configuration dictionary. */
  method FirstMatch(c: Config, q: Query) returns (action: Option<string>)
    ensures action.None? <==> !SomeRuleApplies(c, q)
    ensures action.Some? ==> exists i, j :: Decides(c, q, i, j) && c.ruleLists[i].1.rules[j].action == action.value
  {
    hide ListApplies, RuleApplies, UserGroups;
    var groups := UserGroups(c, q.user);
    var i := 0;
    while i < |c.ruleLists|
      invariant 0 <= i <= |c.ruleLists|
      invariant forall i', j' :: i' < i ==> !Applies(c, q, i', j')
    {
      var l := c.ruleLists[i].1;
      if ListApplies(l, groups) {
        var j := 0;
        while j < |l.rules|
          invariant 0 <= j <= |l.rules|
          invariant forall j' :: j' < j ==> !Applies(c, q, i, j')
        {
          if RuleApplies(l.rules[j], q) {
            assert Applies(c, q, i, j);
            assert Decides(c, q, i, j);
            return Some(l.rules[j].action);
          }
          j := j + 1;
        }
      }
      i := i + 1;
    }
    return None;
  }
}
