/** engine/netconf_agent.py, nacm_check: the access decision over the configured values. */
module NacmDecision {
  import opened Text
  import opened OrderedDict
  import opened Nacm
  import opened NacmCheck

  // ---------- who the user is ----------

  ghost predicate InGroup(c: Config, user: string, group: string) {
    exists users :: (group, users) in c.groups && user in users
  }

  /** A session that access control does not touch: a member of one of two groups, and where local
      users exist one of them with privilege 15, otherwise the user "admin". */
  ghost predicate Recovers(c: Config, locals: seq<LocalUser>, user: string) {
    user != ""
    && (InGroup(c, user, "ndm-admin") || InGroup(c, user, "PRIV15")
        || (locals == [] && user == "admin")
        || exists u :: u in locals && u.name == user && u.privilege >= 15)
  }

  lemma GroupsMean(c: Config, user: string, group: string)
    ensures group in UserGroups(c, user) <==> InGroup(c, user, group)
  {
    if group in UserGroups(c, user) {
      var g :| g in c.groups && user in g.1 && g.0 == group;
      assert (group, g.1) in c.groups;
    }
    forall users | (group, users) in c.groups && user in users ensures group in UserGroups(c, user) {
      assert (group, users).0 in UserGroups(c, user);
    }
  }

  lemma RecoversExactly(c: Config, locals: seq<LocalUser>, user: string)
    ensures IsRecovery(c, locals, user) <==> Recovers(c, locals, user)
  {
    hide UserGroups;
    GroupsMean(c, user, "ndm-admin");
    GroupsMean(c, user, "PRIV15");
    var both := UserGroups(c, user) * RECOVERY_GROUPS;
    assert forall g :: g in both <==> g in UserGroups(c, user) && (g == "ndm-admin" || g == "PRIV15");
    assert both != {} <==> "ndm-admin" in both || "PRIV15" in both;
  }

  // ---------- which rule applies ----------

  ghost predicate ForUser(c: Config, l: RuleList, user: string) {
    "*" in l.groups || exists g :: g in l.groups && InGroup(c, user, g)
  }

  /** The rule's module is the request's, or either is any; its operations are any or name the
      request's among their words; its path, where both have one, occurs in the request's; and a
      rule for an rpc is for execution only. */
  ghost predicate Covers(r: Rule, q: Query) {
    (r.moduleName == q.moduleName || r.moduleName == "*" || q.moduleName == "*")
    && (r.operations == "*" || exists i: nat :: WordAt(r.operations, q.operation, i))
    && (r.path == "" || q.path == "" || exists i: nat :: At(q.path, r.path, i))
    && (r.rpcName != "" ==> q.operation == "exec")
  }

  /** Rule j of rule-list i is for this user and covers the request. */
  ghost predicate Asks(c: Config, q: Query, i: int, j: int) {
    0 <= i < |c.ruleLists| && ForUser(c, c.ruleLists[i].1, q.user)
    && 0 <= j < |c.ruleLists[i].1.rules| && Covers(c.ruleLists[i].1.rules[j], q)
  }

  lemma CoversExactly(r: Rule, q: Query)
    ensures RuleApplies(r, q) <==> Covers(r, q)
  {
    hide Text.FindFrom, Words, WordAt, At;
    WordsMean(r.operations, q.operation);
    FindMeans(q.path, r.path, 0);
  }

  lemma AsksExactly(c: Config, q: Query, i: int, j: int)
    ensures Applies(c, q, i, j) <==> Asks(c, q, i, j)
  {
    hide UserGroups, RuleApplies, Covers, InGroup;
    if 0 <= i < |c.ruleLists| {
      var l := c.ruleLists[i].1;
      forall g ensures g in UserGroups(c, q.user) <==> InGroup(c, q.user, g) { GroupsMean(c, q.user, g); }
      if 0 <= j < |l.rules| { CoversExactly(l.rules[j], q); }
    }
  }

  // ---------- the decision ----------

  ghost predicate FirstAsks(c: Config, q: Query, i: int, j: int) {
    Asks(c, q, i, j) && forall i', j' :: (i' < i || (i' == i && j' < j)) ==> !Asks(c, q, i', j')
  }

  function Default(c: Config, operation: string): string {
    match operation
    case "read" => c.readDefault
    case "exec" => c.execDefault
    case _ => c.writeDefault
  }

  /** Access is given where access control is off, to a recovering user, where the first rule that
      asks for the request permits it, and where no rule asks and the default for its kind of
      operation permits. Only a denial by default is counted, and also as a data write where the
      operation is one. */
  lemma DecidedExactly(c: Config, n: Counters, locals: seq<LocalUser>, q: Query)
    ensures Permitted(c, locals, q) <==>
      !c.enabled || Recovers(c, locals, q.user)
      || (exists i, j :: FirstAsks(c, q, i, j) && c.ruleLists[i].1.rules[j].action == "permit")
      || ((forall i, j :: !Asks(c, q, i, j)) && Default(c, q.operation) == "permit")
    ensures Counted(c, n, locals, q) ==
      if c.enabled && !Recovers(c, locals, q.user) && (forall i, j :: !Asks(c, q, i, j)) && Default(c, q.operation) != "permit"
      then Counters(n.operations + 1,
                    if q.operation in ["create", "update", "delete"] then n.dataWrites + 1 else n.dataWrites, n.notifications)
      else n
  {
    hide Applies, Asks, IsRecovery, Recovers;
    RecoversExactly(c, locals, q.user);
    forall i, j ensures Applies(c, q, i, j) <==> Asks(c, q, i, j) { AsksExactly(c, q, i, j); }
    forall i, j ensures Decides(c, q, i, j) <==> FirstAsks(c, q, i, j) {}
  }

  /** A device as delivered lets everyone read and execute and only recovering users write. */
  lemma FreshDecides(locals: seq<LocalUser>, q: Query)
    ensures Permitted(FRESH, locals, q) <==> Recovers(FRESH, locals, q.user) || q.operation == "read" || q.operation == "exec"
    ensures FRESH.enabled && FRESH.groups == [] && FRESH.ruleLists == []
  {
    hide Recovers;
    DecidedExactly(FRESH, Counters(0, 0, 0), locals, q);
  }
}
