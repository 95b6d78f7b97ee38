/** engine/alb_lb.py: listener rules. */
module AlbRules {
  import opened Text

  /** fnmatch.fnmatch, as a relation. */
  type Glob = (string, string) -> bool

  datatype Condition = Condition(field: string, values: seq<string>)

  datatype Rule = Rule(priority: int, conditions: seq<Condition>, target: Option<string>)

  // ---------- rule_matches ----------

  predicate Holds(c: Condition, path: string, host: string, glob: Glob) {
    if c.field == "path-pattern" then exists v :: v in c.values && Hit(if path == "" then "/" else path, v, glob, false)
    else c.field == "host-header" && exists v :: v in c.values && Hit(Lower(host), v, glob, true)
  }

  predicate Matches(r: Rule, path: string, host: string, glob: Glob) {
    r.conditions != [] && forall c :: c in r.conditions ==> Holds(c, path, host, glob)
  }

  predicate Hit(text: string, value: string, glob: Glob, lower: bool) { glob(text, if lower then Lower(value) else value) }

  method AnyMatches(text: string, values: seq<string>, glob: Glob, lower: bool) returns (ok: bool)
    ensures ok <==> exists v :: v in values && Hit(text, v, glob, lower)
  {
    for k := 0 to |values|
      invariant forall j :: 0 <= j < k ==> !Hit(text, values[j], glob, lower)
    {
      if Hit(text, values[k], glob, lower) {
        assert values[k] in values;
        return true;
      }
    }
    return false;
  }

  /** A condition is on the path, "/" where there is none, or on the host in lower case; some value of
      it, in lower case for a host, fits. */
  ghost predicate Fits(c: Condition, path: string, host: string, glob: Glob) {
    exists v :: v in c.values
      && ((c.field == "path-pattern" && ((path != "" && glob(path, v)) || (path == "" && glob("/", v))))
          || (c.field == "host-header" && glob(Lower(host), Lower(v))))
  }

  /** A rule matches when it has conditions and all of them fit. */
  lemma MatchesExactly(r: Rule, path: string, host: string, glob: Glob)
    ensures Matches(r, path, host, glob) <==> |r.conditions| > 0 && forall c :: c in r.conditions ==> Fits(c, path, host, glob)
  {
    hide Lower, Holds, Fits;
    forall c ensures Holds(c, path, host, glob) <==> Fits(c, path, host, glob) { FitsExactly(c, path, host, glob); }
  }

  lemma FitsExactly(c: Condition, path: string, host: string, glob: Glob)
    ensures Holds(c, path, host, glob) <==> Fits(c, path, host, glob)
  {
    hide Lower;
    forall v | v in c.values
      ensures Hit(if path == "" then "/" else path, v, glob, false) <==> (path != "" && glob(path, v)) || (path == "" && glob("/", v))
      ensures Hit(Lower(host), v, glob, true) <==> glob(Lower(host), Lower(v))
    {}
  }

  method RuleMatches(r: Rule, path: string, host: string, glob: Glob) returns (ok: bool)
    ensures ok <==> Matches(r, path, host, glob)
  {
    if r.conditions == [] { return false; }
    for k := 0 to |r.conditions|
      invariant forall j :: 0 <= j < k ==> Holds(r.conditions[j], path, host, glob)
    {
      var c := r.conditions[k];
      assert c in r.conditions;
      var any;
      if c.field == "path-pattern" {
        any := AnyMatches(if path == "" then "/" else path, c.values, glob, false);
      } else if c.field == "host-header" {
        any := AnyMatches(Lower(host), c.values, glob, true);
      } else {
        any := false;
      }
      assert any <==> Holds(c, path, host, glob);
      if !any { return false; }
    }
    return true;
  }

  // ---------- select_tg ----------

  function Insert(r: Rule, sorted: seq<Rule>): seq<Rule> {
    if sorted == [] || r.priority <= sorted[0].priority then [r] + sorted
    else [sorted[0]] + Insert(r, sorted[1..])
  }

  /** sorted(rules, key=priority), which is stable. */
  function Sorted(rules: seq<Rule>): seq<Rule> {
    if rules == [] then [] else Insert(rules[0], Sorted(rules[1..]))
  }

  function FirstMatch(rules: seq<Rule>, path: string, host: string, glob: Glob): Option<Rule> {
    if rules == [] then None
    else if Matches(rules[0], path, host, glob) then Some(rules[0])
    else FirstMatch(rules[1..], path, host, glob)
  }

  predicate InOrder(rules: seq<Rule>) { forall i, j :: 0 <= i < j < |rules| ==> rules[i].priority <= rules[j].priority }

  lemma {:induction false} InsertAdds(r: Rule, sorted: seq<Rule>)
    ensures multiset(Insert(r, sorted)) == multiset(sorted) + multiset{r}
  {
    if sorted != [] && r.priority > sorted[0].priority {
      InsertAdds(r, sorted[1..]);
      assert sorted == [sorted[0]] + sorted[1..];
    }
  }

  lemma {:induction false} InsertKeepsOrder(r: Rule, sorted: seq<Rule>)
    requires InOrder(sorted)
    ensures InOrder(Insert(r, sorted))
  {
    if sorted != [] && r.priority > sorted[0].priority {
      var rest := Insert(r, sorted[1..]);
      InsertKeepsOrder(r, sorted[1..]);
      InsertAdds(r, sorted[1..]);
      forall x | x in rest ensures sorted[0].priority <= x.priority {
        assert x in multiset(rest);
        assert x == r || x in sorted[1..];
      }
      InOrderCons(sorted[0], rest);
    } else {
      assert forall x :: x in sorted ==> sorted[0].priority <= x.priority;
      InOrderCons(r, sorted);
    }
  }

  lemma InOrderCons(r: Rule, rest: seq<Rule>)
    requires InOrder(rest) && forall x :: x in rest ==> r.priority <= x.priority
    ensures InOrder([r] + rest)
  {}

  lemma {:induction false} SortedMeans(rules: seq<Rule>)
    ensures InOrder(Sorted(rules)) && multiset(Sorted(rules)) == multiset(rules)
  {
    if rules != [] {
      SortedMeans(rules[1..]);
      InsertKeepsOrder(rules[0], Sorted(rules[1..]));
      InsertAdds(rules[0], Sorted(rules[1..]));
      assert rules == [rules[0]] + rules[1..];
    }
  }

  /** Rule k matches, no matching rule has a smaller priority, and none before it has the same. */
  ghost predicate Wins(rules: seq<Rule>, k: nat, path: string, host: string, glob: Glob) {
    k < |rules| && Matches(rules[k], path, host, glob)
    && forall j :: 0 <= j < |rules| && Matches(rules[j], path, host, glob) ==>
      rules[k].priority <= rules[j].priority && (j < k ==> rules[k].priority < rules[j].priority)
  }

  lemma {:induction false} MatchAfterInsert(r: Rule, sorted: seq<Rule>, path: string, host: string, glob: Glob)
    requires InOrder(sorted)
    ensures var f := FirstMatch(sorted, path, host, glob);
      FirstMatch(Insert(r, sorted), path, host, glob)
      == if Matches(r, path, host, glob) && (f.None? || r.priority <= f.value.priority) then Some(r) else f
  {
    hide Matches;
    FirstMatchIn(sorted, path, host, glob);
    if sorted != [] && r.priority > sorted[0].priority {
      MatchAfterInsert(r, sorted[1..], path, host, glob);
    } else {
      assert ([r] + sorted)[1..] == sorted;
    }
  }

  lemma {:induction false} FirstMatchIn(rules: seq<Rule>, path: string, host: string, glob: Glob)
    ensures var f := FirstMatch(rules, path, host, glob);
      if f.Some? then f.value in rules && Matches(f.value, path, host, glob)
      else forall r :: r in rules ==> !Matches(r, path, host, glob)
  {
    hide Matches;
    if rules != [] { FirstMatchIn(rules[1..], path, host, glob); }
  }

  /** select_tg takes the matching rule with the smallest priority, the earliest one on a tie, and
      the default target exactly when no rule matches. */
  lemma {:induction false} LowestPriorityWins(rules: seq<Rule>, path: string, host: string, glob: Glob)
    ensures var f := FirstMatch(Sorted(rules), path, host, glob);
      if f.Some? then exists k: nat :: Wins(rules, k, path, host, glob) && rules[k] == f.value
      else forall r :: r in rules ==> !Matches(r, path, host, glob)
  {
    hide Matches, Insert, InOrder, FirstMatch;
    if rules != [] {
      var rest := rules[1..];
      LowestPriorityWins(rest, path, host, glob);
      SortedMeans(rest);
      MatchAfterInsert(rules[0], Sorted(rest), path, host, glob);
      var g := FirstMatch(Sorted(rest), path, host, glob);
      if g.Some? {
        var k: nat :| Wins(rest, k, path, host, glob) && rest[k] == g.value;
        OneMoreRule(rules, k, path, host, glob);
      } else if Matches(rules[0], path, host, glob) {
        assert Wins(rules, 0, path, host, glob);
      }
    } else {
      NoRules(path, host, glob);
    }
  }

  lemma OneMoreRule(rules: seq<Rule>, k: nat, path: string, host: string, glob: Glob)
    requires rules != [] && Wins(rules[1..], k, path, host, glob)
    ensures var head := Matches(rules[0], path, host, glob) && rules[0].priority <= rules[k + 1].priority;
      Wins(rules, if head then 0 else k + 1, path, host, glob)
  {
    hide Matches;
    assert forall j :: 0 < j < |rules| ==> rules[j] == rules[1..][j - 1];
  }

  lemma NoRules(path: string, host: string, glob: Glob)
    ensures FirstMatch(Sorted([]), path, host, glob).None?
  {}

  method SelectTarget(rules: seq<Rule>, path: string, host: string, glob: Glob, default: Option<string>)
    returns (target: Option<string>)
    ensures if exists k: nat :: Wins(rules, k, path, host, glob)
      then exists k: nat :: Wins(rules, k, path, host, glob) && target == rules[k].target
      else target == default
  {
    hide Matches;
    var ordered := Sorted(rules);
    ghost var f := FirstMatch(ordered, path, host, glob);
    LowestPriorityWins(rules, path, host, glob);
    for k := 0 to |ordered|
      invariant FirstMatch(ordered[k..], path, host, glob) == f
    {
      var ok := RuleMatches(ordered[k], path, host, glob);
      assert ordered[k..][1..] == ordered[k + 1..];
      if ok { return ordered[k].target; }
    }
    return default;
  }
}
