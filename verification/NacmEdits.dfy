/** engine/netconf_agent.py, apply_nacm_edit: what an edit leaves behind. */
module NacmEdits {
  import opened Text
  import opened OrderedDict
  import opened Nacm

  // ---------- dictionaries ----------

  lemma {:induction false} KeysMean<V>(d: Dict<V>, key: string)
    ensures key in Keys(d) <==> exists v :: (key, v) in d
  {
    if d != [] {
      KeysMean(d[1..], key);
      assert d[0] == (d[0].0, d[0].1) && forall v :: (key, v) in d <==> (key, v) == d[0] || (key, v) in d[1..];
    }
  }

  lemma PutMeans<V>(d: Dict<V>, key: string, value: V, k: string, v: V)
    requires Unique(d)
    ensures Unique(Put(d, key, value))
    ensures (k, v) in Put(d, key, value) <==> if k == key then v == value else (k, v) in d
  {
    PutKeys(d, key, value);
    var d' := Put(d, key, value);
    match IndexOf(d, key)
    case None =>
      KeysMean(d, key);
      assert d'[|d|] == (key, value);
    case Some(i) =>
      assert d'[i] == (key, value);
      assert forall j :: 0 <= j < |d| && j != i ==> d'[j] == d[j] && d[j].0 != key;
  }

  lemma RemoveMeans<V>(d: Dict<V>, key: string, k: string, v: V)
    requires Unique(d)
    ensures Unique(Remove(d, key))
    ensures (k, v) in Remove(d, key) <==> k != key && (k, v) in d
  {
    RemoveUnique(d, key);
    match IndexOf(d, key)
    case None =>
      KeysMean(d, key);
    case Some(i) =>
      assert forall j :: 0 <= j < |d| && j != i ==> d[j] in d[..i] + d[i + 1..] && d[j].0 != key;
  }

  // ---------- the children of an element ----------

  ghost predicate Increasing(idx: seq<nat>) { forall i, j :: 0 <= i < j < |idx| ==> idx[i] < idx[j] }

  /** idx lists, in order, exactly the children that satisfy f. */
  ghost predicate Exactly(kids: seq<Xml>, f: Xml -> bool, idx: seq<nat>) {
    Increasing(idx) && (forall k :: k in idx ==> k < |kids| && f(kids[k]))
    && (forall k :: 0 <= k < |kids| && f(kids[k]) ==> k in idx)
  }

  ghost predicate First(kids: seq<Xml>, tag: string, k: nat) {
    k < |kids| && kids[k].tag == tag && forall j :: 0 <= j < k ==> kids[j].tag != tag
  }

  /** The text of the first child with this tag, stripped; the default if it is missing or empty. */
  ghost predicate FieldIs(kids: seq<Xml>, tag: string, default: string, value: string) {
    if exists k :: 0 <= k < |kids| && kids[k].tag == tag
    then exists k: nat :: First(kids, tag, k) && value == if kids[k].text == "" then default else Strip(kids[k].text)
    else value == default
  }

  lemma {:induction false} FirstChild(kids: seq<Xml>, tag: string)
    ensures var r := Child(kids, tag);
      if r.Some? then exists k: nat :: First(kids, tag, k) && r.value == kids[k]
      else forall k :: 0 <= k < |kids| ==> kids[k].tag != tag
  {
    if kids != [] {
      var rest := kids[1..];
      assert forall j :: 0 < j < |kids| ==> kids[j] == rest[j - 1];
      if kids[0].tag == tag {
        assert First(kids, tag, 0);
      } else {
        FirstChild(rest, tag);
        if Child(rest, tag).Some? {
          var k: nat :| First(rest, tag, k) && Child(rest, tag).value == rest[k];
          assert First(kids, tag, k + 1) && kids[k + 1] == rest[k];
        }
      }
    }
  }

  lemma FieldIsTextOr(kids: seq<Xml>, tag: string, default: string)
    ensures FieldIs(kids, tag, default, TextOr(kids, tag, default))
  {
    hide Strip, Child;
    FirstChild(kids, tag);
  }

  lemma FieldIsChildText(kids: seq<Xml>, tag: string)
    ensures FieldIs(kids, tag, "", Strip(ChildText(kids, tag)))
  {
    FieldIsTextOr(kids, tag, "");
    assert Strip("") == "";
  }

  lemma {:induction false} ChildrenAppend(a: seq<Xml>, b: seq<Xml>, tag: string)
    ensures Children(a + b, tag) == Children(a, tag) + Children(b, tag)
  {
    if a == [] {
      assert a + b == b;
    } else {
      assert (a + b)[1..] == a[1..] + b;
      ChildrenAppend(a[1..], b, tag);
    }
  }

  /** The elements at these places. */
  function Picked(kids: seq<Xml>, idx: seq<nat>): seq<Xml> {
    seq(|idx|, i requires 0 <= i < |idx| => if idx[i] < |kids| then kids[idx[i]] else Leaf("", ""))
  }

  lemma ExactlySnoc(kids: seq<Xml>, f: Xml -> bool, idx: seq<nat>)
    requires kids != [] && Exactly(kids[..|kids| - 1], f, idx)
    ensures var n := |kids| - 1;
      var all := if f(kids[n]) then idx + [n] else idx;
      Exactly(kids, f, all) && Picked(kids, all) == Picked(kids[..n], idx) + if f(kids[n]) then [kids[n]] else []
  {
    var n := |kids| - 1;
    forall i | 0 <= i < |idx| ensures idx[i] < n { assert idx[i] in idx; }
    var all := if f(kids[n]) then idx + [n] else idx;
    assert Picked(kids, idx) == Picked(kids[..n], idx);
    assert f(kids[n]) ==> Picked(kids, all) == Picked(kids, idx) + [kids[n]];
    assert f(kids[n]) ==> all[|idx|] == n;
    forall k | 0 <= k < |kids| && f(kids[k]) ensures k in all {
      assert k < n ==> kids[..n][k] == kids[k];
    }
  }

  function HasTag(tag: string): Xml -> bool { (e: Xml) => e.tag == tag }

  lemma {:induction false} ChildrenAre(kids: seq<Xml>, tag: string) returns (idx: seq<nat>)
    ensures Exactly(kids, HasTag(tag), idx) && Children(kids, tag) == Picked(kids, idx)
    decreases |kids|
  {
    idx := [];
    if kids != [] {
      var n := |kids| - 1;
      idx := ChildrenAre(kids[..n], tag);
      assert kids[..n] + [kids[n]] == kids;
      ChildrenAppend(kids[..n], [kids[n]], tag);
      ExactlySnoc(kids, HasTag(tag), idx);
      if kids[n].tag == tag { idx := idx + [n]; }
    }
  }

  function HasText(tag: string): Xml -> bool { (e: Xml) => e.tag == tag && Strip(e.text) != "" }

  /** The stripped texts of exactly the children with this tag that are not blank, in order. */
  ghost predicate TextsAre(kids: seq<Xml>, tag: string, texts: seq<string>) {
    exists idx :: Exactly(kids, HasText(tag), idx) && texts == Texts(Picked(kids, idx))
  }

  function Texts(es: seq<Xml>): seq<string> { seq(|es|, i requires 0 <= i < |es| => Strip(es[i].text)) }

  lemma {:induction false} NonBlankAppend(a: seq<Xml>, b: seq<Xml>)
    ensures NonBlankTexts(a + b) == NonBlankTexts(a) + NonBlankTexts(b)
  {
    hide Strip;
    if a == [] {
      assert a + b == b;
    } else {
      assert (a + b)[1..] == a[1..] + b;
      NonBlankAppend(a[1..], b);
    }
  }

  lemma {:induction false} TextsAreNonBlank(kids: seq<Xml>, tag: string)
    ensures TextsAre(kids, tag, NonBlankTexts(Children(kids, tag)))
    decreases |kids|
  {
    hide Strip, NonBlankTexts, Children, Texts, Picked, Exactly, HasText;
    if kids == [] {
      NoTexts(tag);
    } else {
      var n := |kids| - 1;
      var init, last := kids[..n], kids[n];
      TextsAreNonBlank(init, tag);
      var idx :| Exactly(init, HasText(tag), idx) && NonBlankTexts(Children(init, tag)) == Texts(Picked(init, idx));
      assert init + [last] == kids;
      ChildrenAppend(init, [last], tag);
      NonBlankAppend(Children(init, tag), Children([last], tag));
      ExactlySnoc(kids, HasText(tag), idx);
      OneText(last, tag);
      var all := if HasText(tag)(last) then idx + [n] else idx;
      TextsAppend(Picked(init, idx), if HasText(tag)(last) then [last] else []);
      assert Exactly(kids, HasText(tag), all);
    }
  }

  lemma NoTexts(tag: string)
    ensures Exactly([], HasText(tag), []) && Texts(Picked([], [])) == NonBlankTexts(Children([], tag))
  {
    hide Strip;
  }

  lemma TextsAppend(a: seq<Xml>, b: seq<Xml>)
    ensures Texts(a + b) == Texts(a) + Texts(b)
  {}

  lemma OneText(e: Xml, tag: string)
    ensures NonBlankTexts(Children([e], tag)) == Texts(if HasText(tag)(e) then [e] else [])
  {
    hide Strip;
    assert [e][1..] == [];
  }

  // ---------- one change after another ----------

  datatype Change<V> = Delete(name: string) | Set(name: string, value: V)

  function Apply<V>(d: Dict<V>, cs: seq<Change<V>>): Dict<V>
    decreases |cs|
  {
    if cs == [] then d
    else Apply(if cs[0].Delete? then Remove(d, cs[0].name) else Put(d, cs[0].name, cs[0].value), cs[1..])
  }

  /** The last change of a name decides: an entry is there if that change set it, and where nothing
      changes the name, if it was there before. */
  ghost predicate Decided<V>(d: Dict<V>, cs: seq<Change<V>>, name: string, v: V) {
    (exists k :: 0 <= k < |cs| && cs[k] == Set(name, v) && forall j :: k < j < |cs| ==> cs[j].name != name)
    || ((name, v) in d && forall j :: 0 <= j < |cs| ==> cs[j].name != name)
  }

  lemma {:induction false} LastDecides<V>(d: Dict<V>, cs: seq<Change<V>>, name: string, v: V)
    requires Unique(d)
    ensures Unique(Apply(d, cs)) && ((name, v) in Apply(d, cs) <==> Decided(d, cs, name, v))
    decreases |cs|
  {
    hide Put, Remove, Unique;
    if cs != [] {
      var c, rest := cs[0], cs[1..];
      var d' := if c.Delete? then Remove(d, c.name) else Put(d, c.name, c.value);
      if c.Delete? { RemoveMeans(d, c.name, name, v); } else { PutMeans(d, c.name, c.value, name, v); }
      LastDecides(d', rest, name, v);
      DecidedCons(d, cs, d', name, v);
    }
  }

  lemma DecidedCons<V>(d: Dict<V>, cs: seq<Change<V>>, d': Dict<V>, name: string, v: V)
    requires cs != []
    requires (name, v) in d' <==> if name != cs[0].name then (name, v) in d else cs[0] == Set(name, v)
    ensures Decided(d, cs, name, v) <==> Decided(d', cs[1..], name, v)
  {
    var rest := cs[1..];
    assert forall j :: 0 < j < |cs| ==> cs[j] == rest[j - 1];
    assert forall j :: 0 <= j < |rest| ==> rest[j] == cs[j + 1];
    if Decided(d', rest, name, v) {
      if k :| 0 <= k < |rest| && rest[k] == Set(name, v) && forall j :: k < j < |rest| ==> rest[j].name != name {
        assert cs[k + 1] == Set(name, v) && forall j :: k + 1 < j < |cs| ==> cs[j].name != name;
      }
    }
    if k :| 0 <= k < |cs| && cs[k] == Set(name, v) && forall j :: k < j < |cs| ==> cs[j].name != name {
      if k > 0 { assert rest[k - 1] == Set(name, v) && forall j :: k - 1 < j < |rest| ==> rest[j].name != name; }
    }
  }

  // ---------- what one element asks for ----------

  ghost predicate IsNamed(e: Xml, name: string) { name != "" && FieldIs(e.kids, "name", "", name) }

  /** The rule that an element reads as. */
  ghost predicate RuleIs(e: Xml, r: Rule) {
    IsNamed(e, r.name) && FieldIs(e.kids, "module-name", "*", r.moduleName) && FieldIs(e.kids, "rpc-name", "", r.rpcName)
    && FieldIs(e.kids, "path", "", r.path) && FieldIs(e.kids, "access-operations", "*", r.operations)
    && FieldIs(e.kids, "action", "", r.action) && (r.action == "permit" || r.action == "deny")
    && FieldIs(e.kids, "comment", "", r.comment)
  }

  ghost predicate IsRule(e: Xml) { exists r :: RuleIs(e, r) }

  ghost predicate RulesAre(kids: seq<Xml>, rules: seq<Rule>) {
    exists idx :: Exactly(kids, HasTag("rule"), idx) && |rules| == |idx|
      && forall i :: 0 <= i < |idx| ==> RuleIs(Picked(kids, idx)[i], rules[i])
  }

  ghost predicate ListChange(e: Xml, c: Change<RuleList>) {
    IsNamed(e, c.name) && c.Delete? == (e.op == "delete")
    && (c.Set? ==> TextsAre(e.kids, "group", c.value.groups) && RulesAre(e.kids, c.value.rules))
  }

  ghost predicate GroupChange(e: Xml, c: Change<seq<string>>) {
    IsNamed(e, c.name) && c.Delete? == (e.op == "delete") && (c.Set? ==> TextsAre(e.kids, "user-name", c.value))
  }

  lemma RuleReads(e: Xml)
    ensures RuleOf(e).error == "" <==> IsRule(e)
    ensures RuleOf(e).error == "" ==> RuleIs(e, RuleOf(e).value)
  {
    hide FieldIs, TextOr, ChildText, Strip;
    FieldIsChildText(e.kids, "name");
    FieldIsTextOr(e.kids, "module-name", "*");
    FieldIsTextOr(e.kids, "rpc-name", "");
    FieldIsTextOr(e.kids, "path", "");
    FieldIsTextOr(e.kids, "access-operations", "*");
    FieldIsChildText(e.kids, "action");
    FieldIsTextOr(e.kids, "comment", "");
    assert RuleOf(e).error == "" ==> RuleIs(e, RuleOf(e).value);
    forall r | RuleIs(e, r) ensures RuleOf(e).error == "" {
      FieldUnique(e.kids, "name", "", r.name, Strip(ChildText(e.kids, "name")));
      FieldUnique(e.kids, "action", "", r.action, Strip(ChildText(e.kids, "action")));
    }
  }

  lemma FieldUnique(kids: seq<Xml>, tag: string, default: string, v: string, w: string)
    requires FieldIs(kids, tag, default, v) && FieldIs(kids, tag, default, w)
    ensures v == w
  {
    hide Strip;
    if exists k :: 0 <= k < |kids| && kids[k].tag == tag {
      var i: nat :| First(kids, tag, i) && v == if kids[i].text == "" then default else Strip(kids[i].text);
      var j: nat :| First(kids, tag, j) && w == if kids[j].text == "" then default else Strip(kids[j].text);
      assert i == j;
    }
  }

  lemma {:induction false} RulesRead(rs: seq<Xml>)
    ensures RulesOf(rs).error == "" <==> forall i :: 0 <= i < |rs| ==> IsRule(rs[i])
    ensures RulesOf(rs).error == "" ==>
      |RulesOf(rs).value| == |rs| && forall i :: 0 <= i < |rs| ==> RuleIs(rs[i], RulesOf(rs).value[i])
  {
    hide RuleOf, IsRule, RuleIs;
    if rs != [] {
      RuleReads(rs[0]);
      RulesRead(rs[1..]);
      assert forall i :: 0 < i < |rs| ==> rs[i] == rs[1..][i - 1];
      if forall i :: 0 <= i < |rs| ==> IsRule(rs[i]) {
        forall i | 0 <= i < |rs[1..]| ensures IsRule(rs[1..][i]) { assert rs[1..][i] == rs[i + 1]; }
      }
    }
  }

  // ---------- whole edits ----------

  /** The element can be applied: it is named, and if it does not delete, its rules read. */
  ghost predicate IsListChange(e: Xml) { exists c :: ListChange(e, c) }

  ghost predicate IsGroupChange(e: Xml) { exists c :: GroupChange(e, c) }

  lemma ListReads(ls: Dict<RuleList>, e: Xml)
    ensures EditRuleList(ls, e).error == "" <==> IsListChange(e)
    ensures EditRuleList(ls, e).error == "" ==> exists c :: ListChange(e, c) && EditRuleList(ls, e).value == Apply(ls, [c])
  {
    hide FieldIs, TextsAre, RulesAre, ChildText, Strip, RulesOf, Put, Remove;
    var name := Strip(ChildText(e.kids, "name"));
    var rules, groups := RulesOf(Children(e.kids, "rule")), NonBlankTexts(Children(e.kids, "group"));
    FieldIsChildText(e.kids, "name");
    TextsAreNonBlank(e.kids, "group");
    AllRules(e.kids);
    if EditRuleList(ls, e).error == "" {
      var c := if e.op == "delete" then Delete(name) else Set(name, RuleList(groups, rules.value));
      assert ListChange(e, c);
      ApplyOne(ls, c);
    }
    forall c | ListChange(e, c) ensures EditRuleList(ls, e).error == "" {
      FieldUnique(e.kids, "name", "", c.name, name);
    }
  }

  lemma ApplyOne<V>(d: Dict<V>, c: Change<V>)
    ensures Apply(d, [c]) == if c.Delete? then Remove(d, c.name) else Put(d, c.name, c.value)
  {
    hide Remove, Put;
    assert [c][1..] == [];
  }

  lemma ApplyCons<V>(d: Dict<V>, c: Change<V>, cs: seq<Change<V>>)
    ensures Apply(d, [c] + cs) == Apply(Apply(d, [c]), cs)
  {
    hide Remove, Put;
    ApplyOne(d, c);
    assert ([c] + cs)[1..] == cs;
  }

  /** The rules of an element are read if and only if every one of them can be. */
  lemma AllRules(kids: seq<Xml>)
    ensures var rules := RulesOf(Children(kids, "rule"));
      (rules.error == "" ==> RulesAre(kids, rules.value)) && (rules.error == "" <==> exists rs :: RulesAre(kids, rs))
  {
    hide RuleIs, Exactly;
    var es := Children(kids, "rule");
    var idx := ChildrenAre(kids, "rule");
    RulesRead(es);
    forall rs | RulesAre(kids, rs) ensures RulesOf(es).error == "" {
      var idx' :| Exactly(kids, HasTag("rule"), idx') && |rs| == |idx'|
        && forall i :: 0 <= i < |idx'| ==> RuleIs(Picked(kids, idx')[i], rs[i]);
      ExactlyOnce(kids, HasTag("rule"), idx, idx');
    }
  }

  /** There is only one such list of places. */
  lemma ExactlyOnce(kids: seq<Xml>, f: Xml -> bool, a: seq<nat>, b: seq<nat>)
    requires Exactly(kids, f, a) && Exactly(kids, f, b)
    ensures a == b
  {
    assert forall k :: k in a <==> k in b;
    SameIncreasing(a, b);
  }

  lemma {:induction false} SameIncreasing(a: seq<nat>, b: seq<nat>)
    requires Increasing(a) && Increasing(b) && forall k :: k in a <==> k in b
    ensures a == b
    decreases |a|
  {
    assert (a == [] || a[0] in a) && (b == [] || b[0] in b);
    if a != [] {
      assert a[0] == b[0];
      forall k ensures k in a[1..] <==> k in b[1..] {
        assert k in a[1..] <==> k in a && k != a[0];
        assert k in b[1..] <==> k in b && k != b[0];
      }
      SameIncreasing(a[1..], b[1..]);
    }
  }

  lemma {:induction false} ListsRead(ls: Dict<RuleList>, es: seq<Xml>)
    ensures EditRuleLists(ls, es).error == "" <==> forall k :: 0 <= k < |es| ==> IsListChange(es[k])
    ensures EditRuleLists(ls, es).error == "" ==> exists cs :: ListChanges(es, cs) && EditRuleLists(ls, es).value == Apply(ls, cs)
    decreases |es|
  {
    hide EditRuleList, IsListChange, ListChange;
    if es == [] {
      assert ListChanges(es, []);
    } else {
      var e, rest := es[0], es[1..];
      assert forall k :: 0 < k < |es| ==> es[k] == rest[k - 1];
      ListReads(ls, e);
      var first := EditRuleList(ls, e);
      if first.error == "" {
        ListsRead(first.value, rest);
        forall k | 0 <= k < |rest| && (forall k :: 0 <= k < |es| ==> IsListChange(es[k])) ensures IsListChange(rest[k]) {
          assert rest[k] == es[k + 1];
        }
        if EditRuleLists(first.value, rest).error == "" {
          var c :| ListChange(e, c) && first.value == Apply(ls, [c]);
          var cs :| ListChanges(rest, cs) && EditRuleLists(first.value, rest).value == Apply(first.value, cs);
          ApplyCons(ls, c, cs);
          assert ListChanges(es, [c] + cs);
        }
      }
    }
  }

  ghost predicate ListChanges(es: seq<Xml>, cs: seq<Change<RuleList>>) {
    |cs| == |es| && forall k :: 0 <= k < |es| ==> ListChange(es[k], cs[k])
  }

  ghost predicate GroupChanges(es: seq<Xml>, cs: seq<Change<seq<string>>>) {
    |cs| == |es| && forall k :: 0 <= k < |es| ==> GroupChange(es[k], cs[k])
  }

  lemma GroupReads(gs: Dict<seq<string>>, e: Xml)
    ensures EditGroup(gs, e).error == "" <==> IsGroupChange(e)
    ensures EditGroup(gs, e).error == "" ==> exists c :: GroupChange(e, c) && EditGroup(gs, e).value == Apply(gs, [c])
  {
    hide FieldIs, TextsAre, ChildText, Strip, Put, Remove;
    var name := Strip(ChildText(e.kids, "name"));
    var users := NonBlankTexts(Children(e.kids, "user-name"));
    FieldIsChildText(e.kids, "name");
    TextsAreNonBlank(e.kids, "user-name");
    if EditGroup(gs, e).error == "" {
      var c := if e.op == "delete" then Delete(name) else Set(name, users);
      assert GroupChange(e, c);
      ApplyOne(gs, c);
    }
    forall c | GroupChange(e, c) ensures EditGroup(gs, e).error == "" {
      FieldUnique(e.kids, "name", "", c.name, name);
    }
  }

  lemma {:induction false} GroupsRead(gs: Dict<seq<string>>, es: seq<Xml>)
    ensures EditGroups(gs, es).error == "" <==> forall k :: 0 <= k < |es| ==> IsGroupChange(es[k])
    ensures EditGroups(gs, es).error == "" ==> exists cs :: GroupChanges(es, cs) && EditGroups(gs, es).value == Apply(gs, cs)
    decreases |es|
  {
    hide EditGroup, IsGroupChange, GroupChange;
    if es == [] {
      assert GroupChanges(es, []);
    } else {
      var e, rest := es[0], es[1..];
      assert forall k :: 0 < k < |es| ==> es[k] == rest[k - 1];
      GroupReads(gs, e);
      var first := EditGroup(gs, e);
      if first.error == "" {
        GroupsRead(first.value, rest);
        forall k | 0 <= k < |rest| && (forall k :: 0 <= k < |es| ==> IsGroupChange(es[k])) ensures IsGroupChange(rest[k]) {
          assert rest[k] == es[k + 1];
        }
        if EditGroups(first.value, rest).error == "" {
          var c :| GroupChange(e, c) && first.value == Apply(gs, [c]);
          var cs :| GroupChanges(rest, cs) && EditGroups(first.value, rest).value == Apply(first.value, cs);
          ApplyCons(gs, c, cs);
          assert GroupChanges(es, [c] + cs);
        }
      }
    }
  }

  /** A switch keeps its value where its leaf is missing or empty. */
  ghost predicate SwitchIs(kids: seq<Xml>, tag: string, before: bool, after: bool) {
    if exists k: nat :: First(kids, tag, k) && kids[k].text != ""
    then exists k: nat :: First(kids, tag, k) && after == (Lower(Strip(kids[k].text)) == "true")
    else after == before
  }

  /** A default keeps its value where its leaf is missing or empty, and is permit or deny. */
  ghost predicate DefaultIs(kids: seq<Xml>, tag: string, before: string, after: string) {
    FieldIs(kids, tag, before, after) && (after == "permit" || after == "deny")
  }

  lemma SwitchReads(kids: seq<Xml>, tag: string, before: bool)
    ensures SwitchIs(kids, tag, before, BoolLeaf(kids, tag, before))
  {
    hide Strip, Lower, Child;
    FirstChild(kids, tag);
  }

  ghost predicate IsDefault(kids: seq<Xml>, tag: string, before: string) { exists v :: DefaultIs(kids, tag, before, v) }

  lemma DefaultReads(kids: seq<Xml>, tag: string, before: string)
    requires IsAction(before)
    ensures var r := DefaultLeaf(kids, tag, before);
      (r.error == "" <==> IsDefault(kids, tag, before)) && (r.error == "" ==> DefaultIs(kids, tag, before, r.value))
  {
    hide Strip, FieldIs, Child;
    FieldIsTextOr(kids, tag, before);
    var r := DefaultLeaf(kids, tag, before);
    assert |tag + " must be \"permit\" or \"deny\""| > 0;
    assert r.error == "" ==> r.value == TextOr(kids, tag, before) && DefaultIs(kids, tag, before, r.value);
    forall v | DefaultIs(kids, tag, before, v) ensures r.error == "" {
      FieldUnique(kids, tag, before, v, TextOr(kids, tag, before));
    }
  }

  ghost predicate LeavesFine(c: Config, kids: seq<Xml>) {
    IsDefault(kids, "read-default", c.readDefault) && IsDefault(kids, "write-default", c.writeDefault)
    && IsDefault(kids, "exec-default", c.execDefault)
  }

  ghost predicate LeavesAre(c: Config, kids: seq<Xml>, c': Config) {
    SwitchIs(kids, "enable-nacm", c.enabled, c'.enabled)
    && SwitchIs(kids, "enable-external-groups", c.externalGroups, c'.externalGroups)
    && DefaultIs(kids, "read-default", c.readDefault, c'.readDefault)
    && DefaultIs(kids, "write-default", c.writeDefault, c'.writeDefault)
    && DefaultIs(kids, "exec-default", c.execDefault, c'.execDefault)
  }

  lemma LeavesRead(c: Config, kids: seq<Xml>)
    requires IsAction(c.readDefault) && IsAction(c.writeDefault) && IsAction(c.execDefault)
    ensures var r := EditLeaves(c, kids);
      (r.error == "" <==> LeavesFine(c, kids)) && (r.error == "" ==> LeavesAre(c, kids, r.value))
      && r.value.groups == c.groups && r.value.ruleLists == c.ruleLists
  {
    hide BoolLeaf, DefaultLeaf, DefaultIs, SwitchIs, IsDefault;
    SwitchReads(kids, "enable-nacm", c.enabled);
    SwitchReads(kids, "enable-external-groups", c.externalGroups);
    DefaultReads(kids, "read-default", c.readDefault);
    DefaultReads(kids, "write-default", c.writeDefault);
    DefaultReads(kids, "exec-default", c.execDefault);
  }

  /** The elements of the edit that name rule-lists, and those that name groups: the latter are the
      children of the first groups element. */
  ghost predicate ListElements(kids: seq<Xml>, es: seq<Xml>) {
    exists idx :: Exactly(kids, HasTag("rule-list"), idx) && es == Picked(kids, idx)
  }

  ghost predicate GroupElements(kids: seq<Xml>, es: seq<Xml>) {
    if exists k: nat :: First(kids, "groups", k)
    then exists k: nat, idx :: First(kids, "groups", k) && Exactly(kids[k].kids, HasTag("group"), idx) && es == Picked(kids[k].kids, idx)
    else es == []
  }

  lemma ElementsAre(kids: seq<Xml>)
    ensures ListElements(kids, Children(kids, "rule-list")) && GroupElements(kids, GroupEdits(kids))
  {
    hide Child, Children, Exactly;
    var lists := ChildrenAre(kids, "rule-list");
    FirstChild(kids, "groups");
    if Child(kids, "groups").Some? {
      var idx := ChildrenAre(Child(kids, "groups").value.kids, "group");
      var k: nat :| First(kids, "groups", k) && Child(kids, "groups").value == kids[k];
      assert First(kids, "groups", k) && Exactly(kids[k].kids, HasTag("group"), idx) && GroupEdits(kids) == Picked(kids[k].kids, idx);
    }
  }

  /** An edit succeeds if and only if its defaults are permit or deny and every element of a group or
      rule-list reads as a change. */
  lemma SucceedsExactlyWhen(c: Config, nacm: Xml) returns (gs: seq<Xml>, ls: seq<Xml>)
    requires ValidConfig(c)
    ensures GroupElements(nacm.kids, gs) && ListElements(nacm.kids, ls)
    ensures EditSpec(c, nacm).error == "" <==>
      LeavesFine(c, nacm.kids) && (forall k :: 0 <= k < |gs| ==> IsGroupChange(gs[k]))
      && forall k :: 0 <= k < |ls| ==> IsListChange(ls[k])
  {
    hide EditLeaves, EditGroups, EditRuleLists, GroupEdits, Children, IsListChange, IsGroupChange, LeavesFine,
         LeavesAre, GroupElements, ListElements, ListChanges, GroupChanges;
    gs, ls := GroupEdits(nacm.kids), Children(nacm.kids, "rule-list");
    ElementsAre(nacm.kids);
    LeavesRead(c, nacm.kids);
    GroupsRead(c.groups, gs);
    ListsRead(c.ruleLists, ls);
  }

  /** After an edit that succeeds: the leaves it gives are set and the others kept; and for every
      name the last element of that name decides, which deletes the entry or sets exactly what the
      element says, while an entry that no element names is kept. */
  lemma EditedExactly(c: Config, nacm: Xml) returns (gs: seq<Change<seq<string>>>, ls: seq<Change<RuleList>>)
    requires ValidConfig(c) && EditSpec(c, nacm).error == ""
    ensures exists es :: GroupElements(nacm.kids, es) && GroupChanges(es, gs)
    ensures exists es :: ListElements(nacm.kids, es) && ListChanges(es, ls)
    ensures var c' := EditSpec(c, nacm).value;
      LeavesAre(c, nacm.kids, c')
      && (forall name, v :: (name, v) in c'.groups <==> Decided(c.groups, gs, name, v))
      && (forall name, v :: (name, v) in c'.ruleLists <==> Decided(c.ruleLists, ls, name, v))
  {
    hide EditLeaves, EditGroups, EditRuleLists, GroupEdits, Children, LeavesFine, LeavesAre, GroupElements, ListElements,
         ListChanges, GroupChanges, Decided, Unique;
    var c' := EditSpec(c, nacm).value;
    ElementsAre(nacm.kids);
    LeavesRead(c, nacm.kids);
    GroupsRead(c.groups, GroupEdits(nacm.kids));
    ListsRead(c.ruleLists, Children(nacm.kids, "rule-list"));
    gs :| GroupChanges(GroupEdits(nacm.kids), gs) && c'.groups == Apply(c.groups, gs);
    ls :| ListChanges(Children(nacm.kids, "rule-list"), ls) && c'.ruleLists == Apply(c.ruleLists, ls);
    forall name, v ensures (name, v) in c'.groups <==> Decided(c.groups, gs, name, v) { LastDecides(c.groups, gs, name, v); }
    forall name, v ensures (name, v) in c'.ruleLists <==> Decided(c.ruleLists, ls, name, v) { LastDecides(c.ruleLists, ls, name, v); }
    assert LeavesAre(c, nacm.kids, c') by { SameLeaves(c, nacm.kids, EditLeaves(c, nacm.kids).value, c'); }
  }

  lemma SameLeaves(c: Config, kids: seq<Xml>, a: Config, b: Config)
    requires LeavesAre(c, kids, a) && b == a.(groups := b.groups, ruleLists := b.ruleLists)
    ensures LeavesAre(c, kids, b)
  {
    hide SwitchIs, DefaultIs;
    assert b.enabled == a.enabled && b.externalGroups == a.externalGroups;
  }
}
