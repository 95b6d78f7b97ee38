/** engine/netconf_agent.py: applying the tree printed by build_nacm_xml with apply_nacm_edit. */
module NacmRoundTrip {
  import opened Text
  import opened OrderedDict
  import opened Nacm

  /** What re-reading a printed configuration makes of it: a blank module name or access
      operations is printed as an empty element and read back as "*". */
  function NormalRule(r: Rule): Rule {
    r.(moduleName := if r.moduleName == "" then ANY else r.moduleName,
       operations := if r.operations == "" then ANY else r.operations)
  }

  function NormalRules(rs: seq<Rule>): seq<Rule> {
    if rs == [] then [] else [NormalRule(rs[0])] + NormalRules(rs[1..])
  }

  function NormalEntry(l: (string, RuleList)): (string, RuleList) {
    (l.0, RuleList(l.1.groups, NormalRules(l.1.rules)))
  }

  function NormalLists(ls: Dict<RuleList>): (r: Dict<RuleList>)
    ensures |r| == |ls|
  {
    if ls == [] then [] else [NormalEntry(ls[0])] + NormalLists(ls[1..])
  }

  function Normal(c: Config): Config { c.(ruleLists := NormalLists(c.ruleLists)) }

  // ---------- children of printed elements ----------

  ghost predicate DistinctTags(fs: seq<Field>) {
    forall i, j :: 0 <= i < j < |fs| ==> fs[i].tag != fs[j].tag
  }

  lemma {:induction false} ChildAppend(a: seq<Xml>, b: seq<Xml>, name: string)
    ensures Child(a + b, name) == if Child(a, name).Some? then Child(a, name) else Child(b, name)
    decreases |a|
  {
    if a == [] {
      assert a + b == b;
    } else {
      assert (a + b)[1..] == a[1..] + b;
      ChildAppend(a[1..], b, name);
    }
  }

  lemma {:induction false} ChildrenAppend(a: seq<Xml>, b: seq<Xml>, name: string)
    ensures Children(a + b, name) == Children(a, name) + Children(b, name)
    decreases |a|
  {
    if a == [] {
      assert a + b == b;
    } else {
      assert (a + b)[1..] == a[1..] + b;
      ChildrenAppend(a[1..], b, name);
    }
  }

  ghost predicate AllTagged(es: seq<Xml>, tag: string) { forall e :: e in es ==> e.tag == tag }

  ghost predicate NoneTagged(es: seq<Xml>, tag: string) { forall e :: e in es ==> e.tag != tag }

  lemma {:induction false} ChildrenOf(es: seq<Xml>, tag: string)
    ensures AllTagged(es, tag) ==> Children(es, tag) == es
    ensures NoneTagged(es, tag) ==> Children(es, tag) == [] && Child(es, tag).None?
  {
    if es != [] {
      assert es[0] in es;
      assert forall e :: e in es[1..] ==> e in es;
      ChildrenOf(es[1..], tag);
    }
  }

  lemma {:induction false} FieldElemsTags(fs: seq<Field>, tag: string)
    requires forall f :: f in fs ==> f.tag != tag
    ensures NoneTagged(FieldElems(fs), tag)
  {
    if fs != [] {
      assert fs[0] in fs;
      FieldElemsTags(fs[1..], tag);
    }
  }

  /** Reading a field of a printed element gives the text that was printed. */
  lemma {:induction false} FieldReads(fs: seq<Field>, i: nat, after: seq<Xml>)
    requires DistinctTags(fs) && i < |fs| && NoneTagged(after, fs[i].tag)
    ensures ChildText(FieldElems(fs) + after, fs[i].tag) == fs[i].text
    decreases |fs|
  {
    var f := fs[0];
    var tag := fs[i].tag;
    var head := if f.always || f.text != "" then [Leaf(f.tag, f.text)] else [];
    var rest := FieldElems(fs[1..]) + after;
    assert FieldElems(fs) + after == head + rest;
    ChildAppend(head, rest, tag);
    if i == 0 {
      FieldElemsTags(fs[1..], tag);
      ChildrenOf(rest, tag);
    } else {
      assert f.tag != tag;
      FieldReads(fs[1..], i - 1, after);
    }
  }

  lemma {:induction false} LeavesAre(tag: string, texts: seq<string>)
    requires AllNamed(texts)
    ensures AllTagged(Leaves(tag, texts), tag) && NonBlankTexts(Leaves(tag, texts)) == texts
  {
    if texts != [] {
      assert texts[0] in texts;
      StripTrims(texts[0]);
      LeavesAre(tag, texts[1..]);
      assert texts == [texts[0]] + texts[1..];
    }
  }

  // ---------- one rule, one group, one rule-list ----------

  lemma RuleReads(r: Rule)
    requires ValidRule(r)
    ensures RuleOf(Xml("rule", "", "", FieldElems(RuleFields(r)))) == Edited(NormalRule(r), "")
  {
    hide Text.Strip, Trimmed, FieldElems, ChildText;
    var fs := RuleFields(r);
    assert FieldElems(fs) + [] == FieldElems(fs);
    FieldReads(fs, 0, []);
    FieldReads(fs, 1, []);
    FieldReads(fs, 2, []);
    FieldReads(fs, 3, []);
    FieldReads(fs, 4, []);
    FieldReads(fs, 5, []);
    FieldReads(fs, 6, []);
    StripTrims(r.name);
    StripTrims(r.moduleName);
    StripTrims(r.rpcName);
    StripTrims(r.path);
    StripTrims(r.operations);
    StripTrims(r.action);
    StripTrims(r.comment);
    assert Trimmed(r.action) by { SomeTrimmed(); }
  }

  lemma {:induction false} RulesRead(rs: seq<Rule>)
    requires forall r :: r in rs ==> ValidRule(r)
    ensures AllTagged(RuleElems(rs), "rule") && RulesOf(RuleElems(rs)) == Edited(NormalRules(rs), "")
  {
    hide RuleOf, NormalRule, RuleFields, ValidRule;
    if rs != [] {
      assert rs[0] in rs;
      RuleReads(rs[0]);
      RulesRead(rs[1..]);
      assert RuleElems(rs)[1..] == RuleElems(rs[1..]);
    }
  }

  lemma NameThen(name: string, rest: seq<Xml>)
    requires Named(name)
    ensures Strip(ChildText([Leaf("name", name)] + rest, "name")) == name
  {
    StripTrims(name);
  }

  lemma GroupReads(gs: Dict<seq<string>>, g: (string, seq<string>))
    requires Named(g.0) && AllNamed(g.1)
    ensures EditGroup(gs, GroupElem(g)) == Edited(Put(gs, g.0, g.1), "")
  {
    hide Text.Strip, ChildText;
    var users := Leaves("user-name", g.1);
    var first := [Leaf("name", g.0)];
    NameThen(g.0, users);
    LeavesAre("user-name", g.1);
    ChildrenAppend(first, users, "user-name");
    ChildrenOf(first, "user-name");
    ChildrenOf(users, "user-name");
    assert [] + users == users;
  }

  lemma RuleListReads(ls: Dict<RuleList>, l: (string, RuleList))
    requires Named(l.0) && ValidRuleList(l.1)
    ensures EditRuleList(ls, RuleListElem(l)) == Edited(Put(ls, l.0, NormalEntry(l).1), "")
  {
    hide Text.Strip, ChildText, ValidRule, RulesOf, RuleElems, NormalRules;
    var first, groups, rules := [Leaf("name", l.0)], Leaves("group", l.1.groups), RuleElems(l.1.rules);
    NameThen(l.0, groups + rules);
    LeavesAre("group", l.1.groups);
    RulesRead(l.1.rules);
    ChildrenAppend(first, groups + rules, "group");
    ChildrenAppend(first, groups + rules, "rule");
    ChildrenAppend(groups, rules, "group");
    ChildrenAppend(groups, rules, "rule");
    ChildrenOf(first, "group");
    ChildrenOf(first, "rule");
    ChildrenOf(groups, "group");
    ChildrenOf(groups, "rule");
    ChildrenOf(rules, "group");
    ChildrenOf(rules, "rule");
    assert [] + (groups + []) == groups && [] + ([] + rules) == rules;
  }

  // ---------- whole lists, on a fresh device and on the device itself ----------

  lemma PutNew<V>(d: Dict<V>, e: (string, V))
    requires forall i :: 0 <= i < |d| ==> d[i].0 != e.0
    ensures Put(d, e.0, e.1) == d + [e]
  {}

  lemma PutAt<V>(d: Dict<V>, i: nat, value: V)
    requires Unique(d) && i < |d|
    ensures Put(d, d[i].0, value) == d[i := (d[i].0, value)]
  {
    assert d == d[..i] + [(d[i].0, d[i].1)] + d[i + 1..];
    IndexOfPrefix(d[..i], d[i].0, d[i].1, d[i + 1..]);
  }

  lemma {:induction false} GroupsOnFresh(gs: Dict<seq<string>>, i: nat)
    requires ValidGroups(gs) && i <= |gs|
    ensures EditGroups(gs[..i], GroupElems(gs[i..])) == Edited(gs, "")
    decreases |gs| - i
  {
    hide EditGroup, GroupElem, AllNamed, Named;
    if i == |gs| {
      assert gs[..i] == gs;
    } else {
      var g := gs[i];
      assert g in gs;
      GroupReads(gs[..i], g);
      PutNew(gs[..i], g);
      assert gs[..i] + [g] == gs[..i + 1] && gs[i..][1..] == gs[i + 1..];
      GroupsOnFresh(gs, i + 1);
    }
  }

  lemma {:induction false} GroupsOnItself(gs: Dict<seq<string>>, i: nat)
    requires ValidGroups(gs) && i <= |gs|
    ensures EditGroups(gs, GroupElems(gs[i..])) == Edited(gs, "")
    decreases |gs| - i
  {
    hide EditGroup, GroupElem, AllNamed, Named;
    if i < |gs| {
      var g := gs[i];
      assert g in gs;
      GroupReads(gs, g);
      PutAt(gs, i, g.1);
      assert gs[i := (g.0, g.1)] == gs && gs[i..][1..] == gs[i + 1..];
      GroupsOnItself(gs, i + 1);
    }
  }

  lemma {:induction false} NormalListsAt(ls: Dict<RuleList>)
    ensures forall i :: 0 <= i < |ls| ==> NormalLists(ls)[i] == NormalEntry(ls[i])
  {
    if ls != [] { NormalListsAt(ls[1..]); }
  }

  /** The lists part way: the first i entries rewritten, and on the device itself the rest as they were. */
  function Held(ls: Dict<RuleList>, i: nat, itself: bool): Dict<RuleList>
    requires i <= |ls|
  {
    NormalLists(ls)[..i] + (if itself then ls[i..] else [])
  }

  lemma HeldStep(ls: Dict<RuleList>, i: nat, itself: bool)
    requires Unique(ls) && i < |ls|
    ensures Put(Held(ls, i, itself), ls[i].0, NormalEntry(ls[i]).1) == Held(ls, i + 1, itself)
  {
    hide NormalLists, Put, NormalRules;
    var held := Held(ls, i, itself);
    NormalListsAt(ls);
    assert forall j :: 0 <= j < |held| ==> held[j].0 == ls[j].0;
    if itself {
      PutAt(held, i, NormalEntry(ls[i]).1);
      assert held[i := NormalLists(ls)[i]] == Held(ls, i + 1, itself);
    } else {
      PutNew(held, NormalEntry(ls[i]));
      assert held + [NormalLists(ls)[i]] == Held(ls, i + 1, itself);
    }
  }

  lemma {:induction false} ListsOnto(ls: Dict<RuleList>, i: nat, itself: bool)
    requires ValidRuleLists(ls) && i <= |ls|
    ensures EditRuleLists(Held(ls, i, itself), RuleListElems(ls[i..])) == Edited(NormalLists(ls), "")
    decreases |ls| - i
  {
    hide EditRuleList, RuleListElem, ValidRuleList, Named, NormalEntry, Held, Put;
    if i == |ls| {
      HeldAll(ls, itself);
    } else {
      var l := ls[i];
      assert l in ls && ls[i..][0] == l && ls[i..][1..] == ls[i + 1..];
      RuleListReads(Held(ls, i, itself), l);
      HeldStep(ls, i, itself);
      ListsOnto(ls, i + 1, itself);
    }
  }

  lemma HeldAll(ls: Dict<RuleList>, itself: bool)
    ensures Held(ls, |ls|, itself) == NormalLists(ls)
    ensures Held(ls, 0, itself) == if itself then ls else []
  {
    hide NormalLists;
    assert NormalLists(ls)[..|ls|] == NormalLists(ls);
  }

  // ---------- the whole tree ----------

  lemma DefaultReads(kids: seq<Xml>, name: string, value: string, current: string)
    requires IsAction(value) && ChildText(kids, name) == value
    ensures DefaultLeaf(kids, name, current) == Edited(value, "")
  {
    hide Text.Strip;
    StripTrims(value);
    SomeTrimmed();
  }

  lemma BoolLeafReads(kids: seq<Xml>, name: string, value: bool, current: bool)
    requires ChildText(kids, name) == BoolText(value)
    ensures BoolLeaf(kids, name, current) == value
  {
    BoolReads(value);
  }

  lemma ConfigTagsDistinct(c: Config, n: Counters)
    ensures DistinctTags(ConfigFields(c, n))
  {
    hide BoolText, Dec;
  }

  lemma LeafTexts(c: Config, n: Counters, after: seq<Xml>)
    requires forall f :: f in ConfigFields(c, n) ==> NoneTagged(after, f.tag)
    ensures var kids := FieldElems(ConfigFields(c, n)) + after;
      ChildText(kids, "enable-nacm") == BoolText(c.enabled)
      && ChildText(kids, "enable-external-groups") == BoolText(c.externalGroups)
      && ChildText(kids, "read-default") == c.readDefault
      && ChildText(kids, "write-default") == c.writeDefault
      && ChildText(kids, "exec-default") == c.execDefault
  {
    hide FieldElems, ChildText, NoneTagged, BoolText, Dec, DistinctTags;
    var fs := ConfigFields(c, n);
    ConfigTagsDistinct(c, n);
    assert fs[0] in fs && fs[1] in fs && fs[2] in fs && fs[3] in fs && fs[4] in fs;
    FieldReads(fs, 0, after);
    FieldReads(fs, 1, after);
    FieldReads(fs, 2, after);
    FieldReads(fs, 3, after);
    FieldReads(fs, 4, after);
  }

  lemma LeavesRead(c: Config, d: Config, n: Counters, after: seq<Xml>)
    requires ValidConfig(c)
    requires forall f :: f in ConfigFields(c, n) ==> NoneTagged(after, f.tag)
    ensures EditLeaves(d, FieldElems(ConfigFields(c, n)) + after)
         == Edited(c.(groups := d.groups, ruleLists := d.ruleLists), "")
  {
    hide FieldElems, ChildText, ValidGroups, ValidRuleLists, BoolLeaf, DefaultLeaf, BoolText, ConfigFields, IsAction;
    var kids := FieldElems(ConfigFields(c, n)) + after;
    LeafTexts(c, n, after);
    DefaultReads(kids, "read-default", c.readDefault, d.readDefault);
    DefaultReads(kids, "write-default", c.writeDefault, d.writeDefault);
    DefaultReads(kids, "exec-default", c.execDefault, d.execDefault);
    BoolLeafReads(kids, "enable-nacm", c.enabled, d.enabled);
    BoolLeafReads(kids, "enable-external-groups", c.externalGroups, d.externalGroups);
  }

  lemma BoolReads(b: bool)
    ensures BoolText(b) != "" && (Lower(Strip(BoolText(b))) == "true") == b
  {
    StripTrims(BoolText(b));
    LowerTrue();
  }

  lemma LowerTrue()
    ensures Lower("true") == "true" && Lower("false") == "false"
  {
    assert Lower("") == "";
    assert Lower("e") == "e";
    assert Lower("ue") == "ue";
    assert Lower("rue") == "rue";
    assert Lower("se") == "se";
    assert Lower("lse") == "lse";
    assert Lower("alse") == "alse";
  }

  lemma {:induction false} ListElemsTagged(ls: Dict<RuleList>)
    ensures AllTagged(RuleListElems(ls), "rule-list")
  {
    if ls != [] { ListElemsTagged(ls[1..]); }
  }

  lemma {:induction false} GroupElemsTagged(gs: Dict<seq<string>>)
    ensures AllTagged(GroupElems(gs), "group")
  {
    if gs != [] { GroupElemsTagged(gs[1..]); }
  }

  lemma GroupsOfTree(c: Config, n: Counters)
    ensures GroupEdits(BuildTree(c, n).kids) == GroupElems(c.groups)
  {
    hide FieldElems, GroupElems, RuleListElems, ConfigFields;
    var fields, groups, lists := FieldElems(ConfigFields(c, n)), GroupsPart(c.groups), RuleListElems(c.ruleLists);
    assert NoneTagged(fields, "groups") by { ConfigTags(c, n); }
    ListElemsTagged(c.ruleLists);
    GroupElemsTagged(c.groups);
    ChildrenOf(fields, "groups");
    ChildrenOf(lists, "groups");
    ChildrenOf(GroupElems(c.groups), "group");
    ChildAppend(fields, groups + lists, "groups");
    ChildAppend(groups, lists, "groups");
    if c.groups == [] { NoGroups(); }
  }

  lemma NoGroups()
    ensures GroupElems([]) == [] && Child([], "groups").None?
  {}

  lemma ConfigTags(c: Config, n: Counters)
    ensures NoneTagged(FieldElems(ConfigFields(c, n)), "groups")
    ensures NoneTagged(FieldElems(ConfigFields(c, n)), "rule-list")
  {
    hide FieldElems, BoolText, Dec;
    assert |"groups"| == 6 && |"rule-list"| == 9;
    forall f | f in ConfigFields(c, n) ensures |f.tag| >= 11 {}
    hide ConfigFields;
    FieldElemsTags(ConfigFields(c, n), "groups");
    FieldElemsTags(ConfigFields(c, n), "rule-list");
  }

  lemma ListsOfTree(c: Config, n: Counters)
    ensures Children(BuildTree(c, n).kids, "rule-list") == RuleListElems(c.ruleLists)
  {
    hide FieldElems, GroupElems, RuleListElems, ConfigFields, Children;
    var fields, groups, lists := FieldElems(ConfigFields(c, n)), GroupsPart(c.groups), RuleListElems(c.ruleLists);
    assert NoneTagged(fields, "rule-list") by { ConfigTags(c, n); }
    ListElemsTagged(c.ruleLists);
    ChildrenOf(fields, "rule-list");
    ChildrenOf(groups, "rule-list");
    ChildrenOf(lists, "rule-list");
    ChildrenAppend(fields, groups + lists, "rule-list");
    ChildrenAppend(groups, lists, "rule-list");
    assert [] + ([] + lists) == lists;
  }

  lemma EditPrinted(c: Config, d: Config, n: Counters)
    requires ValidConfig(c)
    requires d == c || (d.groups == [] && d.ruleLists == [])
    ensures EditSpec(d, BuildTree(c, n)) == Edited(Normal(c), "")
  {
    hide FieldElems, EditLeaves, EditGroups, EditRuleLists, GroupElems, RuleListElems, ValidGroups, ValidRuleLists;
    hide NormalLists, Held, Child, Children, GroupEdits;
    var after := GroupsPart(c.groups) + RuleListElems(c.ruleLists);
    ListElemsTagged(c.ruleLists);
    LeavesRead(c, d, n, after);
    GroupsOfTree(c, n);
    ListsOfTree(c, n);
    var gs, ls := c.groups, c.ruleLists;
    assert gs[0..] == gs && ls[0..] == ls && gs[..0] == [];
    HeldAll(ls, d == c);
    ListsOnto(ls, 0, d == c);
    if d == c {
      GroupsOnItself(gs, 0);
    } else {
      GroupsOnFresh(gs, 0);
    }
  }

  /** Applying the printed /nacm tree of a well-formed configuration succeeds and gives the same
      result, Normal(c), on a fresh device and on the device itself; the counters are ignored. */
  lemma PrintedTreeApplies(c: Config, n: Counters)
    requires ValidConfig(c)
    ensures EditSpec(FRESH, BuildTree(c, n)) == Edited(Normal(c), "")
    ensures EditSpec(c, BuildTree(c, n)) == Edited(Normal(c), "")
  {
    EditPrinted(c, FRESH, n);
    EditPrinted(c, c, n);
  }

  /** Every rule says which module and which operations it is about. */
  ghost predicate Explicit(c: Config) {
    forall l, r :: l in c.ruleLists && r in l.1.rules ==> r.moduleName != "" && r.operations != ""
  }

  lemma {:induction false} NormalRulesSame(rs: seq<Rule>)
    ensures NormalRules(rs) == rs <==> forall r :: r in rs ==> r.moduleName != "" && r.operations != ""
  {
    if rs != [] {
      NormalRulesSame(rs[1..]);
      assert rs == [rs[0]] + rs[1..];
      assert NormalRules(rs) == rs <==> (NormalRule(rs[0]) == rs[0] && NormalRules(rs[1..]) == rs[1..]) by {
        assert NormalRules(rs)[0] == NormalRule(rs[0]) && NormalRules(rs)[1..] == NormalRules(rs[1..]);
      }
    }
  }

  lemma NormalSame(c: Config)
    ensures Normal(c) == c <==> Explicit(c)
  {
    hide NormalRules, NormalLists;
    var ls := c.ruleLists;
    NormalListsAt(ls);
    forall i | 0 <= i < |ls|
      ensures NormalLists(ls)[i] == ls[i] <==> forall r :: r in ls[i].1.rules ==> r.moduleName != "" && r.operations != ""
    {
      NormalRulesSame(ls[i].1.rules);
    }
    assert NormalLists(ls) == ls <==> forall i :: 0 <= i < |ls| ==> NormalLists(ls)[i] == ls[i];
  }

  /** The printed tree rebuilds the configuration, on a fresh device and on the device itself,
      exactly when every rule has a non-blank module name and non-blank access operations. */
  lemma RoundTripExactlyWhenExplicit(c: Config, n: Counters)
    requires ValidConfig(c)
    ensures EditSpec(FRESH, BuildTree(c, n)) == Edited(c, "") <==> Explicit(c)
    ensures EditSpec(c, BuildTree(c, n)) == Edited(c, "") <==> Explicit(c)
  {
    hide EditSpec, BuildTree, Explicit, Normal, ValidConfig;
    PrintedTreeApplies(c, n);
    NormalSame(c);
  }

  /** A client can create such a blank module name: its element holds only spaces. */
  const BLANK_RULE := Xml("rule", "", "", [Leaf("name", "r"), Leaf("module-name", " "), Leaf("action", PERMIT)])
  const BLANK_LIST := Xml("rule-list", "", "", [Leaf("name", "l"), BLANK_RULE])
  const BLANK_MODULE := Xml("nacm", "", "", [BLANK_LIST])

  lemma ThreeLeaves(a: Xml, b: Xml, c: Xml, name: string)
    ensures ChildText([a, b, c], name) ==
      if a.tag == name then a.text else if b.tag == name then b.text else if c.tag == name then c.text else ""
  {
    assert [a, b, c][1..] == [b, c] && [b, c][1..] == [c] && [c][1..] == [];
    assert Child([c], name) == if c.tag == name then Some(c) else None;
    assert Child([b, c], name) == if b.tag == name then Some(b) else Child([c], name);
  }

  lemma BlankRule()
    ensures RulesOf([BLANK_RULE]) == Edited([Rule("r", "", "", "", ANY, PERMIT, "")], "")
  {
    hide Text.Strip, ChildText;
    var a, b, c := Leaf("name", "r"), Leaf("module-name", " "), Leaf("action", PERMIT);
    ThreeLeaves(a, b, c, "name");
    ThreeLeaves(a, b, c, "module-name");
    ThreeLeaves(a, b, c, "action");
    ThreeLeaves(a, b, c, "rpc-name");
    ThreeLeaves(a, b, c, "path");
    ThreeLeaves(a, b, c, "access-operations");
    ThreeLeaves(a, b, c, "comment");
    BlankStrips();
    assert BLANK_RULE.kids == [a, b, c];
    assert RuleOf(BLANK_RULE) == Edited(Rule("r", "", "", "", ANY, PERMIT, ""), "");
    var rule := RuleOf(BLANK_RULE).value;
    assert [BLANK_RULE][1..] == [] && RulesOf([]) == Edited([], "");
    assert [rule] + [] == [rule];
  }

  lemma BlankStrips()
    ensures Strip("r") == "r" && Strip("l") == "l" && Strip(PERMIT) == PERMIT && Strip(" ") == ""
  {
    StripTrims("r");
    StripTrims("l");
    StripTrims(PERMIT);
  }

  lemma BlankList()
    ensures EditRuleLists([], [BLANK_LIST]) == Edited([("l", RuleList([], [Rule("r", "", "", "", ANY, PERMIT, "")]))], "")
  {
    hide RulesOf, Text.Strip;
    var name := Leaf("name", "l");
    assert BLANK_LIST.kids == [name] + [BLANK_RULE];
    BlankRule();
    BlankStrips();
    ChildrenAppend([name], [BLANK_RULE], "rule");
    ChildrenAppend([name], [BLANK_RULE], "group");
    ChildrenOf([name], "rule");
    ChildrenOf([name], "group");
    ChildrenOf([BLANK_RULE], "rule");
    ChildrenOf([BLANK_RULE], "group");
    assert Child(BLANK_LIST.kids, "name") == Some(name);
    assert Children(BLANK_LIST.kids, "rule") == [BLANK_RULE] && Children(BLANK_LIST.kids, "group") == [];
    var made := ("l", RuleList([], RulesOf([BLANK_RULE]).value));
    assert [] + [made] == [made];
    assert EditRuleList([], BLANK_LIST) == Edited([("l", RuleList([], [Rule("r", "", "", "", ANY, PERMIT, "")]))], "");
    assert [BLANK_LIST][1..] == [];
  }

  /** So for a reachable configuration the round trip fails: a rule that matched no named
      module comes back as one that matches every module. */
  lemma BlankModuleIsReachable()
    ensures EditSpec(FRESH, BLANK_MODULE).error == "" && !Explicit(EditSpec(FRESH, BLANK_MODULE).value)
  {
    hide EditRuleLists;
    BlankList();
    assert BLANK_MODULE.kids[1..] == [];
    assert Children(BLANK_MODULE.kids, "rule-list") == [BLANK_LIST];
    var lists := EditSpec(FRESH, BLANK_MODULE).value.ruleLists;
    assert lists[0] in lists && lists[0].1.rules[0] in lists[0].1.rules;
  }
}
