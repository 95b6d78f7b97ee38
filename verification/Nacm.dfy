/** engine/netconf_agent.py, NACM (section 3.4 of RFC 8341): the configuration, its XML tree,
    edits applied in place, and the access decision. */
module Nacm {
  import opened Text
  import opened OrderedDict

  // ---------- XML trees ----------

  /** An element with its local tag name, its nc:operation attribute ("" when absent), its text
      ("" when absent; a parsed element never has an empty non-absent text) and its children. */
  datatype Xml = Xml(tag: string, op: string, text: string, kids: seq<Xml>)

  function Leaf(tag: string, text: string): Xml { Xml(tag, "", text, []) }

  /** _child: the first direct child with this local name. */
  function Child(kids: seq<Xml>, name: string): (r: Option<Xml>)
    ensures r.Some? ==> r.value in kids && r.value.tag == name
  {
    if kids == [] then None
    else if kids[0].tag == name then Some(kids[0])
    else Child(kids[1..], name)
  }

  /** _children */
  function Children(kids: seq<Xml>, name: string): seq<Xml> {
    if kids == [] then []
    else if kids[0].tag == name then [kids[0]] + Children(kids[1..], name)
    else Children(kids[1..], name)
  }

  /** The text of the first such child; the code treats a missing child like an empty text. */
  function ChildText(kids: seq<Xml>, name: string): string {
    match Child(kids, name)
    case None => ""
    case Some(e) => e.text
  }

  /** [(e.text or '').strip() for e in ... if it is not blank] */
  function NonBlankTexts(es: seq<Xml>): seq<string> {
    if es == [] then []
    else if Strip(es[0].text) == "" then NonBlankTexts(es[1..])
    else [Strip(es[0].text)] + NonBlankTexts(es[1..])
  }

  // ---------- the configuration ----------

  const PERMIT := "permit"
  const DENY := "deny"
  const ANY := "*"

  datatype Rule = Rule(name: string, moduleName: string, rpcName: string, path: string,
                       operations: string, action: string, comment: string)

  datatype RuleList = RuleList(groups: seq<string>, rules: seq<Rule>)

  datatype Config = Config(enabled: bool, externalGroups: bool,
                           readDefault: string, writeDefault: string, execDefault: string,
                           groups: Dict<seq<string>>, ruleLists: Dict<RuleList>)

  const FRESH := Config(true, true, PERMIT, DENY, PERMIT, [], [])

  /** denied-operations, denied-data-writes, denied-notifications */
  datatype Counters = Counters(operations: nat, dataWrites: nat, notifications: nat)

  // ---------- printing (build_nacm_xml) ----------

  function BoolText(b: bool): string { if b then "true" else "false" }

  /** One child element: always printed, or only when its text is not empty. */
  datatype Field = Field(tag: string, text: string, always: bool)

  function FieldElems(fs: seq<Field>): seq<Xml> {
    if fs == [] then []
    else (if fs[0].always || fs[0].text != "" then [Leaf(fs[0].tag, fs[0].text)] else []) + FieldElems(fs[1..])
  }

  function Leaves(tag: string, texts: seq<string>): seq<Xml> {
    if texts == [] then [] else [Leaf(tag, texts[0])] + Leaves(tag, texts[1..])
  }

  function ConfigFields(c: Config, n: Counters): seq<Field> {
    [Field("enable-nacm", BoolText(c.enabled), true),
     Field("read-default", c.readDefault, true),
     Field("write-default", c.writeDefault, true),
     Field("exec-default", c.execDefault, true),
     Field("enable-external-groups", BoolText(c.externalGroups), true),
     Field("denied-operations", Dec(n.operations), true),
     Field("denied-data-writes", Dec(n.dataWrites), true),
     Field("denied-notifications", Dec(n.notifications), true)]
  }

  function RuleFields(r: Rule): seq<Field> {
    [Field("name", r.name, true), Field("module-name", r.moduleName, true),
     Field("rpc-name", r.rpcName, false), Field("path", r.path, false),
     Field("access-operations", r.operations, true), Field("action", r.action, true),
     Field("comment", r.comment, false)]
  }

  function RuleElems(rs: seq<Rule>): seq<Xml> {
    if rs == [] then [] else [Xml("rule", "", "", FieldElems(RuleFields(rs[0])))] + RuleElems(rs[1..])
  }

  function GroupElem(g: (string, seq<string>)): Xml {
    Xml("group", "", "", [Leaf("name", g.0)] + Leaves("user-name", g.1))
  }

  function GroupElems(gs: Dict<seq<string>>): seq<Xml> {
    if gs == [] then [] else [GroupElem(gs[0])] + GroupElems(gs[1..])
  }

  function RuleListElem(l: (string, RuleList)): Xml {
    Xml("rule-list", "", "", [Leaf("name", l.0)] + (Leaves("group", l.1.groups) + RuleElems(l.1.rules)))
  }

  function RuleListElems(ls: Dict<RuleList>): seq<Xml> {
    if ls == [] then [] else [RuleListElem(ls[0])] + RuleListElems(ls[1..])
  }

  function GroupsPart(gs: Dict<seq<string>>): seq<Xml> {
    if gs == [] then [] else [Xml("groups", "", "", GroupElems(gs))]
  }

  function BuildTree(c: Config, n: Counters): Xml {
    Xml("nacm", "", "", FieldElems(ConfigFields(c, n)) + (GroupsPart(c.groups) + RuleListElems(c.ruleLists)))
  }

  // ---------- editing (apply_nacm_edit) ----------

  /** A configuration after an edit, and the error that ended it ("" when none did): the
      changes made before an error stay. */
  datatype Edited<T> = Edited(value: T, error: string)

  function BoolLeaf(kids: seq<Xml>, name: string, current: bool): bool {
    var text := ChildText(kids, name);
    if text == "" then current else Lower(Strip(text)) == "true"
  }

  predicate IsAction(s: string) { s == PERMIT || s == DENY }

  function DefaultLeaf(kids: seq<Xml>, name: string, current: string): Edited<string> {
    var text := ChildText(kids, name);
    if text == "" then Edited(current, "")
    else if IsAction(Strip(text)) then Edited(Strip(text), "")
    else Edited(current, name + " must be \"permit\" or \"deny\"")
  }

  function EditLeaves(c: Config, kids: seq<Xml>): Edited<Config> {
    var c1 := c.(enabled := BoolLeaf(kids, "enable-nacm", c.enabled),
                 externalGroups := BoolLeaf(kids, "enable-external-groups", c.externalGroups));
    var read := DefaultLeaf(kids, "read-default", c.readDefault);
    if read.error != "" then Edited(c1, read.error)
    else
      var c2 := c1.(readDefault := read.value);
      var write := DefaultLeaf(kids, "write-default", c.writeDefault);
      if write.error != "" then Edited(c2, write.error)
      else
        var c3 := c2.(writeDefault := write.value);
        var exec := DefaultLeaf(kids, "exec-default", c.execDefault);
        if exec.error != "" then Edited(c3, exec.error)
        else Edited(c3.(execDefault := exec.value), "")
  }

  function EditGroup(gs: Dict<seq<string>>, g: Xml): Edited<Dict<seq<string>>> {
    var name := Strip(ChildText(g.kids, "name"));
    if name == "" then Edited(gs, "group name is required")
    else if g.op == "delete" then Edited(Remove(gs, name), "")
    else Edited(Put(gs, name, NonBlankTexts(Children(g.kids, "user-name"))), "")
  }

  function EditGroups(gs: Dict<seq<string>>, es: seq<Xml>): Edited<Dict<seq<string>>>
    decreases |es|
  {
    if es == [] then Edited(gs, "")
    else
      var e := EditGroup(gs, es[0]);
      if e.error != "" then e else EditGroups(e.value, es[1..])
  }

  /** _txt */
  function TextOr(kids: seq<Xml>, name: string, default: string): string {
    var text := ChildText(kids, name);
    if text == "" then default else Strip(text)
  }

  function RuleOf(r: Xml): Edited<Rule> {
    var rule := Rule(Strip(ChildText(r.kids, "name")), TextOr(r.kids, "module-name", ANY),
                     TextOr(r.kids, "rpc-name", ""), TextOr(r.kids, "path", ""),
                     TextOr(r.kids, "access-operations", ANY), Strip(ChildText(r.kids, "action")),
                     TextOr(r.kids, "comment", ""));
    if rule.name == "" then Edited(rule, "rule name is required")
    else if !IsAction(rule.action) then Edited(rule, "rule action must be \"permit\" or \"deny\"")
    else Edited(rule, "")
  }

  function RulesOf(rs: seq<Xml>): Edited<seq<Rule>> {
    if rs == [] then Edited([], "")
    else
      var r := RuleOf(rs[0]);
      if r.error != "" then Edited([], r.error)
      else
        var rest := RulesOf(rs[1..]);
        Edited([r.value] + rest.value, rest.error)
  }

  function EditRuleList(ls: Dict<RuleList>, l: Xml): Edited<Dict<RuleList>> {
    var name := Strip(ChildText(l.kids, "name"));
    if name == "" then Edited(ls, "rule-list name is required")
    else if l.op == "delete" then Edited(Remove(ls, name), "")
    else
      var rules := RulesOf(Children(l.kids, "rule"));
      if rules.error != "" then Edited(ls, rules.error)
      else Edited(Put(ls, name, RuleList(NonBlankTexts(Children(l.kids, "group")), rules.value)), "")
  }

  function EditRuleLists(ls: Dict<RuleList>, es: seq<Xml>): Edited<Dict<RuleList>>
    decreases |es|
  {
    if es == [] then Edited(ls, "")
    else
      var e := EditRuleList(ls, es[0]);
      if e.error != "" then e else EditRuleLists(e.value, es[1..])
  }

  function GroupEdits(kids: seq<Xml>): seq<Xml> {
    match Child(kids, "groups")
    case None => []
    case Some(e) => Children(e.kids, "group")
  }

  function EditSpec(c: Config, nacm: Xml): Edited<Config> {
    var leaves := EditLeaves(c, nacm.kids);
    if leaves.error != "" then leaves
    else
      var groups := EditGroups(c.groups, GroupEdits(nacm.kids));
      var c' := leaves.value.(groups := groups.value);
      if groups.error != "" then Edited(c', groups.error)
      else
        var lists := EditRuleLists(c.ruleLists, Children(nacm.kids, "rule-list"));
        Edited(c'.(ruleLists := lists.value), lists.error)
  }

  // ---------- what every reachable configuration satisfies ----------

  predicate Named(s: string) { s != "" && Trimmed(s) }

  ghost predicate AllNamed(ss: seq<string>) { forall s :: s in ss ==> Named(s) }

  predicate ValidRule(r: Rule) {
    Named(r.name) && Trimmed(r.moduleName) && Trimmed(r.rpcName) && Trimmed(r.path)
    && Trimmed(r.operations) && IsAction(r.action) && Trimmed(r.comment)
  }

  ghost predicate ValidGroups(gs: Dict<seq<string>>) {
    Unique(gs) && forall g :: g in gs ==> Named(g.0) && AllNamed(g.1)
  }

  ghost predicate ValidRuleList(l: RuleList) {
    AllNamed(l.groups) && forall r :: r in l.rules ==> ValidRule(r)
  }

  ghost predicate ValidRuleLists(ls: Dict<RuleList>) {
    Unique(ls) && forall l :: l in ls ==> Named(l.0) && ValidRuleList(l.1)
  }

  ghost predicate ValidConfig(c: Config) {
    IsAction(c.readDefault) && IsAction(c.writeDefault) && IsAction(c.execDefault)
    && ValidGroups(c.groups) && ValidRuleLists(c.ruleLists)
  }

  lemma {:induction false} NonBlankTextsNamed(es: seq<Xml>)
    ensures AllNamed(NonBlankTexts(es))
  {
    if es != [] {
      StripTrims(es[0].text);
      NonBlankTextsNamed(es[1..]);
    }
  }

  lemma {:induction false} EditGroupsValid(gs: Dict<seq<string>>, es: seq<Xml>)
    requires ValidGroups(gs)
    ensures ValidGroups(EditGroups(gs, es).value)
    decreases |es|
  {
    hide Text.Strip, AllNamed, Trimmed, Child;
    if es != [] {
      var g := es[0];
      var name := Strip(ChildText(g.kids, "name"));
      StripTrims(ChildText(g.kids, "name"));
      var users := NonBlankTexts(Children(g.kids, "user-name"));
      NonBlankTextsNamed(Children(g.kids, "user-name"));
      PutKeys(gs, name, users);
      RemoveUnique(gs, name);
      PutMembers(gs, name, users);
      var e := EditGroup(gs, g);
      if e.error == "" { EditGroupsValid(e.value, es[1..]); }
    }
  }

  lemma PutMembers<V>(d: Dict<V>, key: string, value: V)
    ensures forall e :: e in Put(d, key, value) ==> e in d || e == (key, value)
  {}

  lemma RuleOfValid(r: Xml)
    requires RuleOf(r).error == ""
    ensures ValidRule(RuleOf(r).value)
  {
    hide Text.Strip, Trimmed, Child;
    StripTrims(ChildText(r.kids, "name"));
    StripTrims(ChildText(r.kids, "module-name"));
    StripTrims(ChildText(r.kids, "rpc-name"));
    StripTrims(ChildText(r.kids, "path"));
    StripTrims(ChildText(r.kids, "access-operations"));
    StripTrims(ChildText(r.kids, "comment"));
    assert Trimmed("") && Trimmed(ANY) by { SomeTrimmed(); }
  }

  lemma SomeTrimmed()
    ensures Trimmed("") && Trimmed(ANY) && Trimmed(PERMIT) && Trimmed(DENY)
  {}

  lemma {:induction false} RulesOfValid(rs: seq<Xml>)
    ensures RulesOf(rs).error == "" ==> forall r :: r in RulesOf(rs).value ==> ValidRule(r)
    decreases |rs|
  {
    hide RuleOf, ValidRule;
    if rs != [] {
      if RuleOf(rs[0]).error == "" { RuleOfValid(rs[0]); }
      RulesOfValid(rs[1..]);
    }
  }

  lemma {:induction false} EditRuleListsValid(ls: Dict<RuleList>, es: seq<Xml>)
    requires ValidRuleLists(ls)
    ensures ValidRuleLists(EditRuleLists(ls, es).value)
    decreases |es|
  {
    hide Text.Strip, AllNamed, Trimmed, ValidRule, RulesOf, Child;
    if es != [] {
      var l := es[0];
      var name := Strip(ChildText(l.kids, "name"));
      StripTrims(ChildText(l.kids, "name"));
      var entry := RuleList(NonBlankTexts(Children(l.kids, "group")), RulesOf(Children(l.kids, "rule")).value);
      NonBlankTextsNamed(Children(l.kids, "group"));
      RulesOfValid(Children(l.kids, "rule"));
      PutKeys(ls, name, entry);
      RemoveUnique(ls, name);
      PutMembers(ls, name, entry);
      var e := EditRuleList(ls, l);
      if e.error == "" { EditRuleListsValid(e.value, es[1..]); }
    }
  }

  lemma EditLeavesValid(c: Config, kids: seq<Xml>)
    requires ValidConfig(c)
    ensures var c' := EditLeaves(c, kids).value;
      ValidConfig(c') && c'.groups == c.groups && c'.ruleLists == c.ruleLists
  {
    hide ValidGroups, ValidRuleLists, BoolLeaf, ChildText, Text.Strip;
  }

  /** An edit keeps the configuration well formed whatever the tree says, and also when it
      stops at an error halfway through. */
  lemma EditKeepsValid(c: Config, nacm: Xml)
    requires ValidConfig(c)
    ensures ValidConfig(EditSpec(c, nacm).value)
  {
    hide ValidGroups, ValidRuleLists, EditGroups, EditRuleLists, EditLeaves, GroupEdits, Children, IsAction;
    EditLeavesValid(c, nacm.kids);
    EditGroupsValid(c.groups, GroupEdits(nacm.kids));
    EditRuleListsValid(c.ruleLists, Children(nacm.kids, "rule-list"));
  }

  lemma FreshIsValid()
    ensures ValidConfig(FRESH)
  {}

  // ---------- the order of the rule-lists ----------

  function NameOf(e: Xml): string { Strip(ChildText(e.kids, "name")) }

  /** The names that the edits delete. */
  function Deleted(es: seq<Xml>): set<string> { set e | e in es && e.op == "delete" :: NameOf(e) }

  /** The names outside a set, in order. */
  function Without(names: seq<string>, gone: set<string>): seq<string> {
    if names == [] then [] else (if names[0] in gone then [] else [names[0]]) + Without(names[1..], gone)
  }

  lemma {:induction false} WithoutAppend(a: seq<string>, b: seq<string>, gone: set<string>)
    ensures Without(a + b, gone) == Without(a, gone) + Without(b, gone)
  {
    if a == [] {
      assert a + b == b;
    } else {
      assert (a + b)[1..] == a[1..] + b;
      WithoutAppend(a[1..], b, gone);
    }
  }

  lemma WithoutRemove(ls: Dict<RuleList>, name: string, gone: set<string>)
    requires name in gone
    ensures Without(Keys(Remove(ls, name)), gone) == Without(Keys(ls), gone)
  {
    var left := Remove(ls, name);
    KeysAt(ls);
    KeysAt(left);
    match IndexOf(ls, name)
    case None =>
    case Some(i) =>
      var ks := Keys(ls);
      assert ks == ks[..i] + ([name] + ks[i + 1..]) && Keys(left) == ks[..i] + ks[i + 1..];
      WithoutAppend(ks[..i], [name] + ks[i + 1..], gone);
      WithoutAppend([name], ks[i + 1..], gone);
      WithoutAppend(ks[..i], ks[i + 1..], gone);
  }

  /** The rule-lists that no edit deletes keep their relative order, and any new ones follow: neither
      replacing a rule-list nor deleting others changes the order in which lists are searched. */
  lemma {:induction false} EditKeepsOrder(ls: Dict<RuleList>, es: seq<Xml>, gone: set<string>)
    requires Deleted(es) <= gone
    ensures Without(Keys(ls), gone) <= Without(Keys(EditRuleLists(ls, es).value), gone)
    decreases |es|
  {
    hide EditRuleList, NameOf, Without;
    if es != [] {
      assert es[0] in es && forall e :: e in es[1..] ==> e in es;
      EditOneKeepsOrder(ls, es[0], gone);
      var e := EditRuleList(ls, es[0]);
      if e.error == "" { EditKeepsOrder(e.value, es[1..], gone); }
    }
  }

  lemma EditOneKeepsOrder(ls: Dict<RuleList>, e: Xml, gone: set<string>)
    requires e.op == "delete" ==> NameOf(e) in gone
    ensures Without(Keys(ls), gone) <= Without(Keys(EditRuleList(ls, e).value), gone)
  {
    hide Text.Strip, RulesOf, NonBlankTexts, Child, Children, Without;
    var name := NameOf(e);
    if e.op == "delete" {
      WithoutRemove(ls, name, gone);
    } else {
      PutKeys(ls, name, RuleList(NonBlankTexts(Children(e.kids, "group")), RulesOf(Children(e.kids, "rule")).value));
      WithoutAppend(Keys(ls), [name], gone);
    }
  }
}
