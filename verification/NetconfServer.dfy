/** engine/netconf_agent.py, handle_rpc and apply_edit_config: what one NETCONF request does to
    a device. */
module NetconfServer {
  import opened Text
  import opened OrderedDict
  import opened Nacm
  import opened NacmCheck
  import Ipv4

  datatype Iface = Iface(status: string, desc: string, ip: string, prefix: nat)

  datatype DeviceState = DeviceState(config: Config, counters: Counters, interfaces: Dict<Iface>, locals: seq<LocalUser>)

  /** The replies of handle_rpc, without the message id and the error texts. */
  datatype Reply = Done | NacmData(tree: Xml) | InterfaceData(interfaces: Dict<Iface>) | NoData | Failed(tag: string)

  // ---------- edit-config on ietf-interfaces ----------

  function WithLeaves(info: Iface, kids: seq<Xml>): Iface {
    var en := ChildText(kids, "enabled");
    var i1 := if en == "" then info
              else info.(status := if Lower(Strip(en)) == "true" then "up" else "down");
    match Child(kids, "description")
    case None => i1
    case Some(d) => i1.(desc := Strip(d.text))
  }

  function WithAddress(info: Iface, kids: seq<Xml>): Iface {
    match Child(kids, "ipv4")
    case None => info
    case Some(v4) =>
      match Child(v4.kids, "address")
      case None => info
      case Some(addr) =>
        var ip, mask := ChildText(addr.kids, "ip"), ChildText(addr.kids, "netmask");
        var i1 := if ip == "" then info else info.(ip := Strip(ip));
        if mask == "" then i1 else i1.(prefix := Ipv4.MaskToPrefix(Strip(mask)))
  }

  function EditIface(ifs: Dict<Iface>, e: Xml): Edited<Dict<Iface>> {
    var name := Strip(ChildText(e.kids, "name"));
    if name == "" then Edited(ifs, "interface name is required")
    else
      match IndexOf(ifs, name)
      case None => Edited(ifs, "interface " + name + " does not exist")
      case Some(i) =>
        var info := ifs[i].1;
        var info' := if e.op == "delete" then info.(ip := "", prefix := 0)
                     else WithAddress(WithLeaves(info, e.kids), e.kids);
        Edited(ifs[i := (ifs[i].0, info')], "")
  }

  function EditIfaces(ifs: Dict<Iface>, es: seq<Xml>): Edited<Dict<Iface>>
    decreases |es|
  {
    if es == [] then Edited(ifs, "")
    else
      var e := EditIface(ifs, es[0]);
      if e.error != "" then e else EditIfaces(e.value, es[1..])
  }

  function EditConfigSpec(ifs: Dict<Iface>, config: Xml): Edited<Dict<Iface>> {
    match Child(config.kids, "interfaces")
    case None => Edited(ifs, "only ietf-interfaces is supported by this device")
    case Some(e) => EditIfaces(ifs, Children(e.kids, "interface"))
  }

  predicate Known(ifs: Dict<Iface>, e: Xml) { NameOf(e) != "" && NameOf(e) in Keys(ifs) }

  lemma EditIfaceTouches(ifs: Dict<Iface>, e: Xml)
    ensures var r := EditIface(ifs, e);
      Keys(r.value) == Keys(ifs) && |r.value| == |ifs| && (r.error == "" <==> Known(ifs, e))
      && (r.error != "" ==> r.value == ifs)
      && forall i :: 0 <= i < |ifs| && ifs[i].0 != NameOf(e) ==> r.value[i] == ifs[i]
  {
    hide WithAddress, WithLeaves, Text.Strip, ChildText;
    var r := EditIface(ifs, e);
    KeysAt(ifs);
    KeysAt(r.value);
    assert "interface name is required" != "" && forall name: string :: |"interface " + name + " does not exist"| > 0;
    assert Keys(r.value) == Keys(ifs);
  }

  /** edit-config applies exactly the interface edits before the first one that names no existing
      interface: it succeeds if and only if there is none, never adds, drops or renames an
      interface, leaves the interfaces it does not name alone, and keeps what it has done when it
      stops. */
  lemma {:induction false} EditStopsAtFirstUnknown(ifs: Dict<Iface>, es: seq<Xml>) returns (k: nat)
    ensures var r := EditIfaces(ifs, es);
      k <= |es| && (forall j :: 0 <= j < k ==> Known(ifs, es[j])) && (k < |es| ==> !Known(ifs, es[k]))
      && (r.error == "" <==> k == |es|) && EditIfaces(ifs, es[..k]) == Edited(r.value, "")
      && Keys(r.value) == Keys(ifs) && |r.value| == |ifs|
      && forall i :: 0 <= i < |ifs| && (forall e :: e in es ==> NameOf(e) != ifs[i].0) ==> r.value[i] == ifs[i]
    decreases |es|
  {
    hide EditIface, NameOf;
    k := 0;
    if es != [] {
      EditIfaceTouches(ifs, es[0]);
      var first := EditIface(ifs, es[0]);
      assert es[0] in es;
      if first.error == "" {
        KeysAt(ifs);
        KeysAt(first.value);
        var m := EditStopsAtFirstUnknown(first.value, es[1..]);
        k := m + 1;
        assert es[..k][0] == es[0] && es[..k][1..] == es[1..][..m];
        assert forall j :: 0 < j < k ==> es[j] == es[1..][j - 1];
      } else {
        assert es[..0] == [];
      }
    } else {
      assert es[..0] == [];
    }
  }

  // ---------- the decision skeleton of handle_rpc ----------

  /** What a request asks for, before any permission is looked at. */
  datatype Request = Answer(reply: Reply) | Read(nacm: bool) | EditNacm(tree: Xml) | EditInterfaces(config: Xml)

  function ReadRequest(source: Option<Xml>, filter: Option<Xml>): Request {
    if source.Some? && Child(source.value.kids, "running").None? then Answer(Failed("operation-not-supported"))
    else if filter.Some? && filter.value.kids != [] then
      if Child(filter.value.kids, "nacm").Some? then Read(true)
      else if Child(filter.value.kids, "interfaces").None? then Answer(NoData)
      else Read(false)
    else Read(false)
  }

  function EditRequest(edit: Xml): Request {
    var target := Child(edit.kids, "target");
    if target.Some? && Child(target.value.kids, "running").None? then Answer(Failed("operation-not-supported"))
    else
      match Child(edit.kids, "config")
      case None => Answer(Failed("missing-element"))
      case Some(config) =>
        match Child(config.kids, "nacm")
        case Some(tree) => EditNacm(tree)
        case None => EditInterfaces(config)
  }

  /** rpc is None when the message is no XML. */
  function Classify(rpc: Option<Xml>): Request {
    match rpc
    case None => Answer(Failed("malformed-message"))
    case Some(r) =>
      if Child(r.kids, "close-session").Some? || Child(r.kids, "kill-session").Some? then Answer(Done)
      else if Child(r.kids, "get-config").Some? then
        var req := Child(r.kids, "get-config").value;
        ReadRequest(Child(req.kids, "source"), Child(req.kids, "filter"))
      else if Child(r.kids, "get").Some? then
        ReadRequest(None, Child(Child(r.kids, "get").value.kids, "filter"))
      else if Child(r.kids, "edit-config").Some? then EditRequest(Child(r.kids, "edit-config").value)
      else Answer(Failed("operation-not-supported"))
  }

  const NACM_MODULE := "ietf-netconf-acm"
  const IF_MODULE := "ietf-interfaces"

  /** The permission a request needs, if any. */
  function Needed(request: Request, user: string): Option<Query> {
    match request
    case Answer(_) => None
    case Read(nacm) => Some(if nacm then Query(user, "read", NACM_MODULE, "/nacm") else Query(user, "read", IF_MODULE, "/interfaces"))
    case EditNacm(_) => Some(Query(user, "update", NACM_MODULE, "/nacm"))
    case EditInterfaces(_) => Some(Query(user, "update", IF_MODULE, "/interfaces"))
  }

  function Reported(error: string): Reply { if error == "" then Done else Failed("invalid-value") }

  datatype Handled = Handled(state: DeviceState, reply: Reply)

  /** The device after one request, decided by the declarative access rules. */
  ghost function HandleSpec(d: DeviceState, rpc: Option<Xml>, user: string): Handled {
    var request := Classify(rpc);
    match Needed(request, user)
    case None => Handled(d, request.reply)
    case Some(q) =>
      var d' := d.(counters := Counted(d.config, d.counters, d.locals, q));
      if !Permitted(d.config, d.locals, q) then Handled(d', Failed("access-denied"))
      else
        match request
        case Read(nacm) => Handled(d', if nacm then NacmData(BuildTree(d'.config, d'.counters)) else InterfaceData(d.interfaces))
        case EditNacm(tree) =>
          var e := EditSpec(d.config, tree);
          Handled(d'.(config := e.value), Reported(e.error))
        case EditInterfaces(config) =>
          var e := EditConfigSpec(d.interfaces, config);
          Handled(d'.(interfaces := e.value), Reported(e.error))
  }

  class Device {
    var config: Config
    var counters: Counters
    var interfaces: Dict<Iface>
    var locals: seq<LocalUser>

    ghost function State(): DeviceState
      reads this
    {
      DeviceState(config, counters, interfaces, locals)
    }

    constructor (interfaces: Dict<Iface>, locals: seq<LocalUser>)
      ensures State() == DeviceState(FRESH, Counters(0, 0, 0), interfaces, locals)
    {
      this.config, this.counters := FRESH, Counters(0, 0, 0);
      this.interfaces, this.locals := interfaces, locals;
    }

    /** nacm_check */
    method Check(q: Query) returns (allowed: bool)
      modifies this`counters
      ensures allowed <==> Permitted(config, locals, q)
      ensures counters == Counted(config, old(counters), locals, q)
    {
      hide IsRecovery, ListApplies, RuleApplies, DefaultFor, IsDataWrite;
      if !config.enabled { return true; }
      if IsRecovery(config, locals, q.user) { return true; }
      var action := FirstMatch(config, q);
      if action.Some? {
        ghost var i, j :| Decides(config, q, i, j) && config.ruleLists[i].1.rules[j].action == action.value;
        forall i', j' | Decides(config, q, i', j') ensures i' == i && j' == j {
          DecidesIsUnique(config, q, i, j, i', j');
        }
        return action.value == PERMIT;
      }
      allowed := DefaultFor(config, q.operation) == PERMIT;
      if !allowed {
        counters := counters.(operations := counters.operations + 1);
        if IsDataWrite(q.operation) {
          counters := counters.(dataWrites := counters.dataWrites + 1);
        }
      }
    }

    /** apply_nacm_edit: the configuration is changed step by step, and an error leaves the
        steps before it in place. */
    method ApplyNacmEdit(nacm: Xml) returns (error: string)
      modifies this`config
      ensures Edited(config, error) == EditSpec(old(config), nacm)
    {
      hide EditGroup, EditRuleList, EditLeaves, GroupEdits, Children;
      ghost var c := config;
      var leaves := EditLeaves(config, nacm.kids);
      config := leaves.value;
      if leaves.error != "" { return leaves.error; }

      assert config.groups == c.groups && config.ruleLists == c.ruleLists by { LeavesOnly(c, nacm.kids); }
      var groups := GroupEdits(nacm.kids);
      assert groups[0..] == groups;
      for i := 0 to |groups|
        invariant EditGroups(config.groups, groups[i..]) == EditGroups(c.groups, groups)
        invariant config == leaves.value.(groups := config.groups)
      {
        assert groups[i..][1..] == groups[i + 1..];
        var e := EditGroup(config.groups, groups[i]);
        config := config.(groups := e.value);
        if e.error != "" { return e.error; }
      }

      var lists := Children(nacm.kids, "rule-list");
      ghost var c' := config;
      assert lists[0..] == lists;
      for i := 0 to |lists|
        invariant EditRuleLists(config.ruleLists, lists[i..]) == EditRuleLists(c.ruleLists, lists)
        invariant config == c'.(ruleLists := config.ruleLists)
      {
        assert lists[i..][1..] == lists[i + 1..];
        var e := EditRuleList(config.ruleLists, lists[i]);
        config := config.(ruleLists := e.value);
        if e.error != "" { return e.error; }
      }
      return "";
    }

    /** apply_edit_config: interface by interface; earlier ones stay changed on an error. */
    method ApplyEditConfig(edit: Xml) returns (error: string)
      modifies this`interfaces
      ensures Edited(interfaces, error) == EditConfigSpec(old(interfaces), edit)
    {
      hide EditIface, Children;
      var top := Child(edit.kids, "interfaces");
      if top.None? { return "only ietf-interfaces is supported by this device"; }
      var es := Children(top.value.kids, "interface");
      assert es[0..] == es;
      for i := 0 to |es|
        invariant EditIfaces(interfaces, es[i..]) == EditIfaces(old(interfaces), es)
      {
        assert es[i..][1..] == es[i + 1..];
        var e := EditIface(interfaces, es[i]);
        interfaces := e.value;
        if e.error != "" { return e.error; }
      }
      return "";
    }

    method HandleRpc(rpc: Option<Xml>, user: string) returns (reply: Reply)
      modifies this
      ensures Handled(State(), reply) == HandleSpec(old(State()), rpc, user)
    {
      hide Classify, Permitted, Counted, EditSpec, EditConfigSpec, BuildTree;
      var request := Classify(rpc);
      var needed := Needed(request, user);
      if needed.None? { return request.reply; }
      var allowed := Check(needed.value);
      if !allowed { return Failed("access-denied"); }
      match request
      case Read(nacm) =>
        reply := if nacm then NacmData(BuildTree(config, counters)) else InterfaceData(interfaces);
      case EditNacm(tree) =>
        var error := ApplyNacmEdit(tree);
        reply := Reported(error);
      case EditInterfaces(edit) =>
        var error := ApplyEditConfig(edit);
        reply := Reported(error);
    }
  }

  lemma LeavesOnly(c: Config, kids: seq<Xml>)
    ensures EditLeaves(c, kids).value.groups == c.groups && EditLeaves(c, kids).value.ruleLists == c.ruleLists
  {
    hide BoolLeaf, DefaultLeaf;
  }

  // ---------- nothing changes without permission ----------

  /** A request changes the interfaces or the access rules only if it is an edit that the
      access rules in force before it permit; and an edit of one never touches the other. */
  lemma ChangesNeedPermission(d: DeviceState, rpc: Option<Xml>, user: string)
    ensures var d', request := HandleSpec(d, rpc, user).state, Classify(rpc);
      d'.locals == d.locals
      && (d'.config != d.config ==> request.EditNacm? && Permitted(d.config, d.locals, Query(user, "update", NACM_MODULE, "/nacm")))
      && (d'.interfaces != d.interfaces ==> request.EditInterfaces? && Permitted(d.config, d.locals, Query(user, "update", IF_MODULE, "/interfaces")))
  {
    hide Classify, Permitted, Counted, EditSpec, EditConfigSpec, BuildTree;
  }

  /** A request is refused with access-denied exactly when it needs a permission it does not have. */
  lemma RefusedExactlyWhenNotPermitted(d: DeviceState, rpc: Option<Xml>, user: string)
    ensures HandleSpec(d, rpc, user).reply == Failed("access-denied") <==>
      var needed := Needed(Classify(rpc), user);
      needed.Some? && !Permitted(d.config, d.locals, needed.value)
  {
    hide Permitted, Counted, EditSpec, EditConfigSpec, BuildTree, Classify;
    AnswersAreNoRefusals(rpc);
    assert "invalid-value" != "access-denied" by { assert "invalid-value"[0] != "access-denied"[0]; }
  }

  lemma AnswersAreNoRefusals(rpc: Option<Xml>)
    ensures Classify(rpc).Answer? ==> Classify(rpc).reply != Failed("access-denied")
  {
    hide Child;
    assert "operation-not-supported"[0] != "access-denied"[0];
    assert "missing-element"[0] != "access-denied"[0] && "malformed-message"[0] != "access-denied"[0];
  }

  // ---------- whole runs of requests ----------

  datatype Message = Message(rpc: Option<Xml>, user: string)

  ghost function Run(d: DeviceState, ms: seq<Message>): DeviceState
    decreases |ms|
  {
    if ms == [] then d else Run(HandleSpec(d, ms[0].rpc, ms[0].user).state, ms[1..])
  }

  ghost predicate ValidDevice(d: DeviceState) {
    ValidConfig(d.config) && d.counters.dataWrites <= d.counters.operations
  }

  /** Whatever any users send, the access configuration stays well formed and denied-operations
      bounds denied-data-writes. */
  lemma {:induction false} RunKeepsValid(d: DeviceState, ms: seq<Message>)
    requires ValidDevice(d)
    ensures ValidDevice(Run(d, ms))
    decreases |ms|
  {
    hide Classify, Permitted, DeniedByDefault, EditSpec, EditConfigSpec, BuildTree, ValidConfig;
    if ms != [] {
      var request := Classify(ms[0].rpc);
      if request.EditNacm? { EditKeepsValid(d.config, request.tree); }
      RunKeepsValid(HandleSpec(d, ms[0].rpc, ms[0].user).state, ms[1..]);
    }
  }

  /** In particular every run from a fresh device stays valid. */
  lemma FreshRunsStayValid(interfaces: Dict<Iface>, locals: seq<LocalUser>, ms: seq<Message>)
    ensures ValidDevice(Run(DeviceState(FRESH, Counters(0, 0, 0), interfaces, locals), ms))
  {
    hide Run, ValidConfig;
    FreshIsValid();
    RunKeepsValid(DeviceState(FRESH, Counters(0, 0, 0), interfaces, locals), ms);
  }

  lemma {:induction false} RunSnoc(d: DeviceState, ms: seq<Message>, m: Message)
    ensures Run(d, ms + [m]) == HandleSpec(Run(d, ms), m.rpc, m.user).state
    decreases |ms|
  {
    hide HandleSpec;
    if ms == [] {
      assert [] + [m] == [m] && [m][1..] == [];
      assert Run(HandleSpec(d, m.rpc, m.user).state, []) == HandleSpec(d, m.rpc, m.user).state;
    } else {
      assert (ms + [m])[1..] == ms[1..] + [m];
      RunSnoc(HandleSpec(d, ms[0].rpc, ms[0].user).state, ms[1..], m);
    }
  }

  // ---------- who changed it, and what was counted ----------

  /** What message k of a run needed, and the device when it came. */
  function NeededAt(ms: seq<Message>, k: nat): Option<Query>
    requires k < |ms|
  {
    Needed(Classify(ms[k].rpc), ms[k].user)
  }

  ghost predicate PermittedAt(d: DeviceState, ms: seq<Message>, k: nat) {
    k < |ms| && NeededAt(ms, k).Some? && var s := Run(d, ms[..k]); Permitted(s.config, s.locals, NeededAt(ms, k).value)
  }

  ghost predicate DeniedAt(d: DeviceState, ms: seq<Message>, k: nat) {
    k < |ms| && NeededAt(ms, k).Some? && var s := Run(d, ms[..k]); DeniedByDefault(s.config, s.locals, NeededAt(ms, k).value)
  }

  ghost predicate WriteDeniedAt(d: DeviceState, ms: seq<Message>, k: nat) {
    DeniedAt(d, ms, k) && IsDataWrite(NeededAt(ms, k).value.operation)
  }

  /** After any run a changed access configuration, or a changed interface, goes back to an edit of
      it that the access rules in force when it came permitted. */
  lemma {:induction false} RunChangesNeedPermission(d: DeviceState, ms: seq<Message>)
    ensures Run(d, ms).locals == d.locals
    ensures Run(d, ms).config != d.config ==> exists k: nat :: PermittedAt(d, ms, k) && Classify(ms[k].rpc).EditNacm?
    ensures Run(d, ms).interfaces != d.interfaces ==> exists k: nat :: PermittedAt(d, ms, k) && Classify(ms[k].rpc).EditInterfaces?
    decreases |ms|
  {
    hide HandleSpec, Classify, Permitted;
    if ms != [] {
      var p, m := ms[..|ms| - 1], ms[|ms| - 1];
      assert p + [m] == ms;
      RunSnoc(d, p, m);
      RunChangesNeedPermission(d, p);
      ChangesNeedPermission(Run(d, p), m.rpc, m.user);
      forall k: nat | PermittedAt(d, p, k) ensures PermittedAt(d, ms, k) && ms[k] == p[k] { assert ms[..k] == p[..k]; }
      if Classify(m.rpc).EditNacm? || Classify(m.rpc).EditInterfaces? {
        assert PermittedAt(d, ms, |p|) <==> Permitted(Run(d, p).config, Run(d, p).locals, Needed(Classify(m.rpc), m.user).value);
      }
    }
  }

  lemma DenialsSnoc(d: DeviceState, p: seq<Message>, m: Message)
    ensures var ms := p + [m];
      forall k: nat :: k != |p| ==> DeniedAt(d, ms, k) == DeniedAt(d, p, k) && WriteDeniedAt(d, ms, k) == WriteDeniedAt(d, p, k)
  {
    hide DeniedByDefault, Run, Classify;
    var ms := p + [m];
    forall k: nat | k != |p| ensures DeniedAt(d, ms, k) == DeniedAt(d, p, k) && WriteDeniedAt(d, ms, k) == WriteDeniedAt(d, p, k) {
      if k < |p| { assert ms[..k] == p[..k] && ms[k] == p[k]; }
    }
  }

  lemma OneMoreDenial(d: DeviceState, p: seq<Message>, m: Message)
    ensures var n, n', ms := Run(d, p).counters, HandleSpec(Run(d, p), m.rpc, m.user).state.counters, p + [m];
      n'.operations == n.operations + (if DeniedAt(d, ms, |p|) then 1 else 0)
      && n'.dataWrites == n.dataWrites + (if WriteDeniedAt(d, ms, |p|) then 1 else 0)
      && n'.notifications == n.notifications
  {
    hide DeniedByDefault, Run, Classify, Permitted, EditSpec, EditConfigSpec, BuildTree, IsDataWrite;
    assert (p + [m])[..|p|] == p;
  }

  /** Over any run of requests, edits of the access rules included: denied-operations grows by the
      number of requests whose permission the configuration then in force denies by default,
      denied-data-writes by those among them that write, and denied-notifications never moves. */
  lemma {:induction false} CountersCountDefaultDenials(d: DeviceState, ms: seq<Message>)
    ensures var n, n' := d.counters, Run(d, ms).counters;
      n'.operations == n.operations + |set k: nat | k < |ms| && DeniedAt(d, ms, k)|
      && n'.dataWrites == n.dataWrites + |set k: nat | k < |ms| && WriteDeniedAt(d, ms, k)|
      && n'.notifications == n.notifications
    decreases |ms|
  {
    hide HandleSpec, DeniedAt, WriteDeniedAt;
    if ms != [] {
      var p, m := ms[..|ms| - 1], ms[|ms| - 1];
      assert p + [m] == ms;
      RunSnoc(d, p, m);
      CountersCountDefaultDenials(d, p);
      DenialsSnoc(d, p, m);
      OneMoreDenial(d, p, m);
      var all, before := set k: nat | k < |ms| && DeniedAt(d, ms, k), set k: nat | k < |p| && DeniedAt(d, p, k);
      assert all == before + (if DeniedAt(d, ms, |p|) then {|p|} else {});
      var writes, wrote := set k: nat | k < |ms| && WriteDeniedAt(d, ms, k), set k: nat | k < |p| && WriteDeniedAt(d, p, k);
      assert writes == wrote + (if WriteDeniedAt(d, ms, |p|) then {|p|} else {});
    }
  }

  /** On a fresh device (writes denied by default, no rule-list) nobody but a recovery user can
      ever change anything: after any run of requests by others, interfaces and access rules are
      as they were. This is the lock-out the recovery session exists for. */
  lemma {:induction false} OnlyRecoveryUsersUnlock(d: DeviceState, ms: seq<Message>)
    requires d.config == FRESH
    requires forall m :: m in ms ==> !IsRecovery(FRESH, d.locals, m.user)
    ensures var d' := Run(d, ms);
      d'.config == FRESH && d'.interfaces == d.interfaces && d'.locals == d.locals
    decreases |ms|
  {
    hide Classify, Permitted, Counted, EditSpec, EditConfigSpec, BuildTree, IsRecovery;
    if ms != [] {
      var m := ms[0];
      assert m in ms;
      ChangesNeedPermission(d, m.rpc, m.user);
      FreshDeniesUpdates(d.locals, Query(m.user, "update", NACM_MODULE, "/nacm"));
      FreshDeniesUpdates(d.locals, Query(m.user, "update", IF_MODULE, "/interfaces"));
      OnlyRecoveryUsersUnlock(HandleSpec(d, m.rpc, m.user).state, ms[1..]);
    }
  }

  lemma FreshDeniesUpdates(locals: seq<LocalUser>, q: Query)
    requires q.operation == "update" && !IsRecovery(FRESH, locals, q.user)
    ensures !Permitted(FRESH, locals, q)
  {}
}
