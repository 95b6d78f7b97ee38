/** engine/netconf_agent.py, handle_rpc: what a client's request gets. */
module RpcRequests {
  import opened Text
  import opened Nacm
  import opened NacmCheck
  import opened NetconfServer

  /** What a filter selects: no filter or an empty one, the access configuration, the interfaces, or
      something that this device does not have. */
  datatype Subtree = Unfiltered | EmptyFilter | TheNacm | TheInterfaces | Elsewhere(tag: string)

  function Node(tag: string, kids: seq<Xml>): Xml { Xml(tag, "", "", kids) }

  function FilterOf(what: Subtree): seq<Xml> {
    match what
    case Unfiltered => []
    case EmptyFilter => [Node("filter", [])]
    case TheNacm => [Node("filter", [Node("nacm", [])])]
    case TheInterfaces => [Node("filter", [Node("interfaces", [])])]
    case Elsewhere(tag) => [Node("filter", [Node(tag, [])])]
  }

  function Get(what: Subtree): Xml { Node("rpc", [Node("get", FilterOf(what))]) }

  function GetConfig(datastore: string, what: Subtree): Xml {
    Node("rpc", [Node("get-config", [Node("source", [Node(datastore, [])])] + FilterOf(what))])
  }

  function Edit(datastore: string, config: seq<Xml>): Xml {
    Node("rpc", [Node("edit-config", [Node("target", [Node(datastore, [])]), Node("config", config)])])
  }

  ghost function Read(d: DeviceState, user: string, what: Subtree): Handled {
    var q := if what.TheNacm? then Query(user, "read", "ietf-netconf-acm", "/nacm")
             else Query(user, "read", "ietf-interfaces", "/interfaces");
    var d' := d.(counters := Counted(d.config, d.counters, d.locals, q));
    if what.Elsewhere? then Handled(d, NoData)
    else if !Permitted(d.config, d.locals, q) then Handled(d', Failed("access-denied"))
    else if what.TheNacm? then Handled(d', NacmData(BuildTree(d.config, d'.counters)))
    else Handled(d', InterfaceData(d.interfaces))
  }

  lemma OneChild(tag: string, e: Xml)
    ensures Child([e], tag) == if e.tag == tag then Some(e) else None
  {
    assert [e][1..] == [];
  }

  lemma TwoChildren(tag: string, a: Xml, b: Xml)
    ensures Child([a, b], tag) == if a.tag == tag then Some(a) else if b.tag == tag then Some(b) else None
  {
    assert [a, b][1..] == [b];
    OneChild(tag, b);
  }

  lemma NoChild(tag: string)
    ensures Child([], tag) == None
  {}

  /** get and get-config on the running datastore give the access configuration where it is asked for
      and the interfaces otherwise, to a user who may read them, nothing from elsewhere; another
      datastore is refused before anything is looked at. */
  lemma ReadsAreAnswered(d: DeviceState, user: string, datastore: string, what: Subtree)
    requires what.Elsewhere? ==> what.tag != "nacm" && what.tag != "interfaces"
    ensures HandleSpec(d, Some(Get(what)), user) == Read(d, user, what)
    ensures HandleSpec(d, Some(GetConfig(datastore, what)), user) ==
      if datastore != "running" then Handled(d, Failed("operation-not-supported")) else Read(d, user, what)
  {
    hide Child, Permitted, Counted, BuildTree;
    var filter := FilterOf(what);
    var source := Node("source", [Node(datastore, [])]);
    FilterIsFound(what);
    OperationIs("get", filter);
    OperationIs("get-config", [source] + filter);
    OneChild("running", Node(datastore, []));
    ReadIs(source, what);
  }

  lemma OperationIs(name: string, kids: seq<Xml>)
    ensures forall tag :: Child([Node(name, kids)], tag) == if name == tag then Some(Node(name, kids)) else None
  {
    hide Child;
    forall tag ensures Child([Node(name, kids)], tag) == if name == tag then Some(Node(name, kids)) else None {
      OneChild(tag, Node(name, kids));
    }
  }

  lemma FilterIsFound(what: Subtree)
    ensures Child(FilterOf(what), "filter") == if what.Unfiltered? then None else Some(FilterOf(what)[0])
    ensures what.TheNacm? || what.TheInterfaces? || what.Elsewhere? ==>
      var tag := if what.TheNacm? then "nacm" else if what.TheInterfaces? then "interfaces" else what.tag;
      forall t :: Child(FilterOf(what)[0].kids, t) == if t == tag then Some(Node(tag, [])) else None
  {
    hide Child;
    NoChild("filter");
    if !what.Unfiltered? { OneChild("filter", FilterOf(what)[0]); }
    if what.TheNacm? || what.TheInterfaces? || what.Elsewhere? {
      OperationIs(if what.TheNacm? then "nacm" else if what.TheInterfaces? then "interfaces" else what.tag, []);
    }
  }

  lemma ReadIs(source: Xml, what: Subtree)
    requires source.tag == "source"
    ensures Child([source] + FilterOf(what), "source") == Some(source)
    ensures Child([source] + FilterOf(what), "filter") == Child(FilterOf(what), "filter")
  {
    assert ([source] + FilterOf(what))[1..] == FilterOf(what);
  }

  /** edit-config on the running datastore edits the access configuration where the config has one and
      the interfaces otherwise, for a user who may update them, and answers whether the edit went
      through; another datastore is refused. */
  lemma EditsAreAnswered(d: DeviceState, user: string, datastore: string, e: Xml)
    ensures HandleSpec(d, Some(Edit(datastore, [e])), user) ==
      if datastore != "running" then Handled(d, Failed("operation-not-supported"))
      else
        var q := if e.tag == "nacm" then Query(user, "update", "ietf-netconf-acm", "/nacm")
                 else Query(user, "update", "ietf-interfaces", "/interfaces");
        var d' := d.(counters := Counted(d.config, d.counters, d.locals, q));
        if !Permitted(d.config, d.locals, q) then Handled(d', Failed("access-denied"))
        else if e.tag == "nacm" then
          var r := EditSpec(d.config, e);
          Handled(d'.(config := r.value), if r.error == "" then Done else Failed("invalid-value"))
        else
          var r := EditConfigSpec(d.interfaces, Node("config", [e]));
          Handled(d'.(interfaces := r.value), if r.error == "" then Done else Failed("invalid-value"))
  {
    hide Child, Permitted, Counted, EditSpec, EditConfigSpec;
    var target, config := Node("target", [Node(datastore, [])]), Node("config", [e]);
    OperationIs("edit-config", [target, config]);
    TwoChildren("target", target, config);
    TwoChildren("config", target, config);
    OneChild("running", Node(datastore, []));
    OneChild("nacm", e);
  }

  /** A request to close or kill a session is answered ok and changes nothing, whatever else it asks
      for; an unknown operation and a message that is no XML are refused. */
  lemma OthersAreAnswered(d: DeviceState, user: string, op: Xml)
    ensures HandleSpec(d, None, user) == Handled(d, Failed("malformed-message"))
    ensures op.tag == "close-session" || op.tag == "kill-session" ==>
      HandleSpec(d, Some(Node("rpc", [op])), user) == Handled(d, Done)
    ensures op.tag !in ["close-session", "kill-session", "get", "get-config", "edit-config"] ==>
      HandleSpec(d, Some(Node("rpc", [op])), user) == Handled(d, Failed("operation-not-supported"))
  {
    hide Child;
    forall tag ensures Child([op], tag) == if op.tag == tag then Some(op) else None { OneChild(tag, op); }
  }
}
