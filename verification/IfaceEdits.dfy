/** engine/netconf_agent.py, apply_edit_config: what an edit leaves at an interface. */
module IfaceEdits {
  import opened Text
  import opened OrderedDict
  import opened Nacm
  import opened NacmEdits
  import opened NetconfServer
  import Ipv4

  /** The text of the first child with this tag, if there is one and it is not empty. */
  ghost predicate HasLeaf(kids: seq<Xml>, tag: string, text: string) {
    text != "" && exists k: nat :: First(kids, tag, k) && kids[k].text == text
  }

  /** The children of the first address of the first ipv4 child. */
  ghost predicate HasAddress(kids: seq<Xml>, address: seq<Xml>) {
    exists k: nat, m: nat :: First(kids, "ipv4", k) && First(kids[k].kids, "address", m) && address == kids[k].kids[m].kids
  }

  /** enabled decides the status, description replaces the description even with nothing, and an
      address gives ip and mask; what the element leaves out stays. */
  ghost predicate IfaceIs(kids: seq<Xml>, before: Iface, after: Iface) {
    (forall t :: HasLeaf(kids, "enabled", t) ==> after.status == if Lower(Strip(t)) == "true" then "up" else "down")
    && ((forall t :: !HasLeaf(kids, "enabled", t)) ==> after.status == before.status)
    && (forall k: nat :: First(kids, "description", k) ==> after.desc == Strip(kids[k].text))
    && ((forall k: nat :: !First(kids, "description", k)) ==> after.desc == before.desc)
    && (forall a :: HasAddress(kids, a) ==> AddressIs(a, before, after))
    && ((forall a :: !HasAddress(kids, a)) ==> after.ip == before.ip && after.prefix == before.prefix)
  }

  ghost predicate AddressIs(kids: seq<Xml>, before: Iface, after: Iface) {
    FieldIs(kids, "ip", before.ip, after.ip)
    && (forall t :: HasLeaf(kids, "netmask", t) ==> after.prefix == Ipv4.MaskToPrefix(Strip(t)))
    && ((forall t :: !HasLeaf(kids, "netmask", t)) ==> after.prefix == before.prefix)
  }

  lemma LeafReads(kids: seq<Xml>, tag: string)
    ensures forall t :: HasLeaf(kids, tag, t) <==> t == ChildText(kids, tag) != ""
  {
    hide Child;
    FirstChild(kids, tag);
  }

  lemma LeavesRead(before: Iface, kids: seq<Xml>)
    ensures var after := WithLeaves(before, kids);
      (forall t :: HasLeaf(kids, "enabled", t) ==> after.status == if Lower(Strip(t)) == "true" then "up" else "down")
      && ((forall t :: !HasLeaf(kids, "enabled", t)) ==> after.status == before.status)
      && (forall k: nat :: First(kids, "description", k) ==> after.desc == Strip(kids[k].text))
      && ((forall k: nat :: !First(kids, "description", k)) ==> after.desc == before.desc)
      && after.ip == before.ip && after.prefix == before.prefix
  {
    hide Child, Strip, Lower, HasLeaf, ChildText;
    var t := ChildText(kids, "enabled");
    LeafReads(kids, "enabled");
    assert t != "" ==> HasLeaf(kids, "enabled", t);
    FirstChild(kids, "description");
  }

  lemma AddressReads(before: Iface, kids: seq<Xml>)
    ensures var after := WithAddress(before, kids);
      (forall a :: HasAddress(kids, a) ==> AddressIs(a, before, after))
      && ((forall a :: !HasAddress(kids, a)) ==> after.ip == before.ip && after.prefix == before.prefix)
      && after.status == before.status && after.desc == before.desc
  {
    hide Child, Strip, HasLeaf, ChildText, FieldIs, Ipv4.MaskToPrefix;
    FirstChild(kids, "ipv4");
    match Child(kids, "ipv4")
    case None =>
    case Some(v4) =>
      FirstChild(v4.kids, "address");
      match Child(v4.kids, "address")
      case None =>
      case Some(addr) =>
        var t := ChildText(addr.kids, "netmask");
        LeafReads(addr.kids, "netmask");
        assert t != "" ==> HasLeaf(addr.kids, "netmask", t);
        FieldIsTextOr(addr.kids, "ip", before.ip);
        assert AddressIs(addr.kids, before, WithAddress(before, kids));
        var k: nat :| First(kids, "ipv4", k) && v4 == kids[k];
        var m: nat :| First(v4.kids, "address", m) && addr == v4.kids[m];
        assert HasAddress(kids, addr.kids);
  }

  lemma IfaceOnce(kids: seq<Xml>, before: Iface, v: Iface, w: Iface)
    requires IfaceIs(kids, before, v) && IfaceIs(kids, before, w)
    ensures v == w
  {
    hide Lower, Strip, HasLeaf, HasAddress, AddressIs, First;
    assert v.status == w.status;
    assert v.desc == w.desc;
    if a :| HasAddress(kids, a) {
      AddressOnce(a, before, v, w);
    }
  }

  lemma AddressOnce(kids: seq<Xml>, before: Iface, v: Iface, w: Iface)
    requires AddressIs(kids, before, v) && AddressIs(kids, before, w)
    ensures v.ip == w.ip && v.prefix == w.prefix
  {
    hide FieldIs, HasLeaf, Ipv4.MaskToPrefix, Strip;
    FieldUnique(kids, "ip", before.ip, v.ip, w.ip);
  }

  /** What one element leaves at the interface it names. */
  ghost predicate Becomes(e: Xml, before: Iface, after: Iface) {
    if e.op == "delete" then after == before.(ip := "", prefix := 0) else IfaceIs(e.kids, before, after)
  }

  lemma EditedIface(e: Xml, before: Iface)
    ensures Becomes(e, before, if e.op == "delete" then before.(ip := "", prefix := 0) else WithAddress(WithLeaves(before, e.kids), e.kids))
  {
    hide WithAddress, WithLeaves, HasLeaf, HasAddress, AddressIs, First, Lower, Strip;
    var after := WithLeaves(before, e.kids);
    LeavesRead(before, e.kids);
    AddressReads(after, e.kids);
    forall a | HasAddress(e.kids, a) ensures AddressIs(a, before, WithAddress(after, e.kids)) {
      AddressFrom(a, before, after, WithAddress(after, e.kids));
    }
  }

  lemma AddressFrom(kids: seq<Xml>, before: Iface, before': Iface, after: Iface)
    requires before.ip == before'.ip && before.prefix == before'.prefix && AddressIs(kids, before', after)
    ensures AddressIs(kids, before, after)
  {}

  /** An interface element that is applied names an interface: that one becomes what the element says,
      and every other interface stays as it was. */
  lemma EditIfaceExactly(ifs: Dict<Iface>, e: Xml, name: string)
    requires Unique(ifs) && EditIface(ifs, e).error == "" && IsNamed(e, name)
    ensures name in Keys(ifs) && Unique(EditIface(ifs, e).value)
    ensures forall k, v :: (k, v) in EditIface(ifs, e).value <==>
      if k == name then exists before :: (name, before) in ifs && Becomes(e, before, v) else (k, v) in ifs
  {
    hide WithAddress, WithLeaves, Becomes, FieldIs, Strip, ChildText;
    FieldIsChildText(e.kids, "name");
    FieldUnique(e.kids, "name", "", name, Strip(ChildText(e.kids, "name")));
    var i := IndexOf(ifs, name).value;
    var before := ifs[i].1;
    var after := if e.op == "delete" then before.(ip := "", prefix := 0) else WithAddress(WithLeaves(before, e.kids), e.kids);
    EditedIface(e, before);
    assert EditIface(ifs, e).value == Put(ifs, name, after);
    assert (name, before) == ifs[i];
    forall b | (name, b) in ifs ensures b == before {
      var j :| 0 <= j < |ifs| && ifs[j] == (name, b);
      assert i == j;
    }
    forall k, v ensures (k, v) in EditIface(ifs, e).value <==>
      if k == name then exists before :: (name, before) in ifs && Becomes(e, before, v) else (k, v) in ifs
    {
      PutMeans(ifs, name, after, k, v);
      if k == name && Becomes(e, before, v) { BecomesOnce(e, before, v, after); }
    }
    PutKeys(ifs, name, after);
  }

  lemma BecomesOnce(e: Xml, before: Iface, v: Iface, w: Iface)
    requires Becomes(e, before, v) && Becomes(e, before, w)
    ensures v == w
  {
    hide IfaceIs;
    if e.op != "delete" { IfaceOnce(e.kids, before, v, w); }
  }
}
