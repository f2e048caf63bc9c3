/**
 * The configuration aggregate: interfaces, connection configs, routing, DNS
 * and drivers of one host, with the cascading mutations that keep the name
 * references between them consistent.
 *
 * Interfaces and connection configs are values held in the sequences of a
 * `Config` object; a mutation of one of them replaces it in its sequence.
 * The rename and delete cascades are specified by functions over the part
 * of the configuration they touch (`Snapshot`), and the methods of `Config`
 * are proved to have exactly that effect.
 */
module NetworkConfig {
  import opened Wrappers
  import Seqs
  import opened Interfaces
  import opened ConnectionConfigs
  import Rt = Routing

  /** `dns.dhcp_hostname`: an interface name, or the sentinels `:any` and `:none`. */
  datatype DhcpHostname = AnyInterface | NoInterface | DhcpOn(name: string)

  datatype Dns = Dns(hostname: Option<string>, dhcpHostname: DhcpHostname)

  datatype Driver = Driver(name: string, options: string)

  function DriverName(d: Driver): string { d.name }

  /** The parts of a configuration that renames and deletions change. */
  datatype Snapshot = Snapshot(interfaces: seq<Interface>, connections: seq<ConnectionConfig>, dns: Dns)

  // ---------------------------------------------------------------------
  // rename_interface

  /** Rename, in place, the first interface named `key`. */
  function RenameInterfaceIn(ifaces: seq<Interface>, key: string, newName: string, m: Option<Mechanism>): seq<Interface>
  {
    match Seqs.IndexOf(ifaces, InterfaceName, key)
    case Some(k) => ifaces[k := Rename(ifaces[k], newName, m)]
    case None => ifaces
  }

  /** `dhcp_hostname` follows a rename only when it named the old interface. */
  function RenameDhcp(d: Dns, o: string, n: string): Dns {
    if d.dhcpHostname == DhcpOn(o) then d.(dhcpHostname := DhcpOn(n)) else d
  }

  /**
   * The effect of `rename_interface(old_name, new_name, mechanism)` once the
   * interface is found: without an old name only the mechanism of the
   * interface already called `newName` changes.
   */
  function RenameSnapshot(s: Snapshot, oldName: Option<string>, newName: string, m: Option<Mechanism>): Snapshot
  {
    var ifaces := RenameInterfaceIn(s.interfaces, oldName.GetOr(newName), newName, m);
    match oldName
    case None => s.(interfaces := ifaces)
    case Some(o) => Snapshot(ifaces, RenameAll(s.connections, o, newName), RenameDhcp(s.dns, o, newName))
  }

  lemma RenameInterfaceInSpec(ifaces: seq<Interface>, key: string, newName: string, m: Option<Mechanism>)
    requires UniqueNames(ifaces)
    requires Seqs.IndexOf(ifaces, InterfaceName, key).Some?
    requires newName == key || ByName(ifaces, newName).None?
    ensures var r := RenameInterfaceIn(ifaces, key, newName, m);
      var k := Seqs.IndexOf(ifaces, InterfaceName, key).value;
      |r| == |ifaces| && UniqueNames(r) &&
      ByName(r, newName) == Some(Rename(ifaces[k], newName, m)) &&
      (key != newName ==> ByName(r, key).None?)
  {
    var k := Seqs.IndexOf(ifaces, InterfaceName, key).value;
    var r := RenameInterfaceIn(ifaces, key, newName, m);
    assert r == ifaces[k := Rename(ifaces[k], newName, m)];
    forall j | 0 <= j < |r| && j != k ensures r[j].name != newName && r[j].name != key {
      assert r[j] == ifaces[j];
      if newName != key {
        assert InterfaceName(ifaces[j]) != newName;
      }
    }
    Seqs.IndexOfFirst(r, InterfaceName, newName, k);
  }

  /**
   * Renaming an existing interface to a free name: exactly one interface
   * now has the new name, with the new mechanism; the configs bound to the
   * old name are bound to the new one; no config refers to the old name any
   * more; `dhcp_hostname` follows when it named the old interface and is
   * otherwise left alone.
   */
  lemma RenameSnapshotSpec(s: Snapshot, o: string, n: string, m: Option<Mechanism>)
    requires UniqueNames(s.interfaces)
    requires ByName(s.interfaces, o).Some?
    requires n == o || ByName(s.interfaces, n).None?
    ensures var r := RenameSnapshot(s, Some(o), n, m);
      UniqueNames(r.interfaces) &&
      ByName(r.interfaces, n).Some? && ByName(r.interfaces, n).value.mechanism == m &&
      (Bound(s.connections, o) ==> |ByInterface(r.connections, n)| > 0) &&
      (o != n ==> ByName(r.interfaces, o).None? && forall c :: c in r.connections ==> !Mentions(c, o)) &&
      (s.dns.dhcpHostname == DhcpOn(o) ==> r.dns.dhcpHostname == DhcpOn(n)) &&
      (s.dns.dhcpHostname != DhcpOn(o) ==> r.dns == s.dns)
  {
    RenameInterfaceInSpec(s.interfaces, o, n, m);
    RenameAllSpec(s.connections, o, n);
    if Bound(s.connections, o) {
      RenameKeepsBinding(s.connections, o, n);
    }
  }

  /** Without an old name, only the mechanism of the named interface changes. */
  lemma RenameMechanismOnly(s: Snapshot, n: string, m: Option<Mechanism>)
    requires ByName(s.interfaces, n).Some?
    ensures var r := RenameSnapshot(s, None, n, m);
      r.connections == s.connections && r.dns == s.dns && |r.interfaces| == |s.interfaces| &&
      ByName(r.interfaces, n) == Some(ByName(s.interfaces, n).value.(mechanism := m))
  {
    var k := Seqs.IndexOf(s.interfaces, InterfaceName, n).value;
    var r := RenameSnapshot(s, None, n, m);
    assert r.interfaces == s.interfaces[k := Rename(s.interfaces[k], n, m)];
    Seqs.IndexOfFirst(r.interfaces, InterfaceName, n, k);
  }

  /**
   * Two successive renames `o -> mid -> n` end with the name `n`, the
   * mechanism of the second call and the original kernel name; the configs
   * and `dhcp_hostname` end as after a direct rename `o -> n`.
   */
  lemma RenameSnapshotTwice(s: Snapshot, o: string, mid: string, n: string, m1: Option<Mechanism>, m2: Option<Mechanism>)
    requires UniqueNames(s.interfaces)
    requires ByName(s.interfaces, o).Some?
    requires mid != o && ByName(s.interfaces, mid).None?
    requires n == o || ByName(s.interfaces, n).None?
    requires n != mid
    requires forall c :: c in s.connections ==> !Mentions(c, mid)
    requires s.dns.dhcpHostname != DhcpOn(mid)
    ensures var r := RenameSnapshot(RenameSnapshot(s, Some(o), mid, m1), Some(mid), n, m2);
      var i := ByName(s.interfaces, o).value;
      ByName(r.interfaces, n).Some? &&
      ByName(r.interfaces, n).value.mechanism == m2 &&
      ByName(r.interfaces, n).value.oldName == (if i.oldName.Some? then i.oldName else Some(o)) &&
      r.connections == RenameAll(s.connections, o, n) &&
      r.dns == RenameDhcp(s.dns, o, n)
  {
    var s1 := RenameSnapshot(s, Some(o), mid, m1);
    var k := Seqs.IndexOf(s.interfaces, InterfaceName, o).value;
    RenameInterfaceInSpec(s.interfaces, o, mid, m1);
    assert ByName(s1.interfaces, mid) == Some(Rename(s.interfaces[k], mid, m1));
    var k1 := Seqs.IndexOf(s1.interfaces, InterfaceName, mid).value;
    assert s1.interfaces[k1] == Rename(s.interfaces[k], mid, m1);
    assert ByName(s1.interfaces, n).None? by {
      if n != o {
        forall j | 0 <= j < |s1.interfaces| ensures s1.interfaces[j].name != n {
          if j != k {
            assert s1.interfaces[j] == s.interfaces[j];
            assert InterfaceName(s.interfaces[j]) != n;
          }
        }
      }
    }
    RenameInterfaceInSpec(s1.interfaces, mid, n, m2);
    RenameAllTwice(s.connections, o, mid, n);
  }

  // ---------------------------------------------------------------------
  // delete_interface

  /** A present physical interface survives its deletion; anything else named `name` goes. */
  function DropInterface(ifaces: seq<Interface>, name: string): seq<Interface> {
    Seqs.Filter(ifaces, (i: Interface) => i.name != name || Protected(i))
  }

  /**
   * The non-recursive part of `delete_interface(name)`: the name leaves
   * every bridge's ports and every bond's slaves, the configs bound to it
   * are removed, `dhcp_hostname` pointing at it becomes `:none`, and the
   * interface is removed unless it is a present physical one.
   */
  function Detach(s: Snapshot, name: string): Snapshot {
    Snapshot(
      DropInterface(s.interfaces, name),
      Seqs.Filter(DropMemberAll(s.connections, name), (c: ConnectionConfig) => c.interface != name),
      if s.dns.dhcpHostname == DhcpOn(name) then s.dns.(dhcpHostname := NoInterface) else s.dns)
  }

  predicate IsVlanOn(c: ConnectionConfig, name: string) {
    c.kind.Vlan? && c.kind.parentDevice == name
  }

  /** Index of the first VLAN config whose parent device is `name`. */
  function FirstVlanOn(cs: seq<ConnectionConfig>, name: string): (r: Option<nat>)
    ensures r.Some? ==> r.value < |cs| && IsVlanOn(cs[r.value], name)
    ensures r.None? <==> forall c :: c in cs ==> !IsVlanOn(c, name)
  {
    if cs == [] then None
    else if IsVlanOn(cs[0], name) then Some(0)
    else match FirstVlanOn(cs[1..], name)
      case None => None
      case Some(k) => Some(k + 1)
  }

  lemma DetachRemovesBound(s: Snapshot, name: string)
    ensures |Detach(s, name).connections| <= |s.connections|
    ensures Bound(s.connections, name) ==> |Detach(s, name).connections| < |s.connections|
  {
    if Bound(s.connections, name) {
      var c :| c in s.connections && c.interface == name;
      var j :| 0 <= j < |s.connections| && s.connections[j] == c;
      var ds := DropMemberAll(s.connections, name);
      assert ds[j] in ds && ds[j].interface == name;
    }
  }

  /**
   * `delete_interface(name)`: detach the name, then delete, one after the
   * other, the interfaces of the VLANs whose parent device is `name`.
   * Configs bound to a deleted name are removed before the cascade looks
   * further, so the recursion ends even on cyclic VLAN parents.
   */
  function DeleteCascade(s: Snapshot, name: string): (r: Snapshot)
    ensures |r.connections| <= |s.connections|
    ensures Bound(s.connections, name) ==> |r.connections| < |s.connections|
    decreases 2 * |s.connections| + (if Bound(s.connections, name) then 0 else 1), 0
  {
    DetachRemovesBound(s, name);
    CascadeVlans(Detach(s, name), name)
  }

  function CascadeVlans(s: Snapshot, name: string): (r: Snapshot)
    ensures |r.connections| <= |s.connections|
    decreases 2 * |s.connections|, 1
  {
    match FirstVlanOn(s.connections, name)
    case None => s
    case Some(k) =>
      assert s.connections[k] in s.connections;
      CascadeVlans(DeleteCascade(s, s.connections[k].interface), name)
  }

  /** `c2` is `c1` after some of its members were dropped. */
  predicate Derived(c1: ConnectionConfig, c2: ConnectionConfig) {
    c2 == c1.(kind := c2.kind) && Shrunk(c1.kind, c2.kind)
  }

  /**
   * What deletions can do to a snapshot: interfaces only disappear, in
   * their order, and never a present physical one; every remaining config
   * derives from one that was there; `dhcp_hostname` stays or becomes
   * `:none`.
   */
  ghost predicate Evolves(s: Snapshot, r: Snapshot) {
    Seqs.Kept(s.interfaces, r.interfaces) &&
    (forall i :: i in r.interfaces ==> i in s.interfaces) &&
    (forall i :: i in s.interfaces && Protected(i) ==> i in r.interfaces) &&
    (forall c2 :: c2 in r.connections ==> exists c1 :: c1 in s.connections && Derived(c1, c2)) &&
    (r.dns == s.dns || r.dns == s.dns.(dhcpHostname := NoInterface))
  }

  lemma EvolvesTransitive(a: Snapshot, b: Snapshot, c: Snapshot)
    requires Evolves(a, b) && Evolves(b, c)
    ensures Evolves(a, c)
  {
    Seqs.KeptTransitive(a.interfaces, b.interfaces, c.interfaces);
    forall c3 | c3 in c.connections
      ensures exists c1 :: c1 in a.connections && Derived(c1, c3)
    {
      var c2 :| c2 in b.connections && Derived(c2, c3);
      var c1 :| c1 in a.connections && Derived(c1, c2);
      ShrunkTransitive(c1.kind, c2.kind, c3.kind);
      assert Derived(c1, c3);
    }
  }

  lemma DetachEvolves(s: Snapshot, name: string)
    ensures Evolves(s, Detach(s, name))
  {
    var r := Detach(s, name);
    var ds := DropMemberAll(s.connections, name);
    Seqs.FilterKept(s.interfaces, (i: Interface) => i.name != name || Protected(i));
    forall c2 | c2 in r.connections
      ensures exists c1 :: c1 in s.connections && Derived(c1, c2)
    {
      var j :| 0 <= j < |ds| && ds[j] == c2;
      DropMemberShrinks(s.connections[j].kind, name);
      assert Derived(s.connections[j], c2);
    }
  }

  lemma {:induction false} DeleteCascadeEvolves(s: Snapshot, name: string)
    ensures Evolves(s, DeleteCascade(s, name))
    decreases 2 * |s.connections| + (if Bound(s.connections, name) then 0 else 1), 0
  {
    DetachRemovesBound(s, name);
    DetachEvolves(s, name);
    CascadeVlansEvolves(Detach(s, name), name);
    EvolvesTransitive(s, Detach(s, name), DeleteCascade(s, name));
  }

  lemma {:induction false} CascadeVlansEvolves(s: Snapshot, name: string)
    ensures Evolves(s, CascadeVlans(s, name))
    decreases 2 * |s.connections|, 1
  {
    match FirstVlanOn(s.connections, name)
    case None =>
      Seqs.KeptReflexive(s.interfaces);
      forall c | c in s.connections ensures Derived(c, c) {
        ShrunkReflexive(c.kind);
      }
    case Some(k) =>
      var v := s.connections[k].interface;
      assert s.connections[k] in s.connections;
      var s1 := DeleteCascade(s, v);
      DeleteCascadeEvolves(s, v);
      CascadeVlansEvolves(s1, name);
      EvolvesTransitive(s, s1, CascadeVlans(s1, name));
  }

  /** After the cascade no VLAN has `name` as its parent device. */
  lemma {:induction false} CascadeVlansClears(s: Snapshot, name: string)
    ensures FirstVlanOn(CascadeVlans(s, name).connections, name).None?
    decreases |s.connections|
  {
    match FirstVlanOn(s.connections, name)
    case None =>
    case Some(k) =>
      assert s.connections[k] in s.connections;
      CascadeVlansClears(DeleteCascade(s, s.connections[k].interface), name);
  }

  /**
   * After `delete_interface(name)` no config is bound to `name` and none
   * refers to it as a bridge port, a bond slave or a VLAN parent.
   */
  lemma DeleteDropsReferences(s: Snapshot, name: string)
    ensures forall c :: c in DeleteCascade(s, name).connections ==> !Mentions(c, name)
  {
    var d := Detach(s, name);
    var r := DeleteCascade(s, name);
    DetachDropsMembers(s, name);
    CascadeVlansEvolves(d, name);
    CascadeVlansClears(d, name);
    forall c | c in r.connections ensures !Mentions(c, name) {
      var c1 :| c1 in d.connections && Derived(c1, c);
      DerivedStaysClear(c1, c, name);
    }
  }

  lemma DerivedStaysClear(c1: ConnectionConfig, c2: ConnectionConfig, name: string)
    requires Derived(c1, c2)
    requires c1.interface != name && (c1.kind.Vlan? || name !in Members(c1.kind))
    requires !IsVlanOn(c2, name)
    ensures !Mentions(c2, name)
  {
  }

  lemma DetachDropsMembers(s: Snapshot, name: string)
    ensures forall c :: c in Detach(s, name).connections ==>
      c.interface != name && (c.kind.Vlan? || name !in Members(c.kind))
  {
    var ds := DropMemberAll(s.connections, name);
    forall c | c in Detach(s, name).connections
      ensures c.interface != name && (c.kind.Vlan? || name !in Members(c.kind))
    {
      var j :| 0 <= j < |ds| && ds[j] == c;
      assert c.kind == DropMember(s.connections[j].kind, name);
      DropMemberShrinks(s.connections[j].kind, name);
    }
  }

  /** After `delete_interface(name)`, `dhcp_hostname` does not point at `name`. */
  lemma DeleteClearsDhcp(s: Snapshot, name: string)
    ensures DeleteCascade(s, name).dns.dhcpHostname != DhcpOn(name)
    ensures s.dns.dhcpHostname == DhcpOn(name) ==> DeleteCascade(s, name).dns.dhcpHostname == NoInterface
  {
    CascadeVlansEvolves(Detach(s, name), name);
  }

  /**
   * `delete_interface(name)` removes an interface called `name` unless it
   * is a present physical one; it adds no interface, and every present
   * physical interface is still there afterwards.
   */
  lemma DeleteInterfacesSpec(s: Snapshot, name: string)
    ensures var r := DeleteCascade(s, name);
      (forall i :: i in r.interfaces && i.name == name ==> Protected(i)) &&
      (forall i :: i in r.interfaces ==> i in s.interfaces) &&
      (forall i :: i in s.interfaces && Protected(i) ==> i in r.interfaces)
  {
    DetachEvolves(s, name);
    CascadeVlansEvolves(Detach(s, name), name);
    EvolvesTransitive(s, Detach(s, name), DeleteCascade(s, name));
  }

  /** Without a VLAN on top of `name`, deletion is just the detach step. */
  lemma DeleteWithoutVlans(s: Snapshot, name: string)
    requires forall c :: c in s.connections ==> !IsVlanOn(c, name)
    ensures DeleteCascade(s, name) == Detach(s, name)
  {
    var d := Detach(s, name);
    var ds := DropMemberAll(s.connections, name);
    assert d.connections == Seqs.Filter(ds, (c: ConnectionConfig) => c.interface != name);
    forall c | c in d.connections ensures !IsVlanOn(c, name) {
      assert c in ds;
      var j :| 0 <= j < |ds| && ds[j] == c;
      var c0 := s.connections[j];
      assert c0 in s.connections;
      assert c == c0.(kind := DropMember(c0.kind, name));
    }
  }

  /** Interface names of VLAN configs. */
  function VlanInterfaces(cs: seq<ConnectionConfig>): set<string> {
    set c | c in cs && c.kind.Vlan? :: c.interface
  }

  lemma EvolvesVlanInterfaces(s: Snapshot, r: Snapshot)
    requires Evolves(s, r)
    ensures VlanInterfaces(r.connections) <= VlanInterfaces(s.connections)
  {
    forall c2 | c2 in r.connections && c2.kind.Vlan?
      ensures c2.interface in VlanInterfaces(s.connections)
    {
      var c1 :| c1 in s.connections && Derived(c1, c2);
    }
  }

  /**
   * `r` is closed under the VLAN parent relation of `cs`: a VLAN whose
   * parent device is in `r` has its interface in `r` too. The names
   * `delete_interface(name)` can reach through VLAN parents form the least
   * such set that contains `name`.
   */
  predicate VlanClosed(cs: seq<ConnectionConfig>, r: set<string>) {
    forall c :: c in cs && c.kind.Vlan? && c.kind.parentDevice in r ==> c.interface in r
  }

  /** Deletions keep a set closed: VLAN configs are never changed, only removed. */
  lemma EvolvesVlanClosed(s: Snapshot, t: Snapshot, r: set<string>)
    requires Evolves(s, t) && VlanClosed(s.connections, r)
    ensures VlanClosed(t.connections, r)
  {
    forall c2 | c2 in t.connections && c2.kind.Vlan? && c2.kind.parentDevice in r
      ensures c2.interface in r
    {
      var c1 :| c1 in s.connections && Derived(c1, c2);
    }
  }

  /**
   * A config bound outside the names `delete_interface(name)` can reach
   * through VLAN parents survives the deletion with all its settings; its
   * ports or slaves keep their order and lose only reachable names.
   */
  lemma {:induction false} DeleteCascadeKeeps(s: Snapshot, name: string, r: set<string>, c: ConnectionConfig)
    requires name in r && VlanClosed(s.connections, r)
    requires c in s.connections && c.interface !in r
    ensures exists c2 :: (c2 in DeleteCascade(s, name).connections && Derived(c, c2) && KeptBut(c.kind, c2.kind, r))
    decreases 2 * |s.connections| + (if Bound(s.connections, name) then 0 else 1), 0
  {
    var d := Detach(s, name);
    DetachRemovesBound(s, name);
    DetachEvolves(s, name);
    EvolvesVlanClosed(s, d, r);
    var ds := DropMemberAll(s.connections, name);
    var j :| 0 <= j < |s.connections| && s.connections[j] == c;
    var c1 := ds[j];
    assert c1 in d.connections;
    assert c1.kind == DropMember(c.kind, name) && c1.interface == c.interface;
    DropMemberShrinks(c.kind, name);
    CascadeVlansKeeps(d, name, r, c1);
    var c2 :| c2 in CascadeVlans(d, name).connections && Derived(c1, c2) && KeptBut(c1.kind, c2.kind, r);
    ShrunkTransitive(c.kind, c1.kind, c2.kind);
    KeptButTransitive(c.kind, c1.kind, c2.kind, {name}, r, r);
    assert c2 in DeleteCascade(s, name).connections && Derived(c, c2) && KeptBut(c.kind, c2.kind, r);
  }

  lemma {:induction false} CascadeVlansKeeps(s: Snapshot, name: string, r: set<string>, c: ConnectionConfig)
    requires name in r && VlanClosed(s.connections, r)
    requires c in s.connections && c.interface !in r
    ensures exists c2 :: (c2 in CascadeVlans(s, name).connections && Derived(c, c2) && KeptBut(c.kind, c2.kind, r))
    decreases 2 * |s.connections|, 1
  {
    match FirstVlanOn(s.connections, name)
    case None =>
      ShrunkReflexive(c.kind);
      assert Derived(c, c);
      assert KeptBut(c.kind, c.kind, r);
    case Some(k) =>
      var v := s.connections[k].interface;
      assert s.connections[k] in s.connections;
      assert v in r;
      var s1 := DeleteCascade(s, v);
      DeleteCascadeKeeps(s, v, r, c);
      var c1 :| c1 in s1.connections && Derived(c, c1) && KeptBut(c.kind, c1.kind, r);
      DeleteCascadeEvolves(s, v);
      EvolvesVlanClosed(s, s1, r);
      CascadeVlansKeeps(s1, name, r, c1);
      var c2 :| c2 in CascadeVlans(s1, name).connections && Derived(c1, c2) && KeptBut(c1.kind, c2.kind, r);
      ShrunkTransitive(c.kind, c1.kind, c2.kind);
      KeptButTransitive(c.kind, c1.kind, c2.kind, r, r, r);
      assert Derived(c, c2);
  }

  /** An interface outside the names `delete_interface(name)` can reach stays. */
  lemma {:induction false} DeleteCascadeKeepsInterface(s: Snapshot, name: string, r: set<string>, i: Interface)
    requires name in r && VlanClosed(s.connections, r)
    requires i in s.interfaces && i.name !in r
    ensures i in DeleteCascade(s, name).interfaces
    decreases 2 * |s.connections| + (if Bound(s.connections, name) then 0 else 1), 0
  {
    var d := Detach(s, name);
    DetachRemovesBound(s, name);
    DetachEvolves(s, name);
    EvolvesVlanClosed(s, d, r);
    assert i in d.interfaces;
    CascadeVlansKeepsInterface(d, name, r, i);
  }

  lemma {:induction false} CascadeVlansKeepsInterface(s: Snapshot, name: string, r: set<string>, i: Interface)
    requires name in r && VlanClosed(s.connections, r)
    requires i in s.interfaces && i.name !in r
    ensures i in CascadeVlans(s, name).interfaces
    decreases 2 * |s.connections|, 1
  {
    match FirstVlanOn(s.connections, name)
    case None =>
    case Some(k) =>
      var v := s.connections[k].interface;
      assert s.connections[k] in s.connections;
      var s1 := DeleteCascade(s, v);
      DeleteCascadeKeepsInterface(s, v, r, i);
      DeleteCascadeEvolves(s, v);
      EvolvesVlanClosed(s, s1, r);
      CascadeVlansKeepsInterface(s1, name, r, i);
  }

  /**
   * Deleting an interface with no VLAN on top keeps a VLAN on another
   * parent, unchanged, together with its interface.
   */
  lemma DeleteKeepsUnrelatedVlan(s: Snapshot, name: string, w: ConnectionConfig, i: Interface)
    requires forall c :: c in s.connections ==> !IsVlanOn(c, name)
    requires w in s.connections && w.kind.Vlan? && w.interface != name
    requires i in s.interfaces && i.name == w.interface
    ensures w in DeleteCascade(s, name).connections
    ensures i in DeleteCascade(s, name).interfaces
  {
    DeleteCascadeKeeps(s, name, {name}, w);
    DeleteCascadeKeepsInterface(s, name, {name}, i);
  }

  /**
   * `x` is gone from the snapshot: no config is bound to it or lists it as
   * a port, a slave or a VLAN parent, and an interface of that name is left
   * only when it is a present physical one.
   */
  ghost predicate Gone(s: Snapshot, x: string) {
    (forall c :: c in s.connections ==> !Mentions(c, x)) &&
    (forall i :: i in s.interfaces && i.name == x ==> Protected(i))
  }

  lemma GoneEvolves(s: Snapshot, r: Snapshot, x: string)
    requires Gone(s, x) && Evolves(s, r)
    ensures Gone(r, x)
  {
    forall c2 | c2 in r.connections ensures !Mentions(c2, x) {
      var c1 :| c1 in s.connections && Derived(c1, c2);
      ShrunkMembers(c1.kind, c2.kind);
    }
  }

  /** After `delete_interface(name)` the name itself is gone. */
  lemma DeleteCascadeGoneSelf(s: Snapshot, name: string)
    ensures Gone(DeleteCascade(s, name), name)
  {
    DeleteDropsReferences(s, name);
    DeleteInterfacesSpec(s, name);
  }

  /**
   * What `delete_interface(name)` does to one config: either a config
   * derived from it remains, or its interface is gone altogether.
   */
  lemma {:induction false} DeleteCascadeFate(s: Snapshot, name: string, c: ConnectionConfig)
    requires c in s.connections
    ensures var r := DeleteCascade(s, name);
      (exists c2 :: c2 in r.connections && Derived(c, c2)) || Gone(r, c.interface)
    decreases 2 * |s.connections| + (if Bound(s.connections, name) then 0 else 1), 0
  {
    if c.interface == name {
      DeleteCascadeGoneSelf(s, name);
    } else {
      var d := Detach(s, name);
      DetachRemovesBound(s, name);
      var ds := DropMemberAll(s.connections, name);
      var j :| 0 <= j < |s.connections| && s.connections[j] == c;
      assert ds[j] in d.connections;
      DropMemberShrinks(c.kind, name);
      assert Derived(c, ds[j]);
      CascadeVlansFate(d, name, ds[j]);
      var r := DeleteCascade(s, name);
      if c2 :| c2 in r.connections && Derived(ds[j], c2) {
        ShrunkTransitive(c.kind, ds[j].kind, c2.kind);
        assert Derived(c, c2);
      }
    }
  }

  lemma {:induction false} CascadeVlansFate(s: Snapshot, name: string, c: ConnectionConfig)
    requires c in s.connections
    ensures var r := CascadeVlans(s, name);
      (exists c2 :: c2 in r.connections && Derived(c, c2)) || Gone(r, c.interface)
    decreases 2 * |s.connections|, 1
  {
    match FirstVlanOn(s.connections, name)
    case None =>
      ShrunkReflexive(c.kind);
      assert Derived(c, c);
    case Some(k) =>
      assert s.connections[k] in s.connections;
      var v := s.connections[k].interface;
      var s1 := DeleteCascade(s, v);
      var r := CascadeVlans(s1, name);
      DeleteCascadeFate(s, v, c);
      if c1 :| c1 in s1.connections && Derived(c, c1) {
        CascadeVlansFate(s1, name, c1);
        if c2 :| c2 in r.connections && Derived(c1, c2) {
          ShrunkTransitive(c.kind, c1.kind, c2.kind);
          assert Derived(c, c2);
        }
      } else {
        CascadeVlansEvolves(s1, name);
        GoneEvolves(s1, r, c.interface);
      }
  }

  /**
   * `delete_interface(name)` deletes the VLANs on top of `name`: afterwards
   * no config is bound to or refers to the interface of such a VLAN, and an
   * interface of that name is left only when it is a present physical one.
   */
  lemma DeleteCascadeDeletesVlans(s: Snapshot, name: string, v: ConnectionConfig)
    requires v in s.connections && IsVlanOn(v, name)
    ensures var r := DeleteCascade(s, name);
      (forall c :: c in r.connections ==> !Mentions(c, v.interface)) &&
      (forall i :: i in r.interfaces && i.name == v.interface ==> Protected(i))
  {
    var r := DeleteCascade(s, name);
    DeleteCascadeFate(s, name, v);
    DeleteDropsReferences(s, name);
    assert Mentions(v, name);
    forall c2 | c2 in r.connections ensures !Derived(v, c2) {
      assert !Mentions(c2, name);
    }
  }

  // ---------------------------------------------------------------------
  // add_or_update_connection_config

  /** The interface a new config needs: virtual for virtual kinds. */
  function InterfaceFor(conn: ConnectionConfig): Interface {
    if IsVirtual(conn.kind) then NewVirtual(conn.interface) else NewPhysical(conn.interface)
  }

  function AddMissingInterface(ifaces: seq<Interface>, conn: ConnectionConfig): seq<Interface> {
    if ByName(ifaces, conn.interface).Some? then ifaces else ifaces + [InterfaceFor(conn)]
  }

  /**
   * After `add_or_update_connection_config(conn)`: `by_name(conn.name)` is
   * `conn`; an interface called `conn.interface` exists; if it did not
   * exist before it was appended, virtual exactly when the config's kind is
   * virtual; if it existed, the interfaces are unchanged.
   */
  lemma AddConnectionSpec(ifaces: seq<Interface>, cs: seq<ConnectionConfig>, conn: ConnectionConfig)
    ensures var cs2 := Seqs.Upsert(cs, conn, ConnectionName);
      var k := Seqs.IndexOf(cs2, ConnectionName, conn.name);
      k.Some? && cs2[k.value] == conn
    ensures var r := AddMissingInterface(ifaces, conn);
      ByName(r, conn.interface).Some? &&
      (ByName(ifaces, conn.interface).Some? ==> r == ifaces) &&
      (ByName(ifaces, conn.interface).None? ==>
        |r| == |ifaces| + 1 && r[|ifaces|] == InterfaceFor(conn) &&
        (ByName(r, conn.interface).value.kind.Virtual? <==> IsVirtual(conn.kind)))
  {
    Seqs.UpsertSpec(cs, conn, ConnectionName);
    var r := AddMissingInterface(ifaces, conn);
    if ByName(ifaces, conn.interface).None? {
      assert r[|ifaces|].name == conn.interface;
      Seqs.IndexOfFirst(r, InterfaceName, conn.interface, |ifaces|);
    }
  }

  // ---------------------------------------------------------------------
  // Consistency

  /**
   * The state the cascades maintain: interface names are unique and every
   * connection config is bound to an interface of the collection.
   */
  ghost predicate Consistent(s: Snapshot) {
    UniqueNames(s.interfaces) &&
    forall c :: c in s.connections ==> ByName(s.interfaces, c.interface).Some?
  }

  /**
   * What `delete_interface(name)` does to one interface: it stays, or its
   * name is gone altogether.
   */
  lemma {:induction false} DeleteCascadeInterfaceFate(s: Snapshot, name: string, i: Interface)
    requires i in s.interfaces
    ensures var r := DeleteCascade(s, name);
      i in r.interfaces || Gone(r, i.name)
    decreases 2 * |s.connections| + (if Bound(s.connections, name) then 0 else 1), 0
  {
    var d := Detach(s, name);
    DetachRemovesBound(s, name);
    if i in d.interfaces {
      CascadeVlansInterfaceFate(d, name, i);
    } else {
      DeleteCascadeGoneSelf(s, name);
    }
  }

  lemma {:induction false} CascadeVlansInterfaceFate(s: Snapshot, name: string, i: Interface)
    requires i in s.interfaces
    ensures var r := CascadeVlans(s, name);
      i in r.interfaces || Gone(r, i.name)
    decreases 2 * |s.connections|, 1
  {
    match FirstVlanOn(s.connections, name)
    case None =>
    case Some(k) =>
      assert s.connections[k] in s.connections;
      var s1 := DeleteCascade(s, s.connections[k].interface);
      DeleteCascadeInterfaceFate(s, s.connections[k].interface, i);
      if i in s1.interfaces {
        CascadeVlansInterfaceFate(s1, name, i);
      } else {
        CascadeVlansEvolves(s1, name);
        GoneEvolves(s1, CascadeVlans(s1, name), i.name);
      }
  }

  /** `delete_interface` keeps a consistent configuration consistent. */
  lemma DeleteConsistent(s: Snapshot, name: string)
    requires Consistent(s)
    ensures Consistent(DeleteCascade(s, name))
  {
    var r := DeleteCascade(s, name);
    DeleteCascadeEvolves(s, name);
    KeptUniqueNames(s.interfaces, r.interfaces);
    forall c2 | c2 in r.connections ensures ByName(r.interfaces, c2.interface).Some? {
      var c1 :| c1 in s.connections && Derived(c1, c2);
      ByNameFound(s.interfaces, c1.interface);
      var i :| i in s.interfaces && i.name == c1.interface;
      DeleteCascadeInterfaceFate(s, name, i);
      assert Mentions(c2, i.name);
      ByNameFound(r.interfaces, c2.interface);
    }
  }

  /** An interface other than the renamed one keeps its name. */
  lemma RenameKeepsOtherInterface(ifaces: seq<Interface>, o: string, n: string, m: Option<Mechanism>, x: string)
    requires x != o && ByName(ifaces, x).Some?
    ensures ByName(RenameInterfaceIn(ifaces, o, n, m), x).Some?
  {
    ByNameFound(ifaces, x);
    var i :| i in ifaces && i.name == x;
    var q :| 0 <= q < |ifaces| && ifaces[q] == i;
    var r := RenameInterfaceIn(ifaces, o, n, m);
    assert r[q] == i;
    ByNameFound(r, x);
  }

  /** Renaming an existing interface to a free name keeps the configuration consistent. */
  lemma RenameConsistent(s: Snapshot, o: string, n: string, m: Option<Mechanism>)
    requires Consistent(s)
    requires ByName(s.interfaces, o).Some?
    requires n == o || ByName(s.interfaces, n).None?
    ensures Consistent(RenameSnapshot(s, Some(o), n, m))
  {
    var r := RenameSnapshot(s, Some(o), n, m);
    RenameInterfaceInSpec(s.interfaces, o, n, m);
    forall c2 | c2 in r.connections ensures ByName(r.interfaces, c2.interface).Some? {
      var j :| 0 <= j < |r.connections| && r.connections[j] == c2;
      var c := s.connections[j];
      assert c in s.connections;
      if c.interface != o {
        RenameKeepsOtherInterface(s.interfaces, o, n, m, c.interface);
      }
    }
  }

  /**
   * `add_or_update_connection_config(conn)` keeps the configuration
   * consistent: the config is bound to an existing interface or to the one
   * appended for it.
   */
  lemma AddConsistent(s: Snapshot, conn: ConnectionConfig)
    requires Consistent(s)
    ensures Consistent(Snapshot(AddMissingInterface(s.interfaces, conn),
                                Seqs.Upsert(s.connections, conn, ConnectionName), s.dns))
  {
    var ifs := AddMissingInterface(s.interfaces, conn);
    var cs := Seqs.Upsert(s.connections, conn, ConnectionName);
    AddConnectionSpec(s.interfaces, s.connections, conn);
    Seqs.UpsertSpec(s.connections, conn, ConnectionName);
    if ByName(s.interfaces, conn.interface).None? {
      forall j | 0 <= j < |s.interfaces| ensures s.interfaces[j].name != conn.interface {
        assert InterfaceName(s.interfaces[j]) != conn.interface;
      }
    }
    forall c | c in cs ensures ByName(ifs, c.interface).Some? {
      if c != conn {
        var j :| 0 <= j < |cs| && cs[j] == c;
        assert c == s.connections[j];
        assert c in s.connections;
        ByNameFound(s.interfaces, c.interface);
        ByNameFound(ifs, c.interface);
      }
    }
  }

  // ---------------------------------------------------------------------
  // The aggregate

  class Config {
    var interfaces: seq<Interface>
    var connections: seq<ConnectionConfig>
    var routing: Rt.Routing
    var dns: Dns
    var drivers: seq<Driver>
    var source: string

    constructor (interfaces: seq<Interface>, connections: seq<ConnectionConfig>, routing: Rt.Routing,
                 dns: Dns, drivers: seq<Driver>, source: string)
      ensures this.interfaces == interfaces && this.connections == connections
      ensures this.routing == routing && this.dns == dns
      ensures this.drivers == drivers && this.source == source
    {
      this.interfaces := interfaces;
      this.connections := connections;
      this.routing := routing;
      this.dns := dns;
      this.drivers := drivers;
      this.source := source;
    }

    function Snap(): Snapshot
      reads this
    {
      Snapshot(interfaces, connections, dns)
    }

    /**
     * `rename_interface(old_name, new_name, mechanism)`. Finds the interface
     * called `old_name` (or `new_name` when there is no old name) and
     * renames it; with an old name, every reference to it in the configs
     * and in `dhcp_hostname` follows. A missing interface makes the source
     * fail before anything changed: here `found` is false and nothing
     * changes.
     */
    method RenameInterface(oldName: Option<string>, newName: string, m: Option<Mechanism>) returns (found: bool)
      modifies this
      ensures found == Seqs.IndexOf(old(interfaces), InterfaceName, oldName.GetOr(newName)).Some?
      ensures found ==> Snap() == RenameSnapshot(old(Snap()), oldName, newName, m)
      ensures !found ==> Snap() == old(Snap())
      ensures routing == old(routing) && drivers == old(drivers) && source == old(source)
    {
      var k := Seqs.FindIndex(interfaces, InterfaceName, oldName.GetOr(newName));
      if k.None? {
        return false;
      }
      found := true;
      interfaces := interfaces[k.value := Rename(interfaces[k.value], newName, m)];
      if oldName.None? {
        return;
      }
      var o := oldName.value;
      RenameReferencesInPlace(o, newName);
      if dns.dhcpHostname == DhcpOn(o) {
        dns := dns.(dhcpHostname := DhcpOn(newName));
      }
    }

    /** Every config in turn has its references to `o` renamed to `n`. */
    method RenameReferencesInPlace(o: string, n: string)
      modifies this
      ensures connections == RenameAll(old(connections), o, n)
      ensures interfaces == old(interfaces) && dns == old(dns)
      ensures routing == old(routing) && drivers == old(drivers) && source == old(source)
    {
      var j := 0;
      while j < |connections|
        invariant 0 <= j <= |connections| == |old(connections)|
        invariant forall i :: 0 <= i < j ==> connections[i] == RenameReferences(old(connections)[i], o, n)
        invariant forall i :: j <= i < |connections| ==> connections[i] == old(connections)[i]
        invariant interfaces == old(interfaces) && dns == old(dns)
        invariant routing == old(routing) && drivers == old(drivers) && source == old(source)
      {
        connections := connections[j := RenameReferences(connections[j], o, n)];
        j := j + 1;
      }
    }

    /** Every config in turn drops `name` from its members. */
    method DropMemberInPlace(name: string)
      modifies this
      ensures connections == DropMemberAll(old(connections), name)
      ensures interfaces == old(interfaces) && dns == old(dns)
      ensures routing == old(routing) && drivers == old(drivers) && source == old(source)
    {
      var j := 0;
      while j < |connections|
        invariant 0 <= j <= |connections| == |old(connections)|
        invariant forall i :: 0 <= i < j ==> connections[i] == old(connections)[i].(kind := DropMember(old(connections)[i].kind, name))
        invariant forall i :: j <= i < |connections| ==> connections[i] == old(connections)[i]
        invariant interfaces == old(interfaces) && dns == old(dns)
        invariant routing == old(routing) && drivers == old(drivers) && source == old(source)
      {
        connections := connections[j := connections[j].(kind := DropMember(connections[j].kind, name))];
        j := j + 1;
      }
    }

    /** `delete_interface(name)`, with the VLAN cascade. */
    method DeleteInterface(name: string)
      modifies this
      decreases 2 * |connections| + (if Bound(connections, name) then 0 else 1)
      ensures Snap() == DeleteCascade(old(Snap()), name)
      ensures routing == old(routing) && drivers == old(drivers) && source == old(source)
    {
      ghost var s0 := Snap();
      DetachRemovesBound(s0, name);
      DropMemberInPlace(name);
      connections := Seqs.Filter(connections, (c: ConnectionConfig) => c.interface != name);
      if dns.dhcpHostname == DhcpOn(name) {
        dns := dns.(dhcpHostname := NoInterface);
      }
      interfaces := DropInterface(interfaces, name);
      assert Snap() == Detach(s0, name);
      ghost var c1 := |connections|;
      while FirstVlanOn(connections, name).Some?
        invariant CascadeVlans(Snap(), name) == DeleteCascade(s0, name)
        invariant |connections| <= c1
        invariant routing == old(routing) && drivers == old(drivers) && source == old(source)
        decreases |connections|
      {
        var k := FirstVlanOn(connections, name).value;
        assert connections[k] in connections;
        DeleteInterface(connections[k].interface);
      }
    }

    /** `add_or_update_connection_config(conn)`: upsert by name, then add a missing interface. */
    method AddOrUpdateConnectionConfig(conn: ConnectionConfig)
      modifies this
      ensures connections == Seqs.Upsert(old(connections), conn, ConnectionName)
      ensures interfaces == AddMissingInterface(old(interfaces), conn)
      ensures routing == old(routing) && dns == old(dns) && drivers == old(drivers) && source == old(source)
    {
      var k := Seqs.FindIndex(connections, ConnectionName, conn.name);
      if k.Some? {
        connections := connections[k.value := conn];
      } else {
        connections := connections + [conn];
      }
      var i := Seqs.FindIndex(interfaces, InterfaceName, conn.interface);
      if i.None? {
        interfaces := interfaces + [InterfaceFor(conn)];
      }
    }

    /** `add_or_update_driver(driver)`: replace the driver of that name in place, or append it. */
    method AddOrUpdateDriver(driver: Driver)
      modifies this
      ensures drivers == Seqs.Upsert(old(drivers), driver, DriverName)
      ensures Snap() == old(Snap()) && routing == old(routing) && source == old(source)
    {
      var k := Seqs.FindIndex(drivers, DriverName, driver.name);
      if k.Some? {
        drivers := drivers[k.value := driver];
      } else {
        drivers := drivers + [driver];
      }
    }

    /** `configured_interface?(name)`: some config is bound to a non-empty name. */
    predicate ConfiguredInterface(name: Option<string>)
      reads this
      ensures ConfiguredInterface(name) <==> name.Some? && name.value != "" && Bound(connections, name.value)
    {
      match name
      case None => false
      case Some(n) =>
        n != "" && (BoundByFilter(connections, n); |ByInterface(connections, n)| > 0)
    }

    /**
     * `drivers_for_interface(name)`: the configured drivers named by the
     * interface's hardware drivers or its custom driver, each occurrence in
     * configured order; absent when there is no such interface.
     */
    function DriversForInterface(name: string): (r: Option<seq<Driver>>)
      reads this
      ensures r.Some? <==> ByName(interfaces, name).Some?
      ensures r.Some? ==> forall d :: d in r.value <==>
        d in drivers && UsesDriver(ByName(interfaces, name).value, d.name)
      ensures r.Some? ==> Seqs.Kept(drivers, r.value)
    {
      match ByName(interfaces, name)
      case None => None
      case Some(i) =>
        var uses := (d: Driver) => UsesDriver(i, d.name);
        Seqs.FilterKept(drivers, uses);
        Some(Seqs.Filter(drivers, uses))
    }

    /** `==`: interfaces, connections, routing and DNS; drivers and source do not count. */
    predicate Equals(other: Config)
      reads this, other
    {
      Snap() == other.Snap() && routing == other.routing
    }

    /** `copy`: an independent object with the same contents. */
    method Copy() returns (c: Config)
      ensures fresh(c)
      ensures c.Snap() == Snap() && c.routing == routing && c.drivers == drivers && c.source == source
      ensures c.Equals(this)
    {
      c := new Config(interfaces, connections, routing, dns, drivers, source);
    }
  }

  predicate UsesDriver(i: Interface, driverName: string) {
    i.kind.Physical? && (driverName in i.kind.hwDrivers || i.kind.customDriver == Some(driverName))
  }

  /**
   * Three configured drivers and an interface whose hardware uses only the
   * first of them: exactly that driver is returned.
   */
  lemma DriversForInterfaceExample(config: Config, i: Interface, virtio: Driver, e1000: Driver, custom: Driver)
    requires config.interfaces == [i] && config.drivers == [virtio, e1000, custom]
    requires i.kind.Physical? && i.kind.hwDrivers == [virtio.name] && i.kind.customDriver.None?
    requires e1000.name != virtio.name && custom.name != virtio.name
    ensures config.DriversForInterface(i.name) == Some([virtio])
  {
    var uses := (d: Driver) => UsesDriver(i, d.name);
    assert ByName(config.interfaces, i.name) == Some(i);
    Seqs.FilterCons(virtio, [e1000, custom], uses);
    Seqs.FilterCons(e1000, [custom], uses);
    Seqs.FilterCons(custom, [], uses);
    assert [virtio, e1000, custom] == [virtio] + ([e1000] + ([custom] + []));
    assert Seqs.Filter(config.drivers, uses) == [virtio];
    assert config.DriversForInterface(i.name) == Some(Seqs.Filter(config.drivers, uses));
  }

  lemma BoundByFilter(cs: seq<ConnectionConfig>, n: string)
    ensures Bound(cs, n) <==> |ByInterface(cs, n)| > 0
  {
    if Bound(cs, n) {
      var c :| c in cs && c.interface == n;
      assert c in ByInterface(cs, n);
    }
    if |ByInterface(cs, n)| > 0 {
      assert ByInterface(cs, n)[0] in ByInterface(cs, n);
    }
  }

  /**
   * Changing the copy leaves the original as it was: clearing the routing
   * tables of a copy keeps the original's tables, and the copy no longer
   * equals the original when it had tables.
   */
  method CopyIsolation(config: Config) returns (copy: Config)
    ensures fresh(copy)
    ensures config.routing == old(config.routing) && config.Snap() == old(config.Snap())
    ensures copy.routing.tables == []
    ensures old(config.routing.tables) != [] ==> !copy.Equals(config)
  {
    copy := config.Copy();
    copy.routing := copy.routing.(tables := []);
  }

  /**
   * The registry of loaded configurations, keyed by an identifier; an
   * explicit object instead of process-wide state.
   */
  class Registry {
    var configs: map<string, Config>

    constructor ()
      ensures configs == map[]
    {
      configs := map[];
    }

    method Add(id: string, config: Config)
      modifies this
      ensures configs == old(configs)[id := config]
    {
      configs := configs[id := config];
    }

    function Find(id: string): (r: Option<Config>)
      reads this
      ensures r.Some? <==> id in configs
      ensures r.Some? ==> r.value == configs[id]
    {
      if id in configs then Some(configs[id]) else None
    }

    method Reset()
      modifies this
      ensures configs == map[]
    {
      configs := map[];
    }
  }
}
