/**
 * Connection configurations: how one interface is brought up. The common
 * fields are shared by every kind; bridges list their `ports`, bonds their
 * `slaves` and VLANs their `parent_device`, all by interface name.
 */
module ConnectionConfigs {
  import opened Wrappers
  import Seqs

  /** An IP address whose mask is either absent, a prefix length or a netmask. */
  datatype Mask = NoMask | Prefix(length: nat) | Netmask(netmask: string)
  datatype IPAddress = IPAddress(address: string, mask: Mask) {
    /** `prefix?`: a prefix is known, whether given directly or as a netmask. */
    predicate HasPrefix() { mask != NoMask }
  }

  /** One address of a connection; `id` is the sysconfig suffix ("" for the primary). */
  datatype IPConfig = IPConfig(
    address: IPAddress,
    id: string,
    addressLabel: Option<string>,
    remoteAddress: Option<IPAddress>,
    broadcast: Option<IPAddress>)

  datatype Startmode = Startmode(name: string, priority: Option<int>)

  datatype Kind =
    | Ethernet
    | Wireless
    | Bridge(ports: seq<string>)
    | Bonding(slaves: seq<string>)
    | Vlan(parentDevice: string)
    | Dummy

  /** Kinds whose device exists only through configuration. */
  predicate IsVirtual(k: Kind) {
    k.Bridge? || k.Bonding? || k.Vlan? || k.Dummy?
  }

  datatype ConnectionConfig = ConnectionConfig(
    name: string,
    interface: string,
    kind: Kind,
    bootproto: string,
    description: Option<string>,
    ip: Option<IPConfig>,
    ipAliases: seq<IPConfig>,
    lladdress: Option<string>,
    startmode: Startmode,
    ethtoolOptions: Option<string>,
    firewallZone: Option<string>,
    hostname: Option<string>)

  function ConnectionName(c: ConnectionConfig): string { c.name }

  /** A connection config of the given kind with every other field unset. */
  function NewConnection(kind: Kind, name: string, interface: string): ConnectionConfig {
    ConnectionConfig(name, interface, kind, "static", None, None, [], None,
                     Startmode("manual", None), None, None, None)
  }

  /** The interface names a kind depends on. */
  function Members(k: Kind): seq<string> {
    match k
    case Bridge(ports) => ports
    case Bonding(slaves) => slaves
    case Vlan(parent) => [parent]
    case _ => []
  }

  /** Replace every occurrence of `o` by `n`, one entry at a time, order kept. */
  function ReplaceName(names: seq<string>, o: string, n: string): seq<string> {
    seq(|names|, j requires 0 <= j < |names| => if names[j] == o then n else names[j])
  }

  function RenameDependency(k: Kind, o: string, n: string): Kind {
    match k
    case Bridge(ports) => Bridge(ReplaceName(ports, o, n))
    case Bonding(slaves) => Bonding(ReplaceName(slaves, o, n))
    case Vlan(parent) => Vlan(if parent == o then n else parent)
    case _ => k
  }

  function RenameReferences(c: ConnectionConfig, o: string, n: string): ConnectionConfig {
    c.(interface := if c.interface == o then n else c.interface,
       kind := RenameDependency(c.kind, o, n))
  }

  /** The effect of an interface rename on the connection configs. */
  function RenameAll(cs: seq<ConnectionConfig>, o: string, n: string): seq<ConnectionConfig> {
    seq(|cs|, j requires 0 <= j < |cs| => RenameReferences(cs[j], o, n))
  }

  /** Does `name` occur in the config, as its interface or as a member? */
  predicate Mentions(c: ConnectionConfig, name: string) {
    c.interface == name || name in Members(c.kind)
  }

  /** `by_interface`: the configs bound to the interface, in order. */
  function ByInterface(cs: seq<ConnectionConfig>, name: string): seq<ConnectionConfig> {
    Seqs.Filter(cs, (c: ConnectionConfig) => c.interface == name)
  }

  predicate Bound(cs: seq<ConnectionConfig>, name: string) {
    exists c :: c in cs && c.interface == name
  }

  /** `ports.delete(name)` / `slaves.delete(name)`; a VLAN is left as it is. */
  function DropMember(k: Kind, name: string): Kind {
    match k
    case Bridge(ports) => Bridge(Seqs.Filter(ports, (p: string) => p != name))
    case Bonding(slaves) => Bonding(Seqs.Filter(slaves, (s: string) => s != name))
    case _ => k
  }

  function DropMemberAll(cs: seq<ConnectionConfig>, name: string): seq<ConnectionConfig> {
    seq(|cs|, j requires 0 <= j < |cs| => cs[j].(kind := DropMember(cs[j].kind, name)))
  }

  /**
   * `k2` was obtained from `k1` by dropping members: both are of the same
   * kind with the same VLAN parent, and the members of `k2` are those of
   * `k1` that it still lists, every occurrence, in their original order.
   */
  predicate Shrunk(k1: Kind, k2: Kind) {
    match k1
    case Bridge(p1) => k2.Bridge? && Seqs.Kept(p1, k2.ports)
    case Bonding(s1) => k2.Bonding? && Seqs.Kept(s1, k2.slaves)
    case _ => k2 == k1
  }

  /** Every member of `k1` outside `gone` is still a member of `k2`. */
  predicate KeptBut(k1: Kind, k2: Kind, gone: set<string>) {
    forall x :: x in Members(k1) && x !in gone ==> x in Members(k2)
  }

  lemma ShrunkReflexive(k: Kind)
    ensures Shrunk(k, k)
  {
    Seqs.KeptReflexive(Members(k));
  }

  lemma ShrunkMembers(k1: Kind, k2: Kind)
    requires Shrunk(k1, k2)
    ensures forall x :: x in Members(k2) ==> x in Members(k1)
  {
  }

  /**
   * Dropping `name` from a bridge or a bond removes exactly that name and
   * keeps every other member, in order; a VLAN is left as it is.
   */
  lemma DropMemberShrinks(k: Kind, name: string)
    ensures Shrunk(k, DropMember(k, name))
    ensures KeptBut(k, DropMember(k, name), {name})
    ensures name !in Members(DropMember(k, name)) || k.Vlan?
  {
    if k.Bridge? || k.Bonding? {
      Seqs.FilterKept(Members(k), (x: string) => x != name);
    }
  }

  lemma ShrunkTransitive(k1: Kind, k2: Kind, k3: Kind)
    requires Shrunk(k1, k2) && Shrunk(k2, k3)
    ensures Shrunk(k1, k3)
  {
    if k1.Bridge? || k1.Bonding? {
      Seqs.KeptTransitive(Members(k1), Members(k2), Members(k3));
    }
  }

  /** Members kept through two steps are kept through both, outside the union of what each dropped. */
  lemma KeptButTransitive(k1: Kind, k2: Kind, k3: Kind, a: set<string>, b: set<string>, g: set<string>)
    requires KeptBut(k1, k2, a) && KeptBut(k2, k3, b)
    requires a <= g && b <= g
    ensures KeptBut(k1, k3, g)
  {
  }

  /**
   * Renaming `o` to `n` keeps the length, the names and the kinds of the
   * configs; no reference to `o` survives; every former reference to `o`
   * (interface, port, slave or parent) now reads `n`, and every other
   * reference is unchanged.
   */
  lemma RenameAllSpec(cs: seq<ConnectionConfig>, o: string, n: string)
    ensures var r := RenameAll(cs, o, n);
      |r| == |cs| &&
      (forall j :: 0 <= j < |cs| ==>
        r[j].name == cs[j].name &&
        r[j].interface == (if cs[j].interface == o then n else cs[j].interface) &&
        |Members(r[j].kind)| == |Members(cs[j].kind)| &&
        (forall k :: 0 <= k < |Members(cs[j].kind)| ==>
          Members(r[j].kind)[k] == if Members(cs[j].kind)[k] == o then n else Members(cs[j].kind)[k])) &&
      (o != n ==> forall c :: c in r ==> !Mentions(c, o))
  {
    var r := RenameAll(cs, o, n);
    forall j | 0 <= j < |cs|
      ensures |Members(r[j].kind)| == |Members(cs[j].kind)|
      ensures forall k :: 0 <= k < |Members(cs[j].kind)| ==>
        Members(r[j].kind)[k] == if Members(cs[j].kind)[k] == o then n else Members(cs[j].kind)[k]
    {
      assert r[j] == RenameReferences(cs[j], o, n);
    }
    if o != n {
      forall c | c in r
        ensures !Mentions(c, o)
      {
        var j :| 0 <= j < |r| && r[j] == c;
        assert c == RenameReferences(cs[j], o, n);
        var ms := Members(c.kind);
        assert |ms| == |Members(cs[j].kind)|;
        forall k | 0 <= k < |ms| ensures ms[k] != o {
        }
      }
    }
  }

  /** A config bound to `o` before the rename is bound to `n` after it. */
  lemma RenameKeepsBinding(cs: seq<ConnectionConfig>, o: string, n: string)
    requires Bound(cs, o)
    ensures Bound(RenameAll(cs, o, n), n)
    ensures |ByInterface(RenameAll(cs, o, n), n)| > 0
  {
    var c :| c in cs && c.interface == o;
    var j :| 0 <= j < |cs| && cs[j] == c;
    var r := RenameAll(cs, o, n);
    assert r[j] in r && r[j].interface == n;
  }

  /**
   * Renaming `o` to `mid` and then `mid` to `n` has the same effect as
   * renaming `o` to `n` directly, when `mid` was not in use before.
   */
  lemma RenameAllTwice(cs: seq<ConnectionConfig>, o: string, mid: string, n: string)
    requires forall c :: c in cs ==> !Mentions(c, mid)
    ensures RenameAll(RenameAll(cs, o, mid), mid, n) == RenameAll(cs, o, n)
  {
    var r1 := RenameAll(cs, o, mid);
    var r2 := RenameAll(r1, mid, n);
    var r := RenameAll(cs, o, n);
    forall j | 0 <= j < |cs| ensures r2[j] == r[j] {
      var c := cs[j];
      assert c in cs;
      assert r2[j] == RenameReferences(RenameReferences(c, o, mid), mid, n);
      match c.kind
      case Bridge(ports) =>
        assert ReplaceName(ReplaceName(ports, o, mid), mid, n) == ReplaceName(ports, o, n);
      case Bonding(slaves) =>
        assert ReplaceName(ReplaceName(slaves, o, mid), mid, n) == ReplaceName(slaves, o, n);
      case _ =>
    }
  }
}
