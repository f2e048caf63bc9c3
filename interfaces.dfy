/**
 * Network interfaces: a physical device (backed by hardware, possibly not
 * present right now) or a virtual one (bridge, bond, VLAN, ...) that exists
 * only through configuration. An interface carries its kernel name, the
 * name it had before the first rename, and how the rename is persisted.
 */
module Interfaces {
  import opened Wrappers
  import Seqs

  /**
   * How an interface name is persisted. An open enumeration: the known
   * symbols `:none`, `:mac`, `:bus_id`, `:bios_id`, and any other symbol.
   * Ruby's `nil` (no mechanism at all) is `None` of an `Option<Mechanism>`.
   */
  datatype Mechanism = NoRenaming | Mac | BusId | BiosId | OtherMechanism(symbol: string)

  /** The immutable hardware descriptor hardware discovery reports. */
  datatype Hwinfo = Hwinfo(name: string, busid: string, mac: string, devPort: string, modalias: string)

  datatype InterfaceKind =
    | Physical(present: bool, hardware: Option<Hwinfo>, customDriver: Option<string>, hwDrivers: seq<string>)
    | Virtual

  datatype Interface = Interface(
    name: string,
    oldName: Option<string>,
    mechanism: Option<Mechanism>,
    kind: InterfaceKind)

  function InterfaceName(i: Interface): string { i.name }

  /** A physical interface whose hardware is present cannot be deleted. */
  predicate Protected(i: Interface) {
    i.kind.Physical? && i.kind.present
  }

  function NewPhysical(name: string): Interface {
    Interface(name, None, None, Physical(false, None, None, []))
  }

  function NewVirtual(name: string): Interface {
    Interface(name, None, None, Virtual)
  }

  /**
   * Rename in place: the first rename records the kernel-assigned name in
   * `oldName`; later renames keep it, so repeated renames collapse onto the
   * original name. Renaming to the current name only sets the mechanism.
   */
  function Rename(i: Interface, newName: string, m: Option<Mechanism>): (r: Interface)
    ensures r.name == newName && r.mechanism == m && r.kind == i.kind
    ensures r.oldName == (if i.oldName.None? && i.name != newName then Some(i.name) else i.oldName)
  {
    Interface(newName, if i.oldName.None? && i.name != newName then Some(i.name) else i.oldName, m, i.kind)
  }

  /** Renamed: the current name differs from the original kernel name. */
  predicate Renamed(i: Interface) {
    i.oldName.Some? && i.oldName.value != i.name
  }

  /** `by_name`: the first interface with the given name. */
  function ByName(ifaces: seq<Interface>, name: string): Option<Interface>
  {
    match Seqs.IndexOf(ifaces, InterfaceName, name)
    case Some(k) => Some(ifaces[k])
    case None => None
  }

  /** Names of the interfaces are unique in a collection. */
  predicate UniqueNames(ifaces: seq<Interface>) {
    forall j, k :: 0 <= j < k < |ifaces| ==> ifaces[j].name != ifaces[k].name
  }

  /** `by_name` finds an interface exactly when one has that name. */
  lemma ByNameFound(ifaces: seq<Interface>, name: string)
    ensures ByName(ifaces, name).Some? <==> exists i :: i in ifaces && i.name == name
  {
    if i :| i in ifaces && i.name == name {
      var j :| 0 <= j < |ifaces| && ifaces[j] == i;
      assert InterfaceName(ifaces[j]) == name;
    }
  }

  /** Dropping interfaces keeps their names unique. */
  lemma {:induction false} FilterUniqueNames(ifaces: seq<Interface>, p: Interface -> bool)
    requires UniqueNames(ifaces)
    ensures UniqueNames(Seqs.Filter(ifaces, p))
  {
    if ifaces != [] {
      var h, t := ifaces[0], ifaces[1..];
      FilterUniqueNames(t, p);
      var ft := Seqs.Filter(t, p);
      forall i | i in ft ensures i.name != h.name {
        var j :| 0 <= j < |t| && t[j] == i;
        assert ifaces[j + 1] == i;
      }
      var r := Seqs.Filter(ifaces, p);
      assert r == (if p(h) then [h] else []) + ft;
      forall j, k | 0 <= j < k < |r| ensures r[j].name != r[k].name {
        if p(h) && j == 0 {
          assert r[k] == ft[k - 1];
        }
      }
    }
  }

  lemma KeptUniqueNames(a: seq<Interface>, b: seq<Interface>)
    requires UniqueNames(a) && Seqs.Kept(a, b)
    ensures UniqueNames(b)
  {
    FilterUniqueNames(a, (x: Interface) => x in b);
  }

  /** Every current and original name of the interfaces of a collection. */
  function KnownNames(ifaces: seq<Interface>): (r: set<string>)
    ensures forall i :: i in ifaces ==> i.name in r
    ensures forall i :: i in ifaces && i.oldName.Some? ==> i.oldName.value in r
    ensures forall n :: n in r ==> exists i :: i in ifaces && (n == i.name || i.oldName == Some(n))
  {
    (set i | i in ifaces :: i.name) + (set i | i in ifaces && i.oldName.Some? :: i.oldName.value)
  }

  /**
   * Two successive renames of the same interface: the name and mechanism of
   * the last call win, and the original kernel name survives both.
   */
  lemma RenameTwice(i: Interface, mid: string, last: string, m1: Option<Mechanism>, m2: Option<Mechanism>)
    requires i.name != mid
    ensures var r := Rename(Rename(i, mid, m1), last, m2);
      r.name == last && r.mechanism == m2 &&
      r.oldName == (if i.oldName.Some? then i.oldName else Some(i.name))
  {
  }
}
