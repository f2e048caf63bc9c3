/**
 * The interfaces writer: for a collection of interfaces it brings renamed
 * interfaces down under their old names, merges the renaming and driver
 * udev rules with the rules already on disk, writes both rule sets and
 * refreshes udev. The external effects are recorded as an action trace.
 */
module InterfacesWriter {
  import opened Wrappers
  import opened Interfaces
  import opened UdevRules
  import Seqs

  /** One external effect of a write, in the order it happens. */
  datatype Action =
    | IfDown(name: string)                       // `/sbin/ifdown <name>`
    | WriteNetRules(rules: seq<UdevRule>)        // the persistent naming rules file
    | WriteDriversRules(rules: seq<UdevRule>)    // the persistent driver rules file
    | UdevadmControl                             // `udevadm control --reload`
    | UdevadmTrigger                             // `udevadm trigger` for network devices
    | UdevadmSettle                              // `udevadm settle`
    | Sleep                                      // the pause that lets devices settle

  /** The hardware descriptor of a physical interface. */
  function HardwareOf(i: Interface): Option<Hwinfo> {
    if i.kind.Physical? then i.kind.hardware else None
  }

  // ---------------------------------------------------------------------
  // Naming rules

  /** The renaming rule an interface asks for: only a MAC or bus-id mechanism with known hardware gives one. */
  function RenamingRuleFor(i: Interface): (r: Option<UdevRule>)
    ensures r.Some? <==> HardwareOf(i).Some? && (i.mechanism == Some(Mac) || i.mechanism == Some(BusId))
  {
    match HardwareOf(i)
    case None => None
    case Some(hw) =>
      if i.mechanism == Some(Mac) then Some(NewMacBasedRename(i.name, hw.mac))
      else if i.mechanism == Some(BusId) then Some(NewBusIdBasedRename(i.name, hw.busid, hw.devPort))
      else None
  }

  /** A renaming rule always names the interface it was made for. */
  lemma RenamingRuleDevice(i: Interface)
    requires RenamingRuleFor(i).Some?
    ensures Device(RenamingRuleFor(i).value) == Some(i.name)
  {
    var hw := HardwareOf(i).value;
    RuleDevices(i.name, hw.mac, hw.busid, hw.devPort, hw.modalias, "");
  }

  /** An existing rule survives unless it names a device the collection knows (current or old name). */
  function KeepNamingRule(known: set<string>): UdevRule -> bool {
    (r: UdevRule) => Device(r).None? || Device(r).value !in known
  }

  /**
   * `update_renaming_udev_rules`: the existing rules for devices the
   * collection does not know, in their order, followed by one rule per
   * interface renamed by MAC or bus id.
   */
  function NamingRules(ifaces: seq<Interface>, current: seq<UdevRule>): (r: seq<UdevRule>)
    ensures forall rule :: rule in r <==>
      (rule in current && (Device(rule).None? || Device(rule).value !in KnownNames(ifaces))) ||
      (exists i :: i in ifaces && RenamingRuleFor(i) == Some(rule))
  {
    Seqs.Filter(current, KeepNamingRule(KnownNames(ifaces))) + Seqs.MapSome(ifaces, RenamingRuleFor)
  }

  /** No rule the writer makes is kept when the result is merged again. */
  lemma {:induction false} NewNamingRulesReplaced(ifaces: seq<Interface>)
    ensures Seqs.Filter(Seqs.MapSome(ifaces, RenamingRuleFor), KeepNamingRule(KnownNames(ifaces))) == []
  {
    var made := Seqs.MapSome(ifaces, RenamingRuleFor);
    var kept := Seqs.Filter(made, KeepNamingRule(KnownNames(ifaces)));
    if kept != [] {
      var rule := kept[0];
      assert rule in made;
      var i :| i in ifaces && RenamingRuleFor(i) == Some(rule);
      RenamingRuleDevice(i);
      assert false;
    }
  }

  /**
   * Writing twice gives the same naming rules as writing once: the merged
   * set, read back as the current rules, merges to itself.
   */
  lemma NamingRulesIdempotent(ifaces: seq<Interface>, current: seq<UdevRule>)
    ensures NamingRules(ifaces, NamingRules(ifaces, current)) == NamingRules(ifaces, current)
  {
    var keep := KeepNamingRule(KnownNames(ifaces));
    var kept := Seqs.Filter(current, keep);
    var made := Seqs.MapSome(ifaces, RenamingRuleFor);
    Seqs.FilterConcat(kept, made, keep);
    Seqs.FilterAll(kept, keep);
    NewNamingRulesReplaced(ifaces);
    assert kept + [] == kept;
  }

  /** A rule for a device the collection does not know stays first, untouched. */
  lemma UnknownRuleKept(ifaces: seq<Interface>, current: seq<UdevRule>)
    requires current != []
    requires Device(current[0]).None? || Device(current[0]).value !in KnownNames(ifaces)
    ensures NamingRules(ifaces, current) != []
    ensures NamingRules(ifaces, current)[0] == current[0]
    ensures RuleText(NamingRules(ifaces, current)[0]) == RuleText(current[0])
  {
  }

  /** Without a MAC or bus-id renaming there is no new naming rule. */
  lemma NoRenamingNoRules(ifaces: seq<Interface>, current: seq<UdevRule>)
    requires forall i :: i in ifaces ==> i.mechanism != Some(Mac) && i.mechanism != Some(BusId)
    ensures NamingRules(ifaces, current) == Seqs.Filter(current, KeepNamingRule(KnownNames(ifaces)))
    ensures NamingRules(ifaces, []) == []
  {
    Seqs.MapSomeNone(ifaces, RenamingRuleFor);
    var kept := Seqs.Filter(current, KeepNamingRule(KnownNames(ifaces)));
    assert kept + [] == kept;
  }

  // ---------------------------------------------------------------------
  // Driver rules

  /** The driver rule an interface asks for: a custom driver on known hardware. */
  function DriverRuleFor(i: Interface): (r: Option<UdevRule>)
    ensures r.Some? <==> HardwareOf(i).Some? && i.kind.customDriver.Some?
  {
    match HardwareOf(i)
    case None => None
    case Some(hw) =>
      match i.kind.customDriver
      case Some(d) => Some(NewDriverAssignment(hw.modalias, d))
      case None => None
  }

  /** The modaliases of the hardware behind the collection's interfaces. */
  function KnownModaliases(ifaces: seq<Interface>): (r: set<string>)
    ensures forall i :: i in ifaces && HardwareOf(i).Some? ==> HardwareOf(i).value.modalias in r
    ensures forall m :: m in r ==> exists i :: i in ifaces && HardwareOf(i).Some? && HardwareOf(i).value.modalias == m
  {
    set i | i in ifaces && HardwareOf(i).Some? :: HardwareOf(i).value.modalias
  }

  /** An existing driver rule survives unless it is keyed by a modalias of the collection. */
  function KeepDriverRule(known: set<string>): UdevRule -> bool {
    (r: UdevRule) => Modalias(r).None? || Modalias(r).value !in known
  }

  /**
   * `update_drivers_udev_rules`: the existing rules for other hardware, in
   * their order, followed by one rule per interface with a custom driver.
   */
  function DriverRules(ifaces: seq<Interface>, current: seq<UdevRule>): (r: seq<UdevRule>)
    ensures forall rule :: rule in r <==>
      (rule in current && (Modalias(rule).None? || Modalias(rule).value !in KnownModaliases(ifaces))) ||
      (exists i :: i in ifaces && DriverRuleFor(i) == Some(rule))
  {
    Seqs.Filter(current, KeepDriverRule(KnownModaliases(ifaces))) + Seqs.MapSome(ifaces, DriverRuleFor)
  }

  lemma {:induction false} NewDriverRulesReplaced(ifaces: seq<Interface>)
    ensures Seqs.Filter(Seqs.MapSome(ifaces, DriverRuleFor), KeepDriverRule(KnownModaliases(ifaces))) == []
  {
    var made := Seqs.MapSome(ifaces, DriverRuleFor);
    var kept := Seqs.Filter(made, KeepDriverRule(KnownModaliases(ifaces)));
    if kept != [] {
      var rule := kept[0];
      assert rule in made;
      var i :| i in ifaces && DriverRuleFor(i) == Some(rule);
      var hw := HardwareOf(i).value;
      RuleDevices("", "", "", "", hw.modalias, i.kind.customDriver.value);
      assert false;
    }
  }

  /** Writing twice gives the same driver rules as writing once. */
  lemma DriverRulesIdempotent(ifaces: seq<Interface>, current: seq<UdevRule>)
    ensures DriverRules(ifaces, DriverRules(ifaces, current)) == DriverRules(ifaces, current)
  {
    var keep := KeepDriverRule(KnownModaliases(ifaces));
    var kept := Seqs.Filter(current, keep);
    var made := Seqs.MapSome(ifaces, DriverRuleFor);
    Seqs.FilterConcat(kept, made, keep);
    Seqs.FilterAll(kept, keep);
    NewDriverRulesReplaced(ifaces);
    assert kept + [] == kept;
  }

  // ---------------------------------------------------------------------
  // The write sequence

  /** The bring-down a renamed interface needs: `ifdown` under its old name. */
  function BringDownFor(i: Interface): (r: Option<Action>)
    ensures r.Some? <==> Renamed(i)
  {
    if Renamed(i) then Some(IfDown(i.oldName.value)) else None
  }

  /** The bring-downs of a write: none during autoinstallation. */
  function BringDowns(ifaces: seq<Interface>, autoinst: bool): (r: seq<Action>)
    ensures forall a :: a in r ==> a.IfDown?
  {
    if autoinst then [] else Seqs.MapSome(ifaces, BringDownFor)
  }

  /** The steps after the bring-downs, given the merged rule sets. */
  function Steps(netWritten: seq<UdevRule>, driversWritten: seq<UdevRule>, autoinst: bool): seq<Action> {
    [WriteNetRules(netWritten), WriteDriversRules(driversWritten), UdevadmControl, UdevadmTrigger, UdevadmSettle] +
    (if autoinst then [] else [Sleep])
  }

  /**
   * What `write` does: outside autoinstallation, bring every renamed
   * interface down; write the merged naming and driver rules; reload udev,
   * trigger the network devices, wait for udev to settle and, outside
   * autoinstallation, pause.
   */
  function WriteTrace(ifaces: seq<Interface>, netRules: seq<UdevRule>, driversRules: seq<UdevRule>,
                      autoinst: bool): seq<Action>
  {
    BringDowns(ifaces, autoinst) + Steps(NamingRules(ifaces, netRules), DriverRules(ifaces, driversRules), autoinst)
  }

  /** The loop over the collection that brings each renamed interface down. */
  method BringDownRenamed(ifaces: seq<Interface>) returns (downs: seq<Action>)
    ensures downs == Seqs.MapSome(ifaces, BringDownFor)
  {
    downs := [];
    var k := 0;
    while k < |ifaces|
      invariant 0 <= k <= |ifaces|
      invariant downs == Seqs.MapSome(ifaces[..k], BringDownFor)
    {
      BringDownStep(ifaces, k);
      if Renamed(ifaces[k]) {
        downs := downs + [IfDown(ifaces[k].oldName.value)];
      }
      k := k + 1;
    }
    assert ifaces[..k] == ifaces;
  }

  /** `InterfacesWriter#write`, given the rules currently on disk. */
  method Write(ifaces: seq<Interface>, netRules: seq<UdevRule>, driversRules: seq<UdevRule>, autoinst: bool)
    returns (trace: seq<Action>)
    ensures trace == WriteTrace(ifaces, netRules, driversRules, autoinst)
  {
    var downs: seq<Action> := [];
    if !autoinst {
      downs := BringDownRenamed(ifaces);
    }
    var net := NamingRules(ifaces, netRules);
    var drivers := DriverRules(ifaces, driversRules);
    var refresh := [WriteNetRules(net), WriteDriversRules(drivers), UdevadmControl, UdevadmTrigger, UdevadmSettle];
    trace := downs + refresh;
    if !autoinst {
      assert (downs + refresh) + [Sleep] == downs + (refresh + [Sleep]);
      trace := trace + [Sleep];
    }
  }

  /** One more interface adds its bring-down, if it needs one. */
  lemma BringDownStep(ifaces: seq<Interface>, k: nat)
    requires k < |ifaces|
    ensures Seqs.MapSome(ifaces[..k + 1], BringDownFor) ==
      Seqs.MapSome(ifaces[..k], BringDownFor) +
      (if Renamed(ifaces[k]) then [IfDown(ifaces[k].oldName.value)] else [])
  {
    assert ifaces[..k + 1] == ifaces[..k] + [ifaces[k]];
    Seqs.MapSomeConcat(ifaces[..k], [ifaces[k]], BringDownFor);
    Seqs.MapSomeOne(ifaces[k], BringDownFor);
  }

  /** The position of an action in the write sequence. */
  function Stage(a: Action): nat {
    match a
    case IfDown(_) => 0
    case WriteNetRules(_) => 1
    case WriteDriversRules(_) => 2
    case UdevadmControl => 3
    case UdevadmTrigger => 4
    case UdevadmSettle => 5
    case Sleep => 6
  }

  lemma StepsStages(netWritten: seq<UdevRule>, driversWritten: seq<UdevRule>, autoinst: bool)
    ensures var s := Steps(netWritten, driversWritten, autoinst);
      |s| == (if autoinst then 5 else 6) && forall m :: 0 <= m < |s| ==> Stage(s[m]) == m + 1
  {
  }

  /**
   * Bring-downs come strictly before the rules are written, which come
   * strictly before udev is refreshed, which comes strictly before the
   * pause; only bring-downs share a stage.
   */
  lemma WriteOrder(ifaces: seq<Interface>, netRules: seq<UdevRule>, driversRules: seq<UdevRule>, autoinst: bool)
    ensures var t := WriteTrace(ifaces, netRules, driversRules, autoinst);
      forall j, k :: 0 <= j < k < |t| ==> Stage(t[j]) < Stage(t[k]) || (t[j].IfDown? && t[k].IfDown?)
  {
    var net, drivers := NamingRules(ifaces, netRules), DriverRules(ifaces, driversRules);
    StepsStages(net, drivers, autoinst);
    OrderOfConcat(BringDowns(ifaces, autoinst), Steps(net, drivers, autoinst));
  }

  /** Bring-downs followed by steps numbered from stage 1 are in stage order. */
  lemma OrderOfConcat(downs: seq<Action>, steps: seq<Action>)
    requires forall a :: a in downs ==> a.IfDown?
    requires forall m :: 0 <= m < |steps| ==> Stage(steps[m]) == m + 1
    ensures var t := downs + steps;
      forall j, k :: 0 <= j < k < |t| ==> Stage(t[j]) < Stage(t[k]) || (t[j].IfDown? && t[k].IfDown?)
  {
    var t := downs + steps;
    var n := |downs|;
    forall j, k | 0 <= j < k < |t|
      ensures Stage(t[j]) < Stage(t[k]) || (t[j].IfDown? && t[k].IfDown?)
    {
      if k < n {
        assert t[j] == downs[j] && downs[j] in downs;
        assert t[k] == downs[k] && downs[k] in downs;
      } else if j < n {
        assert t[j] == downs[j] && downs[j] in downs;
        assert t[k] == steps[k - n];
      } else {
        assert t[j] == steps[j - n] && t[k] == steps[k - n];
      }
    }
  }

  /**
   * `ifdown` is issued for a name exactly when some interface of the
   * collection was renamed away from it and this is no autoinstallation.
   */
  lemma IfDownIff(ifaces: seq<Interface>, netRules: seq<UdevRule>, driversRules: seq<UdevRule>, autoinst: bool,
                  name: string)
    ensures IfDown(name) in WriteTrace(ifaces, netRules, driversRules, autoinst) <==>
      !autoinst && exists i :: i in ifaces && Renamed(i) && i.oldName == Some(name)
  {
    var downs := BringDowns(ifaces, autoinst);
    var steps := Steps(NamingRules(ifaces, netRules), DriverRules(ifaces, driversRules), autoinst);
    assert WriteTrace(ifaces, netRules, driversRules, autoinst) == downs + steps;
    assert IfDown(name) !in steps;
    if !autoinst {
      BringDownsIff(ifaces, name);
    }
  }

  /** The bring-down phase names exactly the old names of the renamed interfaces. */
  lemma BringDownsIff(ifaces: seq<Interface>, name: string)
    ensures IfDown(name) in Seqs.MapSome(ifaces, BringDownFor) <==>
      exists i :: i in ifaces && Renamed(i) && i.oldName == Some(name)
  {
    if exists i :: i in ifaces && Renamed(i) && i.oldName == Some(name) {
      var i :| i in ifaces && Renamed(i) && i.oldName == Some(name);
      assert BringDownFor(i) == Some(IfDown(name));
    }
  }

  /** Every write writes both rule sets and reloads, triggers and settles udev; it pauses outside autoinstallation. */
  lemma WriteRefreshesUdev(ifaces: seq<Interface>, netRules: seq<UdevRule>, driversRules: seq<UdevRule>, autoinst: bool)
    ensures var t := WriteTrace(ifaces, netRules, driversRules, autoinst);
      WriteNetRules(NamingRules(ifaces, netRules)) in t && WriteDriversRules(DriverRules(ifaces, driversRules)) in t &&
      UdevadmControl in t && UdevadmTrigger in t && UdevadmSettle in t && (Sleep in t <==> !autoinst)
  {
    var downs := BringDowns(ifaces, autoinst);
    var steps := Steps(NamingRules(ifaces, netRules), DriverRules(ifaces, driversRules), autoinst);
    assert Sleep !in downs;
    assert steps[0] in steps && steps[1] in steps && steps[2] in steps && steps[3] in steps && steps[4] in steps;
    if !autoinst {
      assert steps[5] in steps;
    }
  }

  /**
   * An interface with hardware, renamed for the first time with the MAC
   * mechanism, alone in its collection and with no rules on disk: it is
   * brought down under its kernel name, its rule is the only naming rule and
   * names it by its new name and MAC address.
   */
  lemma MacRenameWrite(i: Interface, hw: Hwinfo, newName: string)
    requires HardwareOf(i) == Some(hw) && i.oldName.None? && i.name != newName
    ensures var r := Rename(i, newName, Some(Mac));
      var t := WriteTrace([r], [], [], false);
      t[0] == IfDown(i.name) &&
      t[1] == WriteNetRules([NewMacBasedRename(newName, hw.mac)])
  {
    var r := Rename(i, newName, Some(Mac));
    assert HardwareOf(r) == Some(hw);
    SingleRenameWrite(r, NewMacBasedRename(newName, hw.mac), i.name);
  }

  /** The same with the bus-id mechanism: the rule matches bus id and device port. */
  lemma BusIdRenameWrite(i: Interface, hw: Hwinfo, newName: string)
    requires HardwareOf(i) == Some(hw) && i.oldName.None? && i.name != newName
    ensures var r := Rename(i, newName, Some(BusId));
      var t := WriteTrace([r], [], [], false);
      t[0] == IfDown(i.name) &&
      t[1] == WriteNetRules([NewBusIdBasedRename(newName, hw.busid, hw.devPort)])
  {
    var r := Rename(i, newName, Some(BusId));
    assert HardwareOf(r) == Some(hw);
    SingleRenameWrite(r, NewBusIdBasedRename(newName, hw.busid, hw.devPort), i.name);
  }

  /** A collection of one renamed interface, with no rules on disk: its bring-down, then its rule alone. */
  lemma SingleRenameWrite(r: Interface, rule: UdevRule, oldName: string)
    requires BringDownFor(r) == Some(IfDown(oldName)) && RenamingRuleFor(r) == Some(rule)
    ensures var t := WriteTrace([r], [], [], false);
      t[0] == IfDown(oldName) && t[1] == WriteNetRules([rule])
  {
    Seqs.MapSomeOne(r, BringDownFor);
    Seqs.MapSomeOne(r, RenamingRuleFor);
    var downs := BringDowns([r], false);
    assert downs == [IfDown(oldName)];
    var net := NamingRules([r], []);
    assert net == [rule];
    var t := WriteTrace([r], [], [], false);
    assert t == downs + Steps(net, DriverRules([r], []), false);
  }

  /** An interface with a custom driver and no driver rules on disk: its rule is the only driver rule. */
  lemma CustomDriverWrite(i: Interface, hw: Hwinfo, driver: string)
    requires HardwareOf(i) == Some(hw) && i.kind.customDriver == Some(driver)
    ensures DriverRules([i], []) == [NewDriverAssignment(hw.modalias, driver)]
  {
    assert Seqs.MapSome([i], DriverRuleFor) == [NewDriverAssignment(hw.modalias, driver)];
  }
}
