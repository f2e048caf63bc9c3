# yast-network core, modelled in Dafny

This project models four parts of the YaST network module (yast-network):

1. **The network configuration aggregate** (`Y2Network::Config`). It holds:
   - interfaces;
   - connection configs (ethernet, wireless, bridge ports, bond slaves, VLAN parent device, dummy);
   - drivers;
   - DNS with its `dhcp_hostname`;
   - routing.

   The model covers its cascading mutations: `rename_interface`, `delete_interface` (with the VLAN cascade), `add_or_update_connection_config`, `add_or_update_driver`, `configured_interface?`, `drivers_for_interface`, `copy` and `==`. It also covers the per-process registry `add`/`find`/`reset` and `Routing#routes`.
2. **The interfaces writer** (`Y2Network::Sysconfig::InterfacesWriter`):
   - the text of udev rules, with a parser proved to be its inverse;
   - how new renaming and driver rules are merged with the rules already on disk;
   - the order of the external effects of `write` (ifdown, rule files, udevadm, pause), recorded as an action trace.
3. **The base connection-config reader** (`Y2Network::Sysconfig::ConnectionConfigReaders::Base`):
   - the field mapping of `connection_config`, with its defaults;
   - the split into a primary IP and IP aliases;
   - `all_ips` and `build_ip`;
   - the `hostname` guard;
   - the CamelCase to snake_case class-name rewrite of `connection_class`.
4. **The bond slave widget** (`Y2Network::Widgets::BondSlave`):
   - `justify_dev_name`;
   - the ordering of `init`;
   - `repeated_physical_port_ids`;
   - the Up/Down swap of `handle`;
   - `enable_slave_buttons`.

The sources of `Config`, `InterfacesWriter`, `UdevRule` and `Interface` are not part of this model. Their behaviour is taken from their tests, `test/y2network/config_test.rb` and `test/y2network/sysconfig/interfaces_writer_test.rb`, so the rows below for those parts cite test lines.

## Layout

| file | module | what |
|---|---|---|
| `wrappers.dfy` | `Wrappers` | `Option` (Ruby `nil`) |
| `seqs.dfy` | `Seqs` | `select`, `map`+`compact`, `find_index` and the upsert shared by the collections |
| `interfaces.dfy` | `Interfaces` | interfaces, hardware descriptors, renaming mechanisms, `Interface#rename` |
| `connection_configs.dfy` | `ConnectionConfigs` | connection configs, IP configs, and renaming or dropping a name in ports, slaves and parent device |
| `routing.dfy` | `Routing` | routes, tables, `Routing#routes` |
| `config.dfy` | `NetworkConfig` | the `Config` class, its specification functions and lemmas, and the `Registry` |
| `udev_rule.dfy` | `UdevRules` | udev rules: construction, rendering, parsing |
| `interfaces_writer.dfy` | `InterfacesWriter` | rule merging and the `write` trace |
| `connection_config_reader.dfy` | `ConnectionConfigReaders` | the base reader: a `Reader` class with the memoised `all_ips`, and the name rewrite |
| `bond_slave.dfy` | `BondSlaveWidget` | the widget's ordering, grouping and swapping, and a `BondSlave` class for its state |

Where the source mutates objects, the model is imperative:
- A `Config` object holds its collections in `seq` fields, and its methods state the new state through specification functions on a `Snapshot` value.
- The reader memoises `all_ips` in a field.
- The widget's item list is updated by swapping in an `array`.

The properties the tests and comments promise are proved as lemmas about those specification functions.

## Model

| member | source | states |
|---|---|---|
| Interfaces.Rename | test/y2network/config_test.rb:178-189 | the renamed interface has the new name and mechanism and keeps its kind; the name it had is recorded as its old name only on the first rename |
| Interfaces.RenameTwice | test/y2network/config_test.rb:190-204 | after two renames the last name and the last mechanism win, and the old name is still the original one |
| Interfaces.KnownNames | test/y2network/sysconfig/interfaces_writer_test.rb:117-132 | the set holds exactly the current and the old names of the collection's interfaces |
| ConnectionConfigs.RenameAll | test/y2network/config_test.rb:236-289 | every config has its references to the old name renamed; stated by `RenameAllSpec` and `RenameAllTwice` |
| ConnectionConfigs.RenameAllSpec | test/y2network/config_test.rb:236-289 | renaming a name in all configs replaces it in bridge ports, bond slaves, VLAN parent device and bound interface, position by position, and leaves no mention of the old name |
| ConnectionConfigs.RenameKeepsBinding | test/y2network/config_test.rb:178-189 | a config bound to the old name is bound to the new name afterwards, so `by_interface(new)` is not empty |
| ConnectionConfigs.RenameAllTwice | test/y2network/config_test.rb:190-204 | renaming `o -> mid -> n` equals renaming `o -> n` when nothing mentioned `mid` |
| ConnectionConfigs.DropMember | test/y2network/config_test.rb:369-403 | the name leaves a bridge's ports or a bond's slaves; stated by `DropMemberShrinks` |
| ConnectionConfigs.DropMemberShrinks | test/y2network/config_test.rb:369-403 | dropping a name from a bridge or bond removes exactly that name: every other member stays, each occurrence, in its order; a VLAN is left unchanged |
| ConnectionConfigs.ShrunkTransitive | test/y2network/config_test.rb:369-423 | two successive member drops are again a drop of whole names that keeps the order of the remaining members |
| Routing.Routes | test/y2network/config_test.rb:104-108 | all routes of all tables, table by table; membership and order are stated by `RoutesMembership` and `RoutesAppend` |
| Routing.RoutesMembership | test/y2network/config_test.rb:104-108 | a route is among `routes` iff it is in one of the tables |
| Routing.RoutesAppend | test/y2network/config_test.rb:104-108 | the routes of concatenated table lists are the concatenated routes, so table order is kept |
| Routing.RoutesOfTwoTables | test/y2network/config_test.rb:104-108 | two one-route tables give `[route1, route2]` |
| NetworkConfig.RenameInterfaceIn | test/y2network/config_test.rb:178-189 | the first interface with the name is renamed in its place, the others untouched; stated by `RenameInterfaceInSpec` |
| NetworkConfig.RenameDhcp | test/y2network/config_test.rb:214-234 | `dhcp_hostname` moves to the new name only when it named the old one; stated by `RenameSnapshotSpec` |
| NetworkConfig.RenameSnapshot | test/y2network/config_test.rb:177-289 | the state after `rename_interface`: interface, config references and `dhcp_hostname` follow the new name; stated by `RenameSnapshotSpec`, `RenameMechanismOnly` and `RenameSnapshotTwice` |
| NetworkConfig.RenameInterfaceInSpec | test/y2network/config_test.rb:178-189 | renaming to a free name keeps the names unique; the new name finds the renamed interface and the old name finds nothing |
| NetworkConfig.RenameSnapshotSpec | test/y2network/config_test.rb:177-289 | after a rename: exactly one interface has the new name, with the new mechanism; configs bound to the old name are bound to the new one; no config mentions the old name; `dhcp_hostname` follows only when it named the old interface |
| NetworkConfig.RenameMechanismOnly | test/y2network/config_test.rb:206-212 | without an old name only the mechanism of the interface already called `new` changes; configs and DNS stay |
| NetworkConfig.RenameSnapshotTwice | test/y2network/config_test.rb:190-204 | two successive renames end with the last name, the last mechanism and the original old name, and with configs and DNS as after a direct rename |
| NetworkConfig.Config.RenameInterface | test/y2network/config_test.rb:177-289 | the object's new state is the rename specification applied to its old state when the interface exists, and unchanged otherwise; routing, drivers and source never change |
| NetworkConfig.FirstVlanOn | test/y2network/config_test.rb:405-423 | finds a VLAN config whose parent device is the name, and finds none exactly when there is none |
| NetworkConfig.DropInterface | test/y2network/config_test.rb:436-461 | an interface with the name is dropped unless it is a present physical one; stated by `DeleteInterfacesSpec` and `DeleteCascadeInterfaceFate` |
| NetworkConfig.Detach | test/y2network/config_test.rb:357-403 | one deletion step: configs bound to the name go, the name leaves every port and slave list, the interface is dropped and `dhcp_hostname` cleared; stated by `DetachRemovesBound`, `DetachDropsMembers` and `DetachEvolves` |
| NetworkConfig.DetachRemovesBound | test/y2network/config_test.rb:357-367 | removing the configs bound to the name removes at least one when one was bound |
| NetworkConfig.DeleteCascade | test/y2network/config_test.rb:346-463 | deletion never adds configs, and removes at least one when a config is bound to the name |
| NetworkConfig.CascadeVlans | test/y2network/config_test.rb:405-423 | the VLAN cascade never adds configs; what it removes is stated by `DeleteCascadeDeletesVlans` |
| NetworkConfig.CascadeVlansClears | test/y2network/config_test.rb:405-423 | after the cascade no VLAN config has the deleted name as its parent device |
| NetworkConfig.DeleteDropsReferences | test/y2network/config_test.rb:369-423 | after `delete_interface(name)` no config is bound to the name, lists it as a bridge port or a bond slave, or has it as VLAN parent |
| NetworkConfig.DeleteClearsDhcp | test/y2network/config_test.rb:425-434 | `dhcp_hostname` never names the deleted interface afterwards; if it did before, it becomes `:none` |
| NetworkConfig.DeleteInterfacesSpec | test/y2network/config_test.rb:357-462 | an interface with the deleted name remains only when it is a present physical one; no interface is added; every present physical interface is kept |
| NetworkConfig.DeleteWithoutVlans | test/y2network/config_test.rb:357-403 | without a VLAN on top of the name, deletion is the single detach step |
| NetworkConfig.DeleteCascadeEvolves | test/y2network/config_test.rb:346-463 | deletion only removes interfaces other than present physical ones, keeping the order of the rest, only shrinks the remaining configs, and changes DNS at most by setting `:none` |
| NetworkConfig.CascadeVlansEvolves | test/y2network/config_test.rb:405-423 | the same for the VLAN cascade |
| NetworkConfig.DetachEvolves | test/y2network/config_test.rb:357-403 | the same for the single detach step |
| NetworkConfig.EvolvesTransitive | test/y2network/config_test.rb:405-423 | steps of this kind compose, so the recursive cascade keeps them |
| NetworkConfig.DetachDropsMembers | test/y2network/config_test.rb:369-403 | after the detach step no remaining config is bound to the name or lists it as a port or slave |
| NetworkConfig.DerivedStaysClear | test/y2network/config_test.rb:369-423 | a config that did not mention the name and was only shrunk still does not mention it |
| NetworkConfig.EvolvesVlanInterfaces | test/y2network/config_test.rb:405-423 | deletions never create new VLAN interfaces |
| NetworkConfig.DeleteCascadeKeeps | test/y2network/config_test.rb:369-403 | take any set of names that holds the deleted name and, with a VLAN's parent device, its interface (so every name the cascade can reach); a config bound to a name outside that set survives the deletion with all its settings, and its ports or slaves keep their order and lose only names in the set |
| NetworkConfig.CascadeVlansKeeps | test/y2network/config_test.rb:405-423 | the same for the VLAN cascade |
| NetworkConfig.EvolvesVlanClosed | test/y2network/config_test.rb:405-423 | a set of names closed under VLAN parents stays closed through deletions, so the reach of later cascade steps stays inside it |
| NetworkConfig.DeleteCascadeKeepsInterface | test/y2network/config_test.rb:441-461 | an interface whose name lies outside such a set survives the deletion |
| NetworkConfig.CascadeVlansKeepsInterface | test/y2network/config_test.rb:405-423 | the same for the VLAN cascade |
| NetworkConfig.DeleteKeepsUnrelatedVlan | test/y2network/config_test.rb:405-423 | with no VLAN on top of the deleted name, a VLAN config bound to another interface and that interface both survive |
| NetworkConfig.GoneEvolves | test/y2network/config_test.rb:405-423 | a name no config mentions, and only a present physical interface carries, stays so through further deletions |
| NetworkConfig.DeleteCascadeGoneSelf | test/y2network/config_test.rb:357-462 | after `delete_interface(name)` no config mentions the name, and only a present physical interface can still carry it |
| NetworkConfig.DeleteCascadeFate | test/y2network/config_test.rb:346-463 | every config either survives the deletion, shrunk at most, or its interface is gone altogether |
| NetworkConfig.CascadeVlansFate | test/y2network/config_test.rb:405-423 | the same for the VLAN cascade |
| NetworkConfig.DeleteCascadeDeletesVlans | test/y2network/config_test.rb:405-423 | every VLAN whose parent device is the deleted name is deleted too: no config is bound to or refers to its interface, and only a present physical interface can keep that name |
| NetworkConfig.DeleteCascadeInterfaceFate | test/y2network/config_test.rb:441-461 | every interface either survives the deletion or its name is gone altogether |
| NetworkConfig.CascadeVlansInterfaceFate | test/y2network/config_test.rb:405-423 | the same for the VLAN cascade |
| NetworkConfig.DeleteConsistent | test/y2network/config_test.rb:346-463 | deletion keeps interface names unique and every remaining config bound to an existing interface |
| NetworkConfig.RenameConsistent | test/y2network/config_test.rb:177-289 | renaming an interface to a free name keeps interface names unique and every config bound to an existing interface |
| NetworkConfig.Config.RenameReferencesInPlace | test/y2network/config_test.rb:177-289 | every config has its references to the old name renamed; nothing else changes |
| NetworkConfig.Config.DropMemberInPlace | test/y2network/config_test.rb:346-463 | every config drops the deleted name from its members; nothing else changes |
| NetworkConfig.Config.DeleteInterface | test/y2network/config_test.rb:346-463 | the object's new state is the deletion specification applied to its old state; routing, drivers and source are unchanged |
| NetworkConfig.AddConnectionSpec | test/y2network/config_test.rb:292-344 | afterwards `by_name(conn.name)` is the new config; the bound interface exists; a missing one was appended, virtual exactly for virtual kinds; an existing one leaves the interfaces unchanged |
| NetworkConfig.AddConsistent | test/y2network/config_test.rb:292-344 | adding or updating a config keeps interface names unique and every config bound to an existing interface |
| NetworkConfig.Config.AddOrUpdateConnectionConfig | test/y2network/config_test.rb:292-344 | connections are upserted by name, and the missing interface is added; nothing else changes |
| NetworkConfig.Config.AddOrUpdateDriver | test/y2network/config_test.rb:491-507 | drivers are upserted by name; nothing else changes |
| Seqs.Upsert | test/y2network/config_test.rb:491-507 | replace the element with the same key, or append; stated by `UpsertSpec` |
| Seqs.UpsertSpec | test/y2network/config_test.rb:491-507 | a new name is appended last; an existing one is replaced in place; every other element is unchanged |
| Seqs.FindIndex | test/y2network/config_test.rb:491-507 | the loop returns the first index whose key matches, or none |
| NetworkConfig.Config.ConfiguredInterface | test/y2network/config_test.rb:509-533 | true iff the name is present, not empty, and some config is bound to it |
| NetworkConfig.BoundByFilter | test/y2network/config_test.rb:509-533 | a name is bound iff `by_interface` returns a non-empty list |
| NetworkConfig.Config.DriversForInterface | test/y2network/config_test.rb:465-489 | present iff the interface exists; holds exactly the configured drivers named by its hardware drivers or its custom driver, every occurrence, in configured order |
| NetworkConfig.DriversForInterfaceExample | test/y2network/config_test.rb:470-477 | with three configured drivers and hardware using only the first, the result is exactly that one driver |
| NetworkConfig.Config.Copy | test/y2network/config_test.rb:124-146 | the copy is a fresh object with the same contents, and equals the original |
| NetworkConfig.CopyIsolation | test/y2network/config_test.rb:131-136 | clearing the copy's routing tables leaves the original's tables; the copy then differs from an original that had tables |
| NetworkConfig.Config.constructor | test/y2network/config_test.rb:36-41 | the object holds the given interfaces, connections, routing, DNS, drivers and source |
| NetworkConfig.Registry.Add | test/y2network/config_test.rb:80-86 | the configuration is registered under its id |
| NetworkConfig.Registry.Find | test/y2network/config_test.rb:88-102 | present iff a configuration was registered under the id, and then it is that one |
| NetworkConfig.Registry.Reset | test/y2network/config_test.rb:32-34 | no configuration remains registered |
| NetworkConfig.Registry.constructor | test/y2network/config_test.rb:32-34 | the registry starts empty |
| UdevRules.PartText | test/y2network/sysconfig/interfaces_writer_test.rb:91-99 | a part renders as key, operator and quoted value; its inverse is `ParsePartText` |
| UdevRules.RuleText | test/y2network/sysconfig/interfaces_writer_test.rb:88-115 | a rule renders as its parts joined by `, `; stated by `JoinCons` and, with `Parse`, by `ParseRuleText` and `RuleTextOfParse` |
| UdevRules.Parse | test/y2network/sysconfig/interfaces_writer_test.rb:117-132 | reads a rule line back into parts; inverse of `RuleText` by `ParseRuleText` and `RuleTextOfParse` |
| UdevRules.NewMacBasedRename | test/y2network/sysconfig/interfaces_writer_test.rb:88-101 | the MAC renaming rule; its text is stated by `MacRuleText` |
| UdevRules.NewBusIdBasedRename | test/y2network/sysconfig/interfaces_writer_test.rb:103-115 | the bus-id renaming rule; its text is stated by `BusIdRuleText` |
| UdevRules.NewDriverAssignment | test/y2network/sysconfig/interfaces_writer_test.rb:146-157 | the driver rule; its text is stated by `DriverRuleText` |
| UdevRules.ValueOf | test/y2network/sysconfig/interfaces_writer_test.rb:117-132 | finds the first part with the key and operator, and finds nothing exactly when there is no such part |
| UdevRules.JoinCons | test/y2network/sysconfig/interfaces_writer_test.rb:91-99 | a rule's line is its parts joined by `, `, split after the first part |
| UdevRules.JoinSeven | test/y2network/sysconfig/interfaces_writer_test.rb:91-99 | a seven-part rule renders to its part texts joined by `, ` |
| UdevRules.NetDeviceMatchText | test/y2network/sysconfig/interfaces_writer_test.rb:94-95 | the common match parts render as `SUBSYSTEM=="net"`, `ACTION=="add"`, `DRIVERS=="?*"`, `ATTR{type}=="1"` |
| UdevRules.MacRuleText | test/y2network/sysconfig/interfaces_writer_test.rb:88-101 | a MAC renaming rule renders to exactly the tested line, with the MAC and the new name |
| UdevRules.BusIdRuleText | test/y2network/sysconfig/interfaces_writer_test.rb:103-115 | a bus-id renaming rule renders to exactly the tested line, with bus id, device port and the new name |
| UdevRules.DriverRuleText | test/y2network/sysconfig/interfaces_writer_test.rb:146-157 | a driver rule renders to exactly `ENV{MODALIAS}=="<modalias>", ENV{MODALIAS}="<driver>"` |
| UdevRules.RuleDevices | test/y2network/sysconfig/interfaces_writer_test.rb:117-132 | a renaming rule names the device it renames; a driver rule names its modalias and no device |
| UdevRules.Take | test/y2network/sysconfig/interfaces_writer_test.rb:117-132 | splits a line after its longest prefix of allowed characters; the two parts join back to the line |
| UdevRules.TakeOf | test/y2network/sysconfig/interfaces_writer_test.rb:117-132 | splitting a concatenation at a boundary gives back its two parts |
| UdevRules.ParsePart | test/y2network/sysconfig/interfaces_writer_test.rb:117-132 | parsing one part consumes input |
| UdevRules.ParsePartText | test/y2network/sysconfig/interfaces_writer_test.rb:117-132 | parsing a rendered well-formed part returns it and the rest of the line |
| UdevRules.ParsePartsJoin | test/y2network/sysconfig/interfaces_writer_test.rb:117-132 | parsing rendered well-formed parts returns them |
| UdevRules.ParseRuleText | test/y2network/sysconfig/interfaces_writer_test.rb:117-132 | parsing a rendered well-formed rule gives the rule back |
| UdevRules.ParsePartInverse | test/y2network/sysconfig/interfaces_writer_test.rb:117-132 | a parsed part is well formed, and re-rendering it gives back the text it consumed |
| UdevRules.ParsePartsSome | test/y2network/sysconfig/interfaces_writer_test.rb:117-132 | a parsed line is one part followed by the end or by `, ` and more parts |
| UdevRules.ParsedPartsWellFormed | test/y2network/sysconfig/interfaces_writer_test.rb:117-132 | every parsed part is well formed |
| UdevRules.JoinOfParseParts | test/y2network/sysconfig/interfaces_writer_test.rb:117-132 | rendering the parsed parts gives back the line |
| UdevRules.RuleTextOfParse | test/y2network/sysconfig/interfaces_writer_test.rb:117-132 | a parsed rule is well formed and re-renders to the same line, so a kept rule's text is unchanged |
| UdevRules.NetDeviceMatchWellFormed | test/y2network/sysconfig/interfaces_writer_test.rb:94-95 | the common match parts are well formed |
| UdevRules.RenameRulesWellFormed | test/y2network/sysconfig/interfaces_writer_test.rb:88-115 | renaming rules are well formed when their values hold no quote |
| UdevRules.DriverRuleWellFormed | test/y2network/sysconfig/interfaces_writer_test.rb:146-157 | driver rules are well formed when their values hold no quote |
| InterfacesWriter.RenamingRuleFor | test/y2network/sysconfig/interfaces_writer_test.rb:88-144 | an interface gets a renaming rule iff it has hardware and is renamed by MAC or bus id |
| InterfacesWriter.RenamingRuleDevice | test/y2network/sysconfig/interfaces_writer_test.rb:88-115 | the renaming rule names the interface's current name |
| InterfacesWriter.NamingRules | test/y2network/sysconfig/interfaces_writer_test.rb:88-144 | the written naming rules are exactly the existing rules for devices the collection does not know, plus the rules the interfaces ask for |
| InterfacesWriter.NewNamingRulesReplaced | test/y2network/sysconfig/interfaces_writer_test.rb:88-115 | none of the writer's own naming rules would be kept as a foreign rule |
| InterfacesWriter.NamingRulesIdempotent | test/y2network/sysconfig/interfaces_writer_test.rb:88-132 | merging again with the rules just written changes nothing |
| InterfacesWriter.UnknownRuleKept | test/y2network/sysconfig/interfaces_writer_test.rb:117-132 | an existing first rule for an unknown device stays first, and its text is unchanged |
| InterfacesWriter.NoRenamingNoRules | test/y2network/sysconfig/interfaces_writer_test.rb:135-144 | without MAC or bus-id renames no new rule is produced; with no rules on disk the list is empty |
| InterfacesWriter.DriverRuleFor | test/y2network/sysconfig/interfaces_writer_test.rb:146-157 | an interface gets a driver rule iff it has hardware and a custom driver |
| InterfacesWriter.KnownModaliases | test/y2network/sysconfig/interfaces_writer_test.rb:146-157 | the set holds exactly the modaliases of the collection's hardware |
| InterfacesWriter.DriverRules | test/y2network/sysconfig/interfaces_writer_test.rb:146-157 | the written driver rules are exactly the existing rules for other modaliases, plus the rules the interfaces ask for |
| InterfacesWriter.NewDriverRulesReplaced | test/y2network/sysconfig/interfaces_writer_test.rb:146-157 | none of the writer's own driver rules would be kept as a foreign rule |
| InterfacesWriter.DriverRulesIdempotent | test/y2network/sysconfig/interfaces_writer_test.rb:146-157 | merging the driver rules again changes nothing |
| InterfacesWriter.CustomDriverWrite | test/y2network/sysconfig/interfaces_writer_test.rb:146-157 | an interface with a custom driver and no rules on disk gives exactly its one driver rule |
| InterfacesWriter.BringDownFor | test/y2network/sysconfig/interfaces_writer_test.rb:67-75 | an interface is brought down iff it was renamed |
| InterfacesWriter.BringDowns | test/y2network/sysconfig/interfaces_writer_test.rb:67-86 | the bring-down phase issues only `ifdown` actions |
| InterfacesWriter.Steps | test/y2network/sysconfig/interfaces_writer_test.rb:159-164 | the actions after the bring-downs; stated by `StepsStages` |
| InterfacesWriter.WriteTrace | test/y2network/sysconfig/interfaces_writer_test.rb:67-164 | the action trace of `write`; stated by `WriteOrder`, `IfDownIff` and `WriteRefreshesUdev` |
| InterfacesWriter.Write | test/y2network/sysconfig/interfaces_writer_test.rb:67-164 | the method performs the specified action trace of `write`: the bring-downs, the two rule files, the udev refresh, and the pause outside autoinstallation |
| InterfacesWriter.BringDownRenamed | test/y2network/sysconfig/interfaces_writer_test.rb:67-86 | the loop over the interfaces issues `ifdown` for the old name of each renamed interface, in collection order |
| InterfacesWriter.OrderOfConcat | test/y2network/sysconfig/interfaces_writer_test.rb:67-164 | bring-downs followed by steps in stage order give a trace ordered by stage |
| InterfacesWriter.StepsStages | test/y2network/sysconfig/interfaces_writer_test.rb:159-164 | after the bring-downs come the two rule files, then control, trigger and settle, then the pause outside autoinstallation |
| InterfacesWriter.WriteOrder | test/y2network/sysconfig/interfaces_writer_test.rb:67-164 | in every trace, bring-downs precede rule writing, which precedes the udev refresh, which precedes the pause |
| InterfacesWriter.IfDownIff | test/y2network/sysconfig/interfaces_writer_test.rb:67-86 | `ifdown <name>` is issued iff some interface was renamed away from that name and this is not an autoinstallation |
| InterfacesWriter.BringDownsIff | test/y2network/sysconfig/interfaces_writer_test.rb:67-86 | the bring-down phase names a name iff some interface was renamed away from it |
| InterfacesWriter.WriteRefreshesUdev | test/y2network/sysconfig/interfaces_writer_test.rb:159-164 | every write writes both rule files and runs udevadm control, trigger and settle; it pauses iff not autoinstalling |
| InterfacesWriter.SingleRenameWrite | test/y2network/sysconfig/interfaces_writer_test.rb:67-115 | with one renamed interface and no rules on disk, the trace starts with its bring-down and then writes exactly its rule |
| InterfacesWriter.MacRenameWrite | test/y2network/sysconfig/interfaces_writer_test.rb:67-101 | renaming `eth0` by MAC brings `eth0` down and writes exactly the MAC rule for the new name |
| InterfacesWriter.BusIdRenameWrite | test/y2network/sysconfig/interfaces_writer_test.rb:103-115 | renaming by bus id brings the old name down and writes exactly the bus-id rule for the new name |
| ConnectionConfigReaders.Get | src/lib/y2network/sysconfig/connection_config_readers/base.rb:93-99 | a hash lookup is present iff the key is there, and is then its value |
| ConnectionConfigReaders.BuildIp | src/lib/y2network/sysconfig/connection_config_readers/base.rb:111-118 | an address that has a prefix comes back unchanged; otherwise a given prefix wins over a given netmask; the address itself never changes |
| ConnectionConfigReaders.EntryConfig | src/lib/y2network/sysconfig/connection_config_readers/base.rb:90-100 | only valid addresses give an IP config; it carries the entry's id and the label, remote address and broadcast stored under that id |
| ConnectionConfigReaders.AllIpsOf | src/lib/y2network/sysconfig/connection_config_readers/base.rb:89-102 | the IP configs of the file's valid entries; stated by `AllIpsSpec` and `AllIpsInOrder` |
| ConnectionConfigReaders.AllIpsSpec | src/lib/y2network/sysconfig/connection_config_readers/base.rb:89-102 | `all_ips` holds exactly the configs of the valid entries, and nothing when no entry is valid |
| ConnectionConfigReaders.AllIpsInOrder | src/lib/y2network/sysconfig/connection_config_readers/base.rb:89-102 | `all_ips` follows file order: the entries of a prefix come first |
| ConnectionConfigReaders.Reader.constructor | src/lib/y2network/sysconfig/connection_config_readers/base.rb:41-43 | the reader holds the file and nothing memoised |
| ConnectionConfigReaders.Reader.AllIps | src/lib/y2network/sysconfig/connection_config_readers/base.rb:89-102 | returns the specified list of IP configs and memoises it |
| ConnectionConfigReaders.CollectIps | src/lib/y2network/sysconfig/connection_config_readers/base.rb:89-102 | the loop over the entries collects the config of every valid entry, in file order |
| ConnectionConfigReaders.Reader.BuildConnectionConfig | src/lib/y2network/sysconfig/connection_config_readers/base.rb:48-64 | the config built field by field is the specified mapping of the file |
| ConnectionConfigReaders.ConnectionConfigOf | src/lib/y2network/sysconfig/connection_config_readers/base.rb:48-64 | the config built from a file; stated by `ConnectionConfigDefaults`, `IpSplit`, `Hostname` and `NoIpNoHostname` |
| ConnectionConfigReaders.StartmodeOf | src/lib/y2network/sysconfig/connection_config_readers/base.rb:57-58 | the start mode, "manual" by default, with the priority only for "ifplugd"; stated by `ConnectionConfigDefaults` |
| ConnectionConfigReaders.ConnectionConfigDefaults | src/lib/y2network/sysconfig/connection_config_readers/base.rb:50-58 | boot protocol defaults to "static" and start mode to "manual"; the priority is copied only for "ifplugd"; name and interface are both the file's interface |
| ConnectionConfigReaders.PrimaryIp | src/lib/y2network/sysconfig/connection_config_readers/base.rb:53 | the first IP config with an empty id; stated by `IpSplit` |
| ConnectionConfigReaders.IpAliases | src/lib/y2network/sysconfig/connection_config_readers/base.rb:54 | the IP configs with a non-empty id; stated by `IpSplit` |
| ConnectionConfigReaders.IpSplit | src/lib/y2network/sysconfig/connection_config_readers/base.rb:53-54 | the primary IP is the first config with an empty id, and exists iff one does; the aliases are exactly the configs with a non-empty id; further empty-id configs are in neither |
| ConnectionConfigReaders.Hostname | src/lib/y2network/sysconfig/connection_config_readers/base.rb:123-128 | no hostname without a primary IP; otherwise the first name the host table gives for its address, if any |
| ConnectionConfigReaders.NoIpNoHostname | src/lib/y2network/sysconfig/connection_config_readers/base.rb:53-61 | a file without an empty-id address gives a config with no IP and no hostname |
| ConnectionConfigReaders.Underscore | src/lib/y2network/sysconfig/connection_config_readers/base.rb:73 | the rewrite never shortens the name; what it inserts is stated by `UnderscoreInverse` and `UnderscoreBeforeCapital` |
| ConnectionConfigReaders.UnderscoreNoCapitals | src/lib/y2network/sysconfig/connection_config_readers/base.rb:73 | a name without capitals is left as it is |
| ConnectionConfigReaders.UnderscoreCopy | src/lib/y2network/sysconfig/connection_config_readers/base.rb:73 | unfolding step used by the proofs: a character not followed by a capital, or not a word character, is copied |
| ConnectionConfigReaders.UnderscoreSplit | src/lib/y2network/sysconfig/connection_config_readers/base.rb:73 | unfolding step used by the proofs: a word character followed by a capital gets `_` between them |
| ConnectionConfigReaders.UnderscoreBeforeCapital | src/lib/y2network/sysconfig/connection_config_readers/base.rb:73 | a lower-case word followed by a capital gets exactly one `_` before the capital |
| ConnectionConfigReaders.UnderscoreInverse | src/lib/y2network/sysconfig/connection_config_readers/base.rb:73 | removing the underscores gives back a name that had none, so the rewrite only inserts `_` |
| ConnectionConfigReaders.RemoveInserted | src/lib/y2network/sysconfig/connection_config_readers/base.rb:73 | removing underscores drops an inserted `_` |
| ConnectionConfigReaders.RemoveKept | src/lib/y2network/sysconfig/connection_config_readers/base.rb:73 | removing underscores keeps other characters |
| ConnectionConfigReaders.Downcase | src/lib/y2network/sysconfig/connection_config_readers/base.rb:73 | lower-casing keeps the length, turns each capital A-Z into its lower-case letter and changes nothing else |
| ConnectionConfigReaders.DowncaseConcat | src/lib/y2network/sysconfig/connection_config_readers/base.rb:73 | lower-casing works piecewise |
| ConnectionConfigReaders.ClassFileName | src/lib/y2network/sysconfig/connection_config_readers/base.rb:72-73 | the file name of a class name: `Underscore` then `Downcase`; stated by `ClassFileNameOneWord`, `ClassFileNameTwoWords` and `ClassFileNameCapitals` |
| ConnectionConfigReaders.ClassFileNameOneWord | src/lib/y2network/sysconfig/connection_config_readers/base.rb:72-73 | `Vlan` becomes `vlan` |
| ConnectionConfigReaders.ClassFileNameTwoWords | src/lib/y2network/sysconfig/connection_config_readers/base.rb:72-73 | a two-word CamelCase name such as `BondSlave` becomes its two lower-cased words joined by `_` |
| ConnectionConfigReaders.UnderscoreTwoWords | src/lib/y2network/sysconfig/connection_config_readers/base.rb:73 | a capital after a lower-case word gets one `_` in front, and the rest of each word is copied |
| ConnectionConfigReaders.ClassFileNameCapitals | src/lib/y2network/sysconfig/connection_config_readers/base.rb:73 | matches do not overlap: `ABC` becomes `a_bc` |
| BondSlaveWidget.Scan | src/lib/y2network/widgets/bond_slave.rb:185 | the runs of letters and of digits in a name; stated by `ScanRuns`, `ScanAlphaRun`, `ScanDigitRun` and `ScanWordNumber` |
| BondSlaveWidget.Justify | src/lib/y2network/widgets/bond_slave.rb:186-192 | a digit run is padded to five digits, a letter run kept; stated by `JustifyAlnum`, `JustifyKeepsValue` and `JustifyShort` |
| BondSlaveWidget.JoinJustified | src/lib/y2network/widgets/bond_slave.rb:186-192 | the justified runs joined; stated by `JoinJustifiedAlnum` and `JoinTwo` |
| BondSlaveWidget.JustifyDevName | src/lib/y2network/widgets/bond_slave.rb:184-193 | the sort key of a device name; stated by `JustifyDevNameAlnum`, `NumberedDevicesOrder` and the examples |
| BondSlaveWidget.Leading | src/lib/y2network/widgets/bond_slave.rb:185 | the length of the longest prefix of characters of one class |
| BondSlaveWidget.ScanRuns | src/lib/y2network/widgets/bond_slave.rb:185 | the scan yields non-empty runs of letters only or of digits only |
| BondSlaveWidget.RightJustify | src/lib/y2network/widgets/bond_slave.rb:188 | `rjust`: the result has at least the width, ends with the string and is padded in front |
| BondSlaveWidget.JustifyAlnum | src/lib/y2network/widgets/bond_slave.rb:186-192 | a justified run holds letters and digits only |
| BondSlaveWidget.JoinJustifiedAlnum | src/lib/y2network/widgets/bond_slave.rb:186-192 | joining justified runs gives letters and digits only |
| BondSlaveWidget.JustifyDevNameAlnum | src/lib/y2network/widgets/bond_slave.rb:184-193 | the sort key holds letters and digits only; everything else in the name is dropped |
| BondSlaveWidget.Value | src/lib/y2network/widgets/bond_slave.rb:187-188 | the number a digit run denotes is below ten to the power of its length |
| BondSlaveWidget.ZerosKeepValue | src/lib/y2network/widgets/bond_slave.rb:188 | a leading zero does not change the number |
| BondSlaveWidget.PadKeepsValue | src/lib/y2network/widgets/bond_slave.rb:188 | zero padding keeps digits and the number |
| BondSlaveWidget.JustifyKeepsValue | src/lib/y2network/widgets/bond_slave.rb:186-192 | justifying a digit run keeps the number it denotes |
| BondSlaveWidget.LexLessAsymmetric | src/lib/y2network/widgets/bond_slave.rb:102 | string order is asymmetric |
| BondSlaveWidget.LexLessTotal | src/lib/y2network/widgets/bond_slave.rb:102 | string order is total |
| BondSlaveWidget.LexLessTransitive | src/lib/y2network/widgets/bond_slave.rb:102 | string order is transitive |
| BondSlaveWidget.LexLessCommonPrefix | src/lib/y2network/widgets/bond_slave.rb:102 | a common prefix does not change the order |
| BondSlaveWidget.DigitOrder | src/lib/y2network/widgets/bond_slave.rb:188 | for digit runs of equal length, string order is numeric order |
| BondSlaveWidget.JustifiedOrder | src/lib/y2network/widgets/bond_slave.rb:172-193 | for digit runs of up to five digits, the justified runs compare as the numbers do |
| BondSlaveWidget.LeadingOfConcat | src/lib/y2network/widgets/bond_slave.rb:185 | a run ends where its character class ends |
| BondSlaveWidget.ScanAlphaRun | src/lib/y2network/widgets/bond_slave.rb:185 | a letter run is scanned as one run |
| BondSlaveWidget.ScanDigitRun | src/lib/y2network/widgets/bond_slave.rb:185 | a digit run is scanned as one run |
| BondSlaveWidget.ScanWordNumber | src/lib/y2network/widgets/bond_slave.rb:185 | a word followed by a number is scanned as those two runs |
| BondSlaveWidget.JoinTwo | src/lib/y2network/widgets/bond_slave.rb:186-192 | joining justifies each run in order |
| BondSlaveWidget.JustifyWordNumber | src/lib/y2network/widgets/bond_slave.rb:184-193 | a word and a number keep the word and zero-pad the number |
| BondSlaveWidget.NumberedDevicesOrder | src/lib/y2network/widgets/bond_slave.rb:172-193 | devices with the same prefix and numbers of up to five digits sort by number (`eth2` before `eth10`) |
| BondSlaveWidget.JustifyShort | src/lib/y2network/widgets/bond_slave.rb:188 | a digit run of at most five digits is padded in front with zeros to five |
| BondSlaveWidget.JustifyWordShortNumber | src/lib/y2network/widgets/bond_slave.rb:184-193 | a word followed by at most five digits keeps the word and pads the number to five digits with zeros |
| BondSlaveWidget.JustifyTwoWordNumbers | src/lib/y2network/widgets/bond_slave.rb:184-193 | with two word-and-number pairs each number is padded on its own |
| BondSlaveWidget.JustifyExampleEth0 | src/lib/y2network/widgets/bond_slave.rb:178 | `eth0` becomes `eth00000` |
| BondSlaveWidget.JustifyExampleEth111 | src/lib/y2network/widgets/bond_slave.rb:179 | `eth111` becomes `eth00111` |
| BondSlaveWidget.JustifyExampleEnp0s25 | src/lib/y2network/widgets/bond_slave.rb:180 | `enp0s25` becomes `enp00000s00025` |
| BondSlaveWidget.KeyLeqTotal | src/lib/y2network/widgets/bond_slave.rb:102 | any two names are comparable by their sort key |
| BondSlaveWidget.KeyLeqTransitive | src/lib/y2network/widgets/bond_slave.rb:102 | the sort-key order is transitive |
| BondSlaveWidget.ConsSorted | src/lib/y2network/widgets/bond_slave.rb:102 | a smallest name in front keeps a list sorted |
| BondSlaveWidget.BelowHead | src/lib/y2network/widgets/bond_slave.rb:102 | a name below the head of a sorted list is below all of it |
| BondSlaveWidget.SortedTail | src/lib/y2network/widgets/bond_slave.rb:102 | the tail of a sorted list is sorted and above its head |
| BondSlaveWidget.InsertByKeySpec | src/lib/y2network/widgets/bond_slave.rb:102 | insertion keeps a list sorted and adds exactly the name |
| BondSlaveWidget.SortByKey | src/lib/y2network/widgets/bond_slave.rb:102 | `sort_by justify_dev_name` gives a permutation sorted by the key |
| BondSlaveWidget.InitOrder | src/lib/y2network/widgets/bond_slave.rb:100-102 | the items of `init`: selected slaves first, the rest sorted by key; stated by `InitOrderPermutation`, `InitOrderSelectedFirst`, `InitOrderKeepsSelected` and `InitOrderSortsRest` |
| BondSlaveWidget.RestUnselected | src/lib/y2network/widgets/bond_slave.rb:100-102 | the sorted part holds no selected slave |
| BondSlaveWidget.InitOrderPermutation | src/lib/y2network/widgets/bond_slave.rb:100-102 | the reordered items are a permutation of the items |
| BondSlaveWidget.InitOrderSelectedFirst | src/lib/y2network/widgets/bond_slave.rb:100-102 | every selected slave comes before every other item |
| BondSlaveWidget.InitOrderKeepsSelected | src/lib/y2network/widgets/bond_slave.rb:100 | the selected slaves keep their original order |
| BondSlaveWidget.SortedBehindSelected | src/lib/y2network/widgets/bond_slave.rb:102 | a sorted list behind selected slaves stays sorted among the unselected |
| BondSlaveWidget.InitOrderSortsRest | src/lib/y2network/widgets/bond_slave.rb:102 | the other items are sorted by `justify_dev_name` |
| BondSlaveWidget.BondSlave.Init | src/lib/y2network/widgets/bond_slave.rb:90-115 | the items become the reordered list, the selection becomes the slaves, and the buttons are refreshed |
| BondSlaveWidget.PortGroups | src/lib/y2network/widgets/bond_slave.rb:201-208 | the slaves grouped by port id; stated by `PortGroupsSkip` and `PortGroupsJoin` |
| BondSlaveWidget.RepeatedPortIds | src/lib/y2network/widgets/bond_slave.rb:201-214 | the groups of two or more slaves; stated by `RepeatedPortIdsSpec` |
| BondSlaveWidget.RepeatedPortIdsSpec | src/lib/y2network/widgets/bond_slave.rb:195-214 | a port id is reported iff at least two slaves share it, with exactly those slaves in input order; slaves without a port id are ignored |
| BondSlaveWidget.SharingPortSnoc | src/lib/y2network/widgets/bond_slave.rb:204-208 | one more slave joins the group of its port id only |
| BondSlaveWidget.SharingPortAbsent | src/lib/y2network/widgets/bond_slave.rb:204-208 | an id no slave has groups no slave |
| BondSlaveWidget.PortGroupsSkip | src/lib/y2network/widgets/bond_slave.rb:205 | a slave without a port id leaves the hash unchanged |
| BondSlaveWidget.PortGroupsJoin | src/lib/y2network/widgets/bond_slave.rb:206-207 | a slave with a port id is appended to that id's group, created empty if missing, and no other group changes |
| BondSlaveWidget.RepeatedPhysicalPortIds | src/lib/y2network/widgets/bond_slave.rb:201-214 | the loop and the `select!` produce the specified map of repeated port ids |
| BondSlaveWidget.ValueIndex | src/lib/y2network/widgets/bond_slave.rb:158-160 | the index of the current item, absent iff there is no current item or it is not listed |
| BondSlaveWidget.ButtonStates | src/lib/y2network/widgets/bond_slave.rb:162-170 | which of Up and Down are enabled; stated by `EnabledButtonsAreSafe` |
| BondSlaveWidget.BondSlave.EnableSlaveButtons | src/lib/y2network/widgets/bond_slave.rb:162-170 | Up is enabled iff the current index is above 0, Down iff it is below size-1, both disabled without a current item; nothing else changes |
| BondSlaveWidget.EnabledButtonsAreSafe | src/lib/y2network/widgets/bond_slave.rb:162-170 | an enabled Up has a previous item without wrapping, and an enabled Down has a next item |
| BondSlaveWidget.EnabledPressCanBeHandled | src/lib/y2network/widgets/bond_slave.rb:54-72 | an `:up` or `:down` event arriving while the matching button is enabled is always within what `handle` can do |
| BondSlaveWidget.HandledItems | src/lib/y2network/widgets/bond_slave.rb:54-66 | the items after an event; stated by `UpThenDown`, `DownThenUp` and `PressIntendedMoves` |
| BondSlaveWidget.Swap | src/lib/y2network/widgets/bond_slave.rb:63-65 | two items exchanged; stated by `SwapSpec` and `SwapPermutes` |
| BondSlaveWidget.MovedUp | src/lib/y2network/widgets/bond_slave.rb:63 | the current item swapped with the previous one; stated by `UpThenDown` and `DownUndoesUp` |
| BondSlaveWidget.MovedDown | src/lib/y2network/widgets/bond_slave.rb:65 | the current item swapped with the next one; stated by `DownThenUp` and `DownUndoesUp` |
| BondSlaveWidget.SwapSpec | src/lib/y2network/widgets/bond_slave.rb:63-65 | the swap exchanges the two items, keeps all others and loses nothing |
| BondSlaveWidget.DownUndoesUp | src/lib/y2network/widgets/bond_slave.rb:63-65 | moving an item up and then the same item down restores the list |
| BondSlaveWidget.UpThenDown | src/lib/y2network/widgets/bond_slave.rb:54-72 | after an `:up` event the current item sits one place earlier, Down is enabled, and a `:down` event restores the list |
| BondSlaveWidget.DownThenUp | src/lib/y2network/widgets/bond_slave.rb:54-72 | with distinct names, after a `:down` event the current item sits one place later, Up is enabled, and an `:up` event restores the list |
| BondSlaveWidget.SwapPermutes | src/lib/y2network/widgets/bond_slave.rb:63-65 | a swap keeps the multiset of items |
| BondSlaveWidget.SwapWithPrevious | src/lib/y2network/widgets/bond_slave.rb:63 | the in-place swap with the previous item (the last one at index 0) |
| BondSlaveWidget.SwapWithNext | src/lib/y2network/widgets/bond_slave.rb:65 | the in-place swap with the next item |
| BondSlaveWidget.BondSlave.Handle | src/lib/y2network/widgets/bond_slave.rb:54-78 | a selection change refreshes the buttons; an `:up` or `:down` event swaps the current item with its neighbour and refreshes them; other events change nothing; the current item and the selection stay |
| BondSlaveWidget.PressAsWrittenIgnored | src/lib/y2network/widgets/bond_slave.rb:47-68 | the ids the Up and Down buttons carry (`:bond_slaves_up`, `:bond_slaves_down`) fall into the unknown-event branch: with `[a, b]` and `b` current, Up is enabled, yet its press leaves the list as it is and refreshes nothing, where an `:up` event gives `[b, a]` |
| BondSlaveWidget.PressIntendedMoves | src/lib/y2network/widgets/bond_slave.rb:54-68 | routed to the `:up`/`:down` branches, a press of an enabled button moves the current item one place up or down, refreshes the buttons and keeps the items as a multiset |
| BondSlaveWidget.BondSlave.constructor | src/lib/y2network/widgets/bond_slave.rb:41-52 | an empty list with both buttons disabled |

## Left out

- The sources of `Config`, `InterfacesWriter`, `UdevRule`, `Interface` and the collections are not part of this model. Their behaviour follows the tests. Details the tests leave open are the model's own choices:
  - an interface records its old name only on its first rename;
  - an existing naming rule is dropped when its `NAME` is a current or old name of the collection;
  - an existing driver rule is dropped when its modalias is one of the collection's hardware;
  - `write` pauses only outside autoinstallation.
- Object identity and aliasing: connection configs, interfaces and rules are values. The tests' check that the same bridge object changes in place is modelled as the collection's element changing.
- `NetworkConfig.DeleteCascade`: configs bound to a deleted name are removed before the VLAN cascade continues. This order is the model's choice; the tests at `test/y2network/config_test.rb:405-423` have one VLAN level and do not decide it. On acyclic VLAN parents either order has the same effect. On cyclic ones the model ends where the source may not.
- `NetworkConfig.Config.RenameInterface`: renaming a name that no interface has is reported as `found == false` with nothing changed, where the source fails.
- `NetworkConfig.Config.Equals`: the `==` of the source is modelled by comparing interfaces, connections, DNS and routing. Drivers and source take no part: that is the model's choice. The tests at `test/y2network/config_test.rb:139-175` vary only the four compared parts and do not decide it. It is a predicate without its own contract, and it is used by `Copy` and `CopyIsolation`.
- `Config.from` and `Config#write`: they only delegate to readers and writers outside this model.
- `drivers_for_interface`: the hardware's driver list is a field of the interface, not the result of a hardware probe.
- `NetworkConfig.Config.DriversForInterface`: for a name no interface has, the model returns `None`. The tests do not cover that case.
- `NetworkConfig.Consistent`: preservation is proved for deletion, for a rename to a free name and for adding or updating a config. Renaming without an old name changes only a mechanism and is not stated separately.
- The interfaces writer's effects (`/sbin/ifdown`, `udevadm`, `sleep`, the rules files) are an action trace, not I/O. The rules currently on disk are parameters.
- `UdevRules` parsing: values with quotes, and separators other than `, `, are not parsed. Only rules whose values hold no quote are proved to round-trip.
- `ConnectionConfigReaders.BuildIp`: a pure function on an address value. The clone the source makes is what keeps the input address unchanged, and that is what a function does.
- `ConnectionConfigReaders.Hostname`: the host table (`Yast::Host`) is a parameter that gives the names of an address.
- `ConnectionConfigReaders.ConnectionConfigDefaults`: boot protocol and start mode are kept as their names. The validation of `BootProtocol.from_name` and `Startmode.create` is not modelled, nor is a netmask converted to a prefix.
- `update_connection_config`: a hook of the derived readers, which do nothing more in the base reader.
- `connection_class`: the `require`/`const_get` lookup is a table from connection kind to class name. Only the name rewrite is modelled.
- `BondSlaveWidget.JustifyDevName`: `\p{Alpha}` and `\p{Digit}` are restricted to ASCII letters and digits.
- `BondSlaveWidget.SortByKey`: Ruby's `sort_by` is not stable, so only a sorted permutation is promised, not the order of items with equal keys.
- `BondSlaveWidget.RepeatedPhysicalPortIds`: the result is a map without Ruby's insertion order of keys. Whether a device has a physical port id, and which, comes from outside the widget and is a parameter.
- `BondSlaveWidget.BondSlave.Handle`:
  - `UpButton` and `DownButton` stand for the event ids `:up` and `:down` that `handle` matches. The widget's own buttons send `:bond_slaves_up` and `:bond_slaves_down`, which `handle` ignores (see "## Findings"); the model routes them as evidently intended.
  - Down on the last item would append a `nil` to the Ruby array, and Up or Down without a current item would fail. Both are excluded by the precondition, and an `:up` or `:down` event with its button enabled never leads there (`EnabledPressCanBeHandled`).
  - Up on the first item wraps to the last, as Ruby's index -1 does.
- The widget's UI plumbing is not modelled: `contents` layout, `help`, `store`, `validate` and its popups, `continue_with_duplicates?`, `already_configured?`, `slave_items_from` and the UI queries. The items are their device names, and the current item is a field.
- The wireless widget and the interface dialog sequence are layout and dialog flow, and are not modelled.

## Findings

| source | as written | input that shows it | evidently intended | confidence | as-written member | corrected member |
|---|---|---|---|---|---|---|
| src/lib/y2network/widgets/bond_slave.rb:47-64 | the Up and Down buttons carry the ids `:bond_slaves_up` and `:bond_slaves_down`, but `handle` matches `:up` and `:down`, so a press falls into the unknown-event branch and changes nothing | items `[a, b]`, current item `b`, Up enabled, Up pressed | the current item moves one place up and the buttons are refreshed | not executed | BondSlaveWidget.PressAsWrittenIgnored | BondSlaveWidget.PressIntendedMoves |
