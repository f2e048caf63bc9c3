/**
 * The base connection-config reader: it maps the already-parsed fields of
 * an interface's sysconfig file (`ifcfg-<name>`) onto a connection config,
 * collecting the file's IP addresses (the primary one and the aliases) and
 * applying the documented defaults.
 */
module ConnectionConfigReaders {
  import opened Wrappers
  import opened ConnectionConfigs
  import Seqs

  /** An `IPADDR<suffix>` value: an IP address, or something that did not parse as one. */
  datatype IpValue = Valid(ip: IPAddress) | Invalid(raw: string)

  /** One `IPADDR<id>` entry of the file, in file order. */
  datatype IpEntry = IpEntry(id: string, value: IpValue)

  /** The per-id address settings of a file (`PREFIXLEN<id>`, `NETMASK<id>`, `LABEL<id>`, ...). */
  datatype IpSettings = IpSettings(
    prefixlens: map<string, nat>,
    netmasks: map<string, string>,
    labels: map<string, string>,
    remoteIpaddrs: map<string, IPAddress>,
    broadcasts: map<string, IPAddress>)

  /** The fields of an interface file the base reader uses, already parsed. */
  datatype InterfaceFile = InterfaceFile(
    interface: string,
    name: Option<string>,
    bootproto: Option<string>,
    startmode: Option<string>,
    ifplugdPriority: Option<int>,
    lladdr: Option<string>,
    ethtoolOptions: Option<string>,
    zone: Option<string>,
    ipaddrs: seq<IpEntry>,
    settings: IpSettings)

  /** A hash lookup: `nil` for a missing key. */
  function Get<T>(m: map<string, T>, key: string): (r: Option<T>)
    ensures r.Some? <==> key in m
    ensures r.Some? ==> r.value == m[key]
  {
    if key in m then Some(m[key]) else None
  }

  /**
   * `build_ip`: an address that already has a prefix is returned as it is;
   * otherwise the netmask is applied and then the prefix, so a prefix wins
   * over a netmask. The address itself is never changed.
   */
  function BuildIp(ip: IPAddress, prefix: Option<nat>, netmask: Option<string>): (r: IPAddress)
    ensures r.address == ip.address
    ensures ip.HasPrefix() ==> r == ip
    ensures !ip.HasPrefix() && prefix.Some? ==> r.mask == Prefix(prefix.value)
    ensures !ip.HasPrefix() && prefix.None? && netmask.Some? ==> r.mask == Netmask(netmask.value)
    ensures r.HasPrefix() <==> ip.HasPrefix() || prefix.Some? || netmask.Some?
  {
    if ip.HasPrefix() then ip
    else
      var withNetmask := if netmask.Some? then ip.(mask := Netmask(netmask.value)) else ip;
      if prefix.Some? then withNetmask.(mask := Prefix(prefix.value)) else withNetmask
  }

  /** The IP config an entry gives: only valid addresses give one, with the settings stored under the same id. */
  function EntryConfig(st: IpSettings, e: IpEntry): (r: Option<IPConfig>)
    ensures r.Some? <==> e.value.Valid?
    ensures r.Some? ==> (r.value.id == e.id &&
      r.value.address == BuildIp(e.value.ip, Get(st.prefixlens, e.id), Get(st.netmasks, e.id)) &&
      r.value.addressLabel == Get(st.labels, e.id) &&
      r.value.remoteAddress == Get(st.remoteIpaddrs, e.id) &&
      r.value.broadcast == Get(st.broadcasts, e.id))
  {
    match e.value
    case Invalid(_) => None
    case Valid(ip) =>
      Some(IPConfig(BuildIp(ip, Get(st.prefixlens, e.id), Get(st.netmasks, e.id)), e.id,
                    Get(st.labels, e.id), Get(st.remoteIpaddrs, e.id), Get(st.broadcasts, e.id)))
  }

  function EntryConfigOf(st: IpSettings): IpEntry -> Option<IPConfig> {
    (e: IpEntry) => EntryConfig(st, e)
  }

  /** `all_ips`: the IP configs of the valid entries, in file order. */
  function AllIpsOf(file: InterfaceFile): seq<IPConfig> {
    Seqs.MapSome(file.ipaddrs, EntryConfigOf(file.settings))
  }

  /**
   * Every IP config comes from a valid entry of the file and every valid
   * entry gives one; entries that are not addresses give none.
   */
  lemma AllIpsSpec(file: InterfaceFile)
    ensures |AllIpsOf(file)| <= |file.ipaddrs|
    ensures forall c :: c in AllIpsOf(file) <==>
      exists e :: e in file.ipaddrs && e.value.Valid? && EntryConfig(file.settings, e) == Some(c)
    ensures (forall e :: e in file.ipaddrs ==> e.value.Invalid?) ==> AllIpsOf(file) == []
  {
    if forall e :: e in file.ipaddrs ==> e.value.Invalid? {
      Seqs.MapSomeNone(file.ipaddrs, EntryConfigOf(file.settings));
    }
  }

  /** The file order is kept: the configs of two runs of entries follow each other. */
  lemma AllIpsInOrder(file: InterfaceFile, a: seq<IpEntry>, b: seq<IpEntry>)
    requires file.ipaddrs == a + b
    ensures AllIpsOf(file) == AllIpsOf(file.(ipaddrs := a)) + AllIpsOf(file.(ipaddrs := b))
  {
    Seqs.MapSomeConcat(a, b, EntryConfigOf(file.settings));
  }

  function IpId(c: IPConfig): string { c.id }

  /** `all_ips.find { |i| i.id.empty? }` */
  function PrimaryIp(ips: seq<IPConfig>): Option<IPConfig> {
    match Seqs.IndexOf(ips, IpId, "")
    case Some(k) => Some(ips[k])
    case None => None
  }

  function IsAlias(c: IPConfig): bool { c.id != "" }
  function IsPrimary(c: IPConfig): bool { c.id == "" }

  /** `all_ips.reject { |i| i.id.empty? }` */
  function IpAliases(ips: seq<IPConfig>): seq<IPConfig> {
    Seqs.Filter(ips, IsAlias)
  }

  /** `hostname`: none without a primary address; otherwise the first host name of that address, if any. */
  function Hostname(ip: Option<IPConfig>, hostNames: string -> seq<string>): (r: Option<string>)
    ensures ip.None? ==> r.None?
    ensures ip.Some? && hostNames(ip.value.address.address) != [] ==> r == Some(hostNames(ip.value.address.address)[0])
    ensures ip.Some? && hostNames(ip.value.address.address) == [] ==> r.None?
  {
    if ip.None? then None
    else
      var names := hostNames(ip.value.address.address);
      if names == [] then None else Some(names[0])
  }

  /** The start mode the file asks for: a priority only for `ifplugd`. */
  function StartmodeOf(file: InterfaceFile): Startmode {
    var name := file.startmode.GetOr("manual");
    Startmode(name, if name == "ifplugd" then file.ifplugdPriority else None)
  }

  /**
   * `connection_config`: a connection config of the reader's kind whose
   * common fields come from the file. Host names are looked up through
   * `hostNames`, which stands for the system's hosts table.
   */
  function ConnectionConfigOf(file: InterfaceFile, kind: Kind, hostNames: string -> seq<string>): ConnectionConfig {
    var ips := AllIpsOf(file);
    var ip := PrimaryIp(ips);
    ConnectionConfig(
      file.interface, file.interface, kind, file.bootproto.GetOr("static"), file.name, ip, IpAliases(ips),
      file.lladdr, StartmodeOf(file), file.ethtoolOptions, file.zone, Hostname(ip, hostNames))
  }

  /**
   * The defaults: boot protocol "static" and start mode "manual" when the
   * file gives none; the priority is copied only for `ifplugd`; both the
   * name and the interface of the config are the file's interface.
   */
  lemma ConnectionConfigDefaults(file: InterfaceFile, kind: Kind, hostNames: string -> seq<string>)
    ensures var c := ConnectionConfigOf(file, kind, hostNames);
      c.name == file.interface && c.interface == file.interface && c.kind == kind &&
      (file.bootproto.None? ==> c.bootproto == "static") &&
      (file.bootproto.Some? ==> c.bootproto == file.bootproto.value) &&
      (file.startmode.None? ==> c.startmode.name == "manual") &&
      (file.startmode.Some? ==> c.startmode.name == file.startmode.value) &&
      (c.startmode.priority.Some? ==> c.startmode.name == "ifplugd") &&
      (c.startmode.name == "ifplugd" ==> c.startmode.priority == file.ifplugdPriority)
  {
  }

  /**
   * The primary address is the first config with an empty id, or none;
   * the aliases are the configs with a non-empty id, in order; further
   * configs with an empty id are in neither.
   */
  lemma {:induction false} IpSplit(ips: seq<IPConfig>)
    ensures PrimaryIp(ips).None? <==> forall c :: c in ips ==> c.id != ""
    ensures PrimaryIp(ips).Some? ==>
              exists k :: (0 <= k < |ips| && ips[k] == PrimaryIp(ips).value &&
                           ips[k].id == "" && forall j :: 0 <= j < k ==> ips[j].id != "")
    ensures forall c :: c in IpAliases(ips) <==> c in ips && c.id != ""
    ensures |IpAliases(ips)| + |Seqs.Filter(ips, IsPrimary)| == |ips|
  {
    var k := Seqs.IndexOf(ips, IpId, "");
    if k.None? {
      forall c | c in ips
        ensures c.id != ""
      {
        var j :| 0 <= j < |ips| && ips[j] == c;
        assert IpId(ips[j]) != "";
      }
    } else {
      assert ips[k.value] in ips;
    }
    Seqs.FilterPartition(ips, IsAlias, IsPrimary);
    assert |multiset(IpAliases(ips))| + |multiset(Seqs.Filter(ips, IsPrimary))| == |multiset(ips)|;
  }

  /** Without a primary address there is no host name. */
  lemma NoIpNoHostname(file: InterfaceFile, kind: Kind, hostNames: string -> seq<string>)
    requires forall c :: c in AllIpsOf(file) ==> c.id != ""
    ensures ConnectionConfigOf(file, kind, hostNames).ip.None?
    ensures ConnectionConfigOf(file, kind, hostNames).hostname.None?
  {
    IpSplit(AllIpsOf(file));
  }

  /** One more entry adds its IP config, if it is a valid address. */
  lemma CollectStep(entries: seq<IpEntry>, st: IpSettings, k: nat)
    requires k < |entries|
    ensures Seqs.MapSome(entries[..k + 1], EntryConfigOf(st)) ==
      Seqs.MapSome(entries[..k], EntryConfigOf(st)) +
      (match EntryConfig(st, entries[k]) case Some(c) => [c] case None => [])
  {
    assert entries[..k + 1] == entries[..k] + [entries[k]];
    Seqs.MapSomeConcat(entries[..k], [entries[k]], EntryConfigOf(st));
    Seqs.MapSomeOne(entries[k], EntryConfigOf(st));
  }

  /** The `each_with_object` loop of `all_ips`. */
  method CollectIps(entries: seq<IpEntry>, st: IpSettings) returns (all: seq<IPConfig>)
    ensures all == Seqs.MapSome(entries, EntryConfigOf(st))
  {
    all := [];
    var k := 0;
    while k < |entries|
      invariant 0 <= k <= |entries|
      invariant all == Seqs.MapSome(entries[..k], EntryConfigOf(st))
    {
      var e := entries[k];
      CollectStep(entries, st, k);
      if e.value.Valid? {
        var address := BuildIp(e.value.ip, Get(st.prefixlens, e.id), Get(st.netmasks, e.id));
        var config := IPConfig(address, e.id, Get(st.labels, e.id), Get(st.remoteIpaddrs, e.id),
                               Get(st.broadcasts, e.id));
        assert EntryConfig(st, e) == Some(config);
        all := all + [config];
      }
      k := k + 1;
    }
    assert entries[..k] == entries;
  }

  /**
   * A reader over one interface file. `all_ips` is computed once and
   * memoised in `allIps`.
   */
  class Reader {
    const file: InterfaceFile
    var allIps: Option<seq<IPConfig>>

    ghost predicate Valid()
      reads this
    {
      allIps.Some? ==> allIps.value == AllIpsOf(file)
    }

    constructor(file: InterfaceFile)
      ensures this.file == file && allIps.None? && Valid()
    {
      this.file := file;
      allIps := None;
    }

    /** `all_ips`, filling the memo on the first call. */
    method AllIps() returns (ips: seq<IPConfig>)
      requires Valid()
      modifies this
      ensures Valid() && ips == AllIpsOf(file) && allIps == Some(ips)
    {
      if allIps.Some? {
        return allIps.value;
      }
      var all := CollectIps(file.ipaddrs, file.settings);
      allIps := Some(all);
      ips := all;
    }

    /** `connection_config`: a fresh config of `kind`, its fields assigned one by one from the file. */
    method BuildConnectionConfig(kind: Kind, hostNames: string -> seq<string>) returns (conn: ConnectionConfig)
      requires Valid()
      modifies this
      ensures Valid() && allIps == Some(AllIpsOf(file))
      ensures conn == ConnectionConfigOf(file, kind, hostNames)
    {
      var ips := AllIps();
      conn := NewConnection(kind, "", "");
      conn := conn.(bootproto := file.bootproto.GetOr("static"));
      conn := conn.(description := file.name);
      conn := conn.(interface := file.interface);
      var primary := Seqs.FindIndex(ips, IpId, "");
      conn := conn.(ip := if primary.Some? then Some(ips[primary.value]) else None);
      conn := conn.(ipAliases := IpAliases(ips));
      conn := conn.(name := file.interface);
      conn := conn.(lladdress := file.lladdr);
      conn := conn.(startmode := Startmode(file.startmode.GetOr("manual"), None));
      if conn.startmode.name == "ifplugd" {
        conn := conn.(startmode := conn.startmode.(priority := file.ifplugdPriority));
      }
      conn := conn.(ethtoolOptions := file.ethtoolOptions);
      conn := conn.(firewallZone := file.zone);
      conn := conn.(hostname := Hostname(conn.ip, hostNames));
    }
  }

  // ---------------------------------------------------------------------
  // `connection_class`: from the reader's class name to the file that
  // defines the connection config class of the same name.

  predicate IsUpper(c: char) { 'A' <= c <= 'Z' }
  predicate IsLower(c: char) { 'a' <= c <= 'z' }
  predicate IsWordChar(c: char) { IsUpper(c) || IsLower(c) || '0' <= c <= '9' || c == '_' }

  /**
   * `gsub(/(\w)([A-Z])/, "\\1_\\2")`: an underscore between a word
   * character and the capital after it, matches taken left to right
   * without overlap.
   */
  function Underscore(s: string): (r: string)
    ensures |r| >= |s|
  {
    if |s| < 2 then s
    else if IsWordChar(s[0]) && IsUpper(s[1]) then [s[0], '_', s[1]] + Underscore(s[2..])
    else [s[0]] + Underscore(s[1..])
  }

  /** A name without capitals is left as it is. */
  lemma {:induction false} UnderscoreNoCapitals(s: string)
    requires forall c :: c in s ==> !IsUpper(c)
    ensures Underscore(s) == s
    decreases |s|
  {
    if |s| >= 2 {
      assert s[1] in s;
      assert forall c :: c in s[1..] ==> c in s;
      UnderscoreNoCapitals(s[1..]);
    }
  }

  function Downcase(s: string): (r: string)
    ensures |r| == |s|
    ensures forall j :: 0 <= j < |s| ==> !IsUpper(r[j])
    ensures forall j :: 0 <= j < |s| && !IsUpper(s[j]) ==> r[j] == s[j]
    ensures forall j :: 0 <= j < |s| && IsUpper(s[j]) ==> r[j] == (s[j] - 'A' + 'a') as char
  {
    if s == [] then []
    else [if IsUpper(s[0]) then (s[0] - 'A' + 'a') as char else s[0]] + Downcase(s[1..])
  }

  /** The file name of a connection config class, as `connection_class` requires it. */
  function ClassFileName(className: string): string {
    Downcase(Underscore(className))
  }

  function NotUnderscore(c: char): bool { c != '_' }

  function RemoveUnderscores(s: string): string {
    Seqs.Filter(s, NotUnderscore)
  }

  /** The underscore inserted between two letters is the only one removed. */
  lemma RemoveInserted(a: char, b: char, rest: string)
    requires a != '_' && b != '_'
    ensures RemoveUnderscores([a, '_', b] + rest) == [a, b] + RemoveUnderscores(rest)
  {
    var p := NotUnderscore;
    assert [a, '_', b] + rest == [a] + (['_'] + ([b] + rest));
    Seqs.FilterCons(a, ['_'] + ([b] + rest), p);
    Seqs.FilterCons('_', [b] + rest, p);
    Seqs.FilterCons(b, rest, p);
  }

  /** A character other than `_` survives the removal. */
  lemma RemoveKept(a: char, rest: string)
    requires a != '_'
    ensures RemoveUnderscores([a] + rest) == [a] + RemoveUnderscores(rest)
  {
    Seqs.FilterCons(a, rest, NotUnderscore);
  }

  /** Removing the underscores the rewrite inserted gives back a name that had none. */
  lemma {:induction false} UnderscoreInverse(s: string)
    requires forall c :: c in s ==> c != '_'
    ensures RemoveUnderscores(Underscore(s)) == s
    decreases |s|
  {
    if |s| >= 2 {
      assert s[0] in s && s[1] in s;
      if IsWordChar(s[0]) && IsUpper(s[1]) {
        assert forall c :: c in s[2..] ==> c in s;
        UnderscoreInverse(s[2..]);
        RemoveInserted(s[0], s[1], Underscore(s[2..]));
        assert s == [s[0], s[1]] + s[2..];
      } else {
        assert forall c :: c in s[1..] ==> c in s;
        UnderscoreInverse(s[1..]);
        RemoveKept(s[0], Underscore(s[1..]));
        assert s == [s[0]] + s[1..];
      }
    } else if |s| == 1 {
      assert s[0] in s;
      RemoveKept(s[0], []);
      assert s == [s[0]] + [];
    }
  }

  /** The class name the reader of each kind carries (the reflection replaced by a table). */
  function ReaderClassName(k: Kind): string {
    match k
    case Ethernet => "Ethernet"
    case Wireless => "Wireless"
    case Bridge(_) => "Bridge"
    case Bonding(_) => "Bonding"
    case Vlan(_) => "Vlan"
    case Dummy => "Dummy"
  }

  /** A single-word class name becomes its lower-case file name. */
  lemma ClassFileNameOneWord()
    ensures ClassFileName("Vlan") == "vlan"
  {
    assert Underscore("an") == "an";
    assert Underscore("lan") == "lan";
    assert Underscore("Vlan") == "Vlan";
    assert Downcase("Vlan") == "vlan";
  }

  /** A character not followed by a capital is copied. */
  lemma UnderscoreCopy(c: char, s: string)
    requires s != [] && !(IsWordChar(c) && IsUpper(s[0]))
    ensures Underscore([c] + s) == [c] + Underscore(s)
  {
    assert ([c] + s)[1..] == s;
  }

  /** A word character followed by a capital gets an underscore in between. */
  lemma UnderscoreSplit(c: char, d: char, s: string)
    requires IsWordChar(c) && IsUpper(d)
    ensures Underscore([c, d] + s) == [c, '_', d] + Underscore(s)
  {
    assert ([c, d] + s)[2..] == s;
  }

  predicate LowerWord(l: string) { forall c :: c in l ==> IsLower(c) }

  /** A run of lower-case letters before a capital ends in the inserted `_`. */
  lemma {:induction false} UnderscoreBeforeCapital(l: string, v: char, r: string)
    requires |l| >= 1 && LowerWord(l) && IsUpper(v)
    ensures Underscore(l + [v] + r) == l + ['_', v] + Underscore(r)
    decreases |l|
  {
    assert l[0] in l;
    if |l| == 1 {
      assert l + [v] + r == [l[0], v] + r;
      UnderscoreSplit(l[0], v, r);
    } else {
      assert l[1] in l;
      assert forall c :: c in l[1..] ==> c in l;
      UnderscoreBeforeCapital(l[1..], v, r);
      UnderscoreLowerFirst(l[0], l[1..], v, r);
      assert l == [l[0]] + l[1..];
    }
  }

  /** One more lower-case letter in front of the run is copied. */
  lemma UnderscoreLowerFirst(c: char, l: string, v: char, r: string)
    requires l != [] && IsLower(l[0])
    requires Underscore(l + [v] + r) == l + ['_', v] + Underscore(r)
    ensures Underscore([c] + l + [v] + r) == [c] + l + ['_', v] + Underscore(r)
  {
    var tail := l + [v] + r;
    assert [c] + l + [v] + r == [c] + tail;
    assert tail[0] == l[0];
    UnderscoreCopy(c, tail);
    var u := Underscore(r);
    assert [c] + (l + ['_', v] + u) == [c] + l + ['_', v] + u;
  }

  lemma {:induction false} DowncaseConcat(a: string, b: string)
    ensures Downcase(a + b) == Downcase(a) + Downcase(b)
  {
    if a == [] {
      assert a + b == b;
    } else {
      assert (a + b)[1..] == a[1..] + b;
      DowncaseConcat(a[1..], b);
    }
  }

  /** Two capitalised words get one `_` between them. */
  lemma UnderscoreTwoWords(u: char, l1: string, v: char, l2: string)
    requires IsUpper(u) && IsUpper(v) && |l1| >= 1 && LowerWord(l1) && LowerWord(l2)
    ensures Underscore([u] + l1 + [v] + l2) == ([u] + l1) + "_" + ([v] + l2)
  {
    var tail := l1 + [v] + l2;
    assert [u] + l1 + [v] + l2 == [u] + tail;
    assert l1[0] in l1 && tail[0] == l1[0];
    UnderscoreCopy(u, tail);
    UnderscoreBeforeCapital(l1, v, l2);
    assert forall c :: c in l2 ==> !IsUpper(c);
    UnderscoreNoCapitals(l2);
    var split := l1 + ['_', v] + l2;
    assert Underscore(tail) == split;
    assert Underscore([u] + l1 + [v] + l2) == [u] + split;
    InsertBetween(u, l1, '_', v, l2);
  }

  /** Regrouping the pieces of the rewritten name. */
  lemma InsertBetween(u: char, l1: string, sep: char, v: char, l2: string)
    ensures [u] + (l1 + [sep, v] + l2) == ([u] + l1) + [sep] + ([v] + l2)
  {
  }

  /**
   * Two capitalised words, `BondSlave` say, give their lower-case forms
   * joined by `_`, `bond_slave`.
   */
  lemma ClassFileNameTwoWords(u: char, l1: string, v: char, l2: string)
    requires IsUpper(u) && IsUpper(v) && |l1| >= 1 && LowerWord(l1) && LowerWord(l2)
    ensures ClassFileName([u] + l1 + [v] + l2) == Downcase([u] + l1) + "_" + Downcase([v] + l2)
  {
    var first, second := [u] + l1, [v] + l2;
    UnderscoreTwoWords(u, l1, v, l2);
    DowncaseConcat(first + "_", second);
    DowncaseConcat(first, "_");
    assert Downcase("_") == "_";
  }

  /** Matches do not overlap: of three capitals only the first pair is split. */
  lemma ClassFileNameCapitals()
    ensures ClassFileName("ABC") == "a_bc"
  {
    assert Underscore("C") == "C";
    assert Underscore("ABC") == "A_BC";
    assert Downcase("A_BC") == "a_bc";
  }
}
