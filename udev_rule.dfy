/**
 * udev rules as the interfaces writer produces and reads them: a rule is a
 * comma-separated list of `KEY<operator>"value"` parts (udev(7)). Renaming
 * rules match a device by MAC address or by bus id and device port and set
 * `NAME`; driver rules match a modalias and assign the driver to load.
 */
module UdevRules {
  import opened Wrappers
  import Seqs

  datatype UdevRulePart = UdevRulePart(key: string, operator: string, value: string)
  datatype UdevRule = UdevRule(parts: seq<UdevRulePart>)

  // ---------------------------------------------------------------------
  // Rendering (`UdevRule#to_s`)

  function PartText(p: UdevRulePart): string {
    p.key + p.operator + "\"" + p.value + "\""
  }

  function JoinParts(ps: seq<UdevRulePart>): string
  {
    if ps == [] then ""
    else if |ps| == 1 then PartText(ps[0])
    else JoinParts(ps[..|ps| - 1]) + ", " + PartText(ps[|ps| - 1])
  }

  function RuleText(r: UdevRule): string {
    JoinParts(r.parts)
  }

  // ---------------------------------------------------------------------
  // The rules the writer builds

  function Part(key: string, operator: string, value: string): UdevRulePart {
    UdevRulePart(key, operator, value)
  }

  /** `UdevRule.new_mac_based_rename(name, mac)` */
  function NewMacBasedRename(name: string, mac: string): UdevRule {
    UdevRule([Part("SUBSYSTEM", "==", "net"), Part("ACTION", "==", "add"), Part("DRIVERS", "==", "?*"),
              Part("ATTR{type}", "==", "1"), Part("ATTR{dev_id}", "==", "0x0"),
              Part("ATTR{address}", "==", mac), Part("NAME", "=", name)])
  }

  /** `UdevRule.new_bus_id_based_rename(name, bus_id, dev_port)` */
  function NewBusIdBasedRename(name: string, busId: string, devPort: string): UdevRule {
    UdevRule([Part("SUBSYSTEM", "==", "net"), Part("ACTION", "==", "add"), Part("DRIVERS", "==", "?*"),
              Part("ATTR{type}", "==", "1"), Part("KERNELS", "==", busId),
              Part("ATTR{dev_port}", "==", devPort), Part("NAME", "=", name)])
  }

  /** `UdevRule.new_driver_assignment(modalias, driver)` */
  function NewDriverAssignment(modalias: string, driver: string): UdevRule {
    UdevRule([Part("ENV{MODALIAS}", "==", modalias), Part("ENV{MODALIAS}", "=", driver)])
  }

  /** The value of the first part with the given key and operator. */
  function ValueOf(ps: seq<UdevRulePart>, key: string, operator: string): (r: Option<string>)
    ensures r.None? <==> forall j :: 0 <= j < |ps| ==> ps[j].key != key || ps[j].operator != operator
    ensures r.Some? ==> exists j :: 0 <= j < |ps| && ps[j] == UdevRulePart(key, operator, r.value) &&
                                    forall i :: 0 <= i < j ==> ps[i].key != key || ps[i].operator != operator
  {
    if ps == [] then None
    else if ps[0].key == key && ps[0].operator == operator then Some(ps[0].value)
    else
      var r := ValueOf(ps[1..], key, operator);
      assert forall j :: 1 <= j < |ps| ==> ps[j] == ps[1..][j - 1];
      r
  }

  /** `UdevRule#device`: the name the rule gives the device. */
  function Device(r: UdevRule): Option<string> {
    ValueOf(r.parts, "NAME", "=")
  }

  /** The modalias a driver rule matches. */
  function Modalias(r: UdevRule): Option<string> {
    ValueOf(r.parts, "ENV{MODALIAS}", "==")
  }

  /** Rendering a rule with one more part at the end. */
  lemma JoinSnoc(ps: seq<UdevRulePart>, q: UdevRulePart)
    requires ps != []
    ensures JoinParts(ps + [q]) == JoinParts(ps) + ", " + PartText(q)
  {
    var qs := ps + [q];
    assert qs[..|qs| - 1] == ps && qs[|qs| - 1] == q;
  }

  /** Rendering splits after the first part as well as before the last one. */
  lemma {:induction false} JoinCons(p: UdevRulePart, ps: seq<UdevRulePart>)
    requires ps != []
    ensures JoinParts([p] + ps) == PartText(p) + ", " + JoinParts(ps)
    decreases |ps|
  {
    if |ps| == 1 {
      JoinSnoc([p], ps[0]);
      assert [p] + ps == [p] + [ps[0]];
      assert JoinParts([p]) == PartText(p);
    } else {
      var init, last := ps[..|ps| - 1], ps[|ps| - 1];
      assert ps == init + [last];
      assert [p] + ps == ([p] + init) + [last];
      JoinCons(p, init);
      JoinSnoc([p] + init, last);
      JoinSnoc(init, last);
      var x, b, l := PartText(p) + ", ", JoinParts(init), PartText(last);
      Seqs.ConcatAssoc(x, b + ", ", l);
      Seqs.ConcatAssoc(x, b, ", ");
    }
  }

  /** Unfolds the rendering of a rule of seven parts into its part texts. */
  lemma JoinSeven(p0: UdevRulePart, p1: UdevRulePart, p2: UdevRulePart, p3: UdevRulePart,
                  p4: UdevRulePart, p5: UdevRulePart, p6: UdevRulePart)
    ensures JoinParts([p0, p1, p2, p3, p4, p5, p6]) ==
      PartText(p0) + ", " + PartText(p1) + ", " + PartText(p2) + ", " + PartText(p3) + ", " +
      PartText(p4) + ", " + PartText(p5) + ", " + PartText(p6)
  {
    var q1, q2, q3 := [p0, p1], [p0, p1, p2], [p0, p1, p2, p3];
    var q4, q5, q6 := [p0, p1, p2, p3, p4], [p0, p1, p2, p3, p4, p5], [p0, p1, p2, p3, p4, p5, p6];
    assert q1[..1] == [p0];
    assert q2[..2] == q1;
    assert q3[..3] == q2;
    assert q4[..4] == q3;
    assert q5[..5] == q4;
    assert q6[..6] == q5;
    assert JoinParts(q1) == PartText(p0) + ", " + PartText(p1);
    assert JoinParts(q2) == JoinParts(q1) + ", " + PartText(p2);
    assert JoinParts(q3) == JoinParts(q2) + ", " + PartText(p3);
    assert JoinParts(q4) == JoinParts(q3) + ", " + PartText(p4);
    assert JoinParts(q5) == JoinParts(q4) + ", " + PartText(p5);
  }

  /** The MAC renaming rule renders to the exact line of the rules file. */
  lemma MacRuleText(name: string, mac: string)
    ensures RuleText(NewMacBasedRename(name, mac)) ==
      "SUBSYSTEM==\"net\"" + ", " + "ACTION==\"add\"" + ", " + "DRIVERS==\"?*\"" + ", " +
      "ATTR{type}==\"1\"" + ", " + "ATTR{dev_id}==\"0x0\"" + ", " +
      ("ATTR{address}==\"" + mac + "\"") + ", " + ("NAME=\"" + name + "\"")
  {
    var p0, p1, p2, p3 := Part("SUBSYSTEM", "==", "net"), Part("ACTION", "==", "add"),
      Part("DRIVERS", "==", "?*"), Part("ATTR{type}", "==", "1");
    var p4, p5, p6 := Part("ATTR{dev_id}", "==", "0x0"), Part("ATTR{address}", "==", mac), Part("NAME", "=", name);
    JoinSeven(p0, p1, p2, p3, p4, p5, p6);
    NetDeviceMatchText();
    assert PartText(p4) == "ATTR{dev_id}==\"0x0\"";
    assert "ATTR{address}" + "==" + "\"" == "ATTR{address}==\"";
    assert "NAME" + "=" + "\"" == "NAME=\"";
  }

  lemma NetDeviceMatchText()
    ensures PartText(Part("SUBSYSTEM", "==", "net")) == "SUBSYSTEM==\"net\""
    ensures PartText(Part("ACTION", "==", "add")) == "ACTION==\"add\""
    ensures PartText(Part("DRIVERS", "==", "?*")) == "DRIVERS==\"?*\""
    ensures PartText(Part("ATTR{type}", "==", "1")) == "ATTR{type}==\"1\""
  {
  }

  /** The bus-id renaming rule renders to the exact line of the rules file. */
  lemma BusIdRuleText(name: string, busId: string, devPort: string)
    ensures RuleText(NewBusIdBasedRename(name, busId, devPort)) ==
      "SUBSYSTEM==\"net\"" + ", " + "ACTION==\"add\"" + ", " + "DRIVERS==\"?*\"" + ", " +
      "ATTR{type}==\"1\"" + ", " + ("KERNELS==\"" + busId + "\"") + ", " +
      ("ATTR{dev_port}==\"" + devPort + "\"") + ", " + ("NAME=\"" + name + "\"")
  {
    var p0, p1, p2, p3 := Part("SUBSYSTEM", "==", "net"), Part("ACTION", "==", "add"),
      Part("DRIVERS", "==", "?*"), Part("ATTR{type}", "==", "1");
    var p4, p5, p6 := Part("KERNELS", "==", busId), Part("ATTR{dev_port}", "==", devPort), Part("NAME", "=", name);
    JoinSeven(p0, p1, p2, p3, p4, p5, p6);
    NetDeviceMatchText();
    assert "KERNELS" + "==" + "\"" == "KERNELS==\"";
    assert "ATTR{dev_port}" + "==" + "\"" == "ATTR{dev_port}==\"";
    assert "NAME" + "=" + "\"" == "NAME=\"";
  }

  /** The driver rule renders to the exact line of the rules file. */
  lemma DriverRuleText(modalias: string, driver: string)
    ensures RuleText(NewDriverAssignment(modalias, driver)) ==
      ("ENV{MODALIAS}==\"" + modalias + "\"") + ", " + ("ENV{MODALIAS}=\"" + driver + "\"")
  {
    var ps := NewDriverAssignment(modalias, driver).parts;
    assert ps[..1] == [ps[0]];
    assert JoinParts(ps[..1]) == PartText(ps[0]);
    assert "ENV{MODALIAS}" + "==" + "\"" == "ENV{MODALIAS}==\"";
    assert "ENV{MODALIAS}" + "=" + "\"" == "ENV{MODALIAS}=\"";
  }

  /** A renaming rule names the device it renames; a driver rule names its modalias. */
  lemma RuleDevices(name: string, mac: string, busId: string, devPort: string, modalias: string, driver: string)
    ensures Device(NewMacBasedRename(name, mac)) == Some(name)
    ensures Device(NewBusIdBasedRename(name, busId, devPort)) == Some(name)
    ensures Modalias(NewDriverAssignment(modalias, driver)) == Some(modalias)
    ensures Device(NewDriverAssignment(modalias, driver)).None?
  {
    var m := NewMacBasedRename(name, mac).parts;
    assert m[6] == Part("NAME", "=", name);
    var b := NewBusIdBasedRename(name, busId, devPort).parts;
    assert b[6] == Part("NAME", "=", name);
  }

  // ---------------------------------------------------------------------
  // Parsing a rule line

  predicate IsOperatorChar(c: char) { c == '=' || c == '!' || c == '+' || c == '-' || c == ':' }
  predicate IsKeyChar(c: char) { !IsOperatorChar(c) && c != '"' }
  predicate IsValueChar(c: char) { c != '"' }

  predicate All(s: string, ok: char -> bool) {
    forall c :: c in s ==> ok(c)
  }

  predicate KeyText(s: string) { forall c :: c in s ==> IsKeyChar(c) }
  predicate OperatorText(s: string) { forall c :: c in s ==> IsOperatorChar(c) }
  predicate ValueText(s: string) { forall c :: c in s ==> IsValueChar(c) }

  /** A part that renders unambiguously. */
  predicate WellFormedPart(p: UdevRulePart) {
    |p.key| > 0 && KeyText(p.key) && |p.operator| > 0 && OperatorText(p.operator) && ValueText(p.value)
  }

  predicate WellFormed(r: UdevRule) {
    forall j :: 0 <= j < |r.parts| ==> WellFormedPart(r.parts[j])
  }

  /** Split `s` after its longest prefix whose characters all satisfy `ok`. */
  function Take(s: string, ok: char -> bool): (r: (string, string))
    ensures r.0 + r.1 == s
    ensures All(r.0, ok)
    ensures r.1 == [] || !ok(r.1[0])
  {
    if s == [] || !ok(s[0]) then ([], s)
    else
      var t := Take(s[1..], ok);
      var head := [s[0]] + t.0;
      assert head + t.1 == [s[0]] + (t.0 + t.1);
      assert [s[0]] + s[1..] == s;
      assert forall c :: c in head ==> c == s[0] || c in t.0;
      (head, t.1)
  }

  lemma {:induction false} TakeOf(a: string, b: string, ok: char -> bool)
    requires All(a, ok)
    requires b == [] || !ok(b[0])
    ensures Take(a + b, ok) == (a, b)
  {
    if a != [] {
      assert a[0] in a;
      assert (a + b)[1..] == a[1..] + b;
      assert forall c :: c in a[1..] ==> c in a;
      TakeOf(a[1..], b, ok);
      assert (a + b)[0] == a[0];
      assert Take(a + b, ok) == ([a[0]] + a[1..], b);
      assert [a[0]] + a[1..] == a;
    } else {
      assert a + b == b;
    }
  }

  /** Parse one `KEY<operator>"value"` part; return it with the rest of the line. */
  function ParsePart(s: string): (r: Option<(UdevRulePart, string)>)
    ensures r.Some? ==> |r.value.1| < |s|
  {
    var (key, afterKey) := Take(s, IsKeyChar);
    var (operator, afterOp) := Take(afterKey, IsOperatorChar);
    if key == [] || operator == [] || afterOp == [] || afterOp[0] != '"' then None
    else
      var (value, afterValue) := Take(afterOp[1..], IsValueChar);
      if afterValue == [] then None
      else Some((UdevRulePart(key, operator, value), afterValue[1..]))
  }

  function ParseParts(s: string): Option<seq<UdevRulePart>>
    decreases |s|
  {
    match ParsePart(s)
    case None => None
    case Some((p, rest)) =>
      if rest == [] then Some([p])
      else if |rest| >= 2 && rest[..2] == ", " then
        match ParseParts(rest[2..])
        case None => None
        case Some(ps) => Some([p] + ps)
      else None
  }

  /** `UdevRule.from_string`: the empty line is the empty rule. */
  function Parse(s: string): Option<UdevRule> {
    if s == [] then Some(UdevRule([]))
    else match ParseParts(s)
      case None => None
      case Some(ps) => Some(UdevRule(ps))
  }

  lemma ParsePartText(p: UdevRulePart, rest: string)
    requires WellFormedPart(p)
    ensures ParsePart(PartText(p) + rest) == Some((p, rest))
  {
    var s := PartText(p) + rest;
    var afterValue := "\"" + rest;
    var afterOp := "\"" + (p.value + afterValue);
    var afterKey := p.operator + afterOp;
    assert s == p.key + afterKey;
    assert p.operator[0] in p.operator;
    TakeOf(p.key, afterKey, IsKeyChar);
    TakeOf(p.operator, afterOp, IsOperatorChar);
    assert afterOp[1..] == p.value + afterValue;
    TakeOf(p.value, afterValue, IsValueChar);
    assert afterValue[1..] == rest;
  }

  /** Rendering a well-formed rule and parsing the line gives the rule back. */
  lemma ParseRuleText(r: UdevRule)
    requires WellFormed(r)
    ensures Parse(RuleText(r)) == Some(r)
  {
    if r.parts != [] {
      ParsePartsJoin(r.parts);
      assert |PartText(r.parts[0])| > 0;
    }
  }

  lemma {:induction false} ParsePartsJoin(ps: seq<UdevRulePart>)
    requires ps != []
    requires forall j :: 0 <= j < |ps| ==> WellFormedPart(ps[j])
    ensures ParseParts(JoinParts(ps)) == Some(ps)
  {
    if |ps| == 1 {
      ParsePartText(ps[0], "");
      assert PartText(ps[0]) + "" == JoinParts(ps);
      assert ps == [ps[0]];
    } else {
      var p, tail := ps[0], ps[1..];
      assert [p] + tail == ps;
      JoinCons(p, tail);
      ParsePartsJoin(tail);
      ParsePartsStep(p, JoinParts(tail), tail);
    }
  }

  /** A part, `, ` and a line of parts parse as that part followed by those parts. */
  lemma ParsePartsStep(p: UdevRulePart, t: string, tail: seq<UdevRulePart>)
    requires WellFormedPart(p)
    requires ParseParts(t) == Some(tail)
    ensures ParseParts(PartText(p) + ", " + t) == Some([p] + tail)
  {
    var rest := ", " + t;
    assert PartText(p) + ", " + t == PartText(p) + rest;
    ParsePartText(p, rest);
    assert rest[..2] == ", " && rest[2..] == t;
  }

  lemma ParsePartInverse(s: string)
    requires ParsePart(s).Some?
    ensures WellFormedPart(ParsePart(s).value.0)
    ensures PartText(ParsePart(s).value.0) + ParsePart(s).value.1 == s
  {
    var (key, afterKey) := Take(s, IsKeyChar);
    var (operator, afterOp) := Take(afterKey, IsOperatorChar);
    var (value, afterValue) := Take(afterOp[1..], IsValueChar);
    var rest := afterValue[1..];
    QuoteFirst(afterValue);
    QuoteFirst(afterOp);
    var p := UdevRulePart(key, operator, value);
    assert ParsePart(s) == Some((p, rest));
    PartTextThen(p, rest);
  }

  /** Text that starts with a quote is that quote and the rest. */
  lemma QuoteFirst(t: string)
    requires t != [] && t[0] == '"'
    ensures t == "\"" + t[1..]
  {
  }

  /** A rendered part followed by more text, grouped from the right. */
  lemma PartTextThen(p: UdevRulePart, rest: string)
    ensures PartText(p) + rest == p.key + (p.operator + ("\"" + (p.value + ("\"" + rest))))
  {
  }

  /**
   * A line that parses is exactly the rendering of the rule it parses to,
   * so a rule read from the rules file is written back verbatim.
   */
  lemma RuleTextOfParse(s: string)
    requires Parse(s).Some?
    ensures WellFormed(Parse(s).value)
    ensures RuleText(Parse(s).value) == s
  {
    if s != [] {
      ParsedPartsWellFormed(s);
      JoinOfParseParts(s);
    }
  }

  /** What a successful parse of a line consists of: one part, then either the end or `, ` and more parts. */
  lemma ParsePartsSome(s: string)
    requires ParseParts(s).Some?
    ensures ParsePart(s).Some?
    ensures var (p, rest) := ParsePart(s).value;
      if rest == [] then ParseParts(s).value == [p]
      else |rest| >= 2 && rest == ", " + rest[2..] && ParseParts(rest[2..]).Some? &&
           ParseParts(s).value == [p] + ParseParts(rest[2..]).value
  {
    var rest := ParsePart(s).value.1;
    if rest != [] {
      assert rest == rest[..2] + rest[2..];
    }
  }

  lemma {:induction false} ParsedPartsWellFormed(s: string)
    requires ParseParts(s).Some?
    ensures forall j :: 0 <= j < |ParseParts(s).value| ==> WellFormedPart(ParseParts(s).value[j])
    decreases |s|
  {
    ParsePartsSome(s);
    ParsePartInverse(s);
    var rest := ParsePart(s).value.1;
    if rest != [] {
      ParsedPartsWellFormed(rest[2..]);
    }
  }

  lemma {:induction false} JoinOfParseParts(s: string)
    requires ParseParts(s).Some?
    ensures JoinParts(ParseParts(s).value) == s
    decreases |s|
  {
    ParsePartsSome(s);
    ParsePartInverse(s);
    var p := ParsePart(s).value.0;
    var rest := ParsePart(s).value.1;
    if rest != [] {
      var tail := rest[2..];
      JoinOfParseParts(tail);
      var ps := ParseParts(tail).value;
      assert ps != [] by {
        ParsePartsSome(tail);
      }
      JoinCons(p, ps);
    }
  }

  lemma NetDeviceMatchWellFormed()
    ensures WellFormedPart(Part("SUBSYSTEM", "==", "net"))
    ensures WellFormedPart(Part("ACTION", "==", "add"))
    ensures WellFormedPart(Part("DRIVERS", "==", "?*"))
    ensures WellFormedPart(Part("ATTR{type}", "==", "1"))
  {
    assert OperatorText("==");
    assert KeyText("SUBSYSTEM") && ValueText("net");
    assert KeyText("ACTION") && ValueText("add");
    assert KeyText("DRIVERS") && ValueText("?*");
    assert KeyText("ATTR{type}") && ValueText("1");
  }

  /** The renaming rules are well formed when the values they match and assign hold no quote. */
  lemma RenameRulesWellFormed(name: string, mac: string, busId: string, devPort: string)
    requires ValueText(name) && ValueText(mac) && ValueText(busId) && ValueText(devPort)
    ensures WellFormed(NewMacBasedRename(name, mac))
    ensures WellFormed(NewBusIdBasedRename(name, busId, devPort))
  {
    NetDeviceMatchWellFormed();
    assert OperatorText("==") && OperatorText("=");
    assert KeyText("ATTR{dev_id}") && ValueText("0x0");
    assert KeyText("ATTR{address}") && KeyText("NAME") && KeyText("KERNELS") && KeyText("ATTR{dev_port}");
  }

  /** The driver rule is well formed when modalias and driver hold no quote. */
  lemma DriverRuleWellFormed(modalias: string, driver: string)
    requires ValueText(modalias) && ValueText(driver)
    ensures WellFormed(NewDriverAssignment(modalias, driver))
  {
    assert KeyText("ENV{MODALIAS}") && OperatorText("==") && OperatorText("=");
  }
}
