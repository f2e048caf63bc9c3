/**
 * The bond-slave widget: the order in which candidate slaves are offered
 * (selected ones first, the rest sorted by a device-name key whose numeric
 * parts are right-justified), the up/down buttons that move the current
 * item, the rule that enables them, and the check for slaves that share a
 * physical port.
 *
 * The widget keeps its state in the UI; here that state is the fields of
 * `BondSlave`: the item names, the selected names, the current item and
 * whether each button is enabled.
 */
module BondSlaveWidget {
  import opened Wrappers
  import Seqs

  // ---------------------------------------------------------------------
  // `justify_dev_name`: the sort key of a device name.

  /** Letters and digits (ASCII; the source uses the Unicode classes). */
  predicate IsAlpha(c: char) { 'a' <= c <= 'z' || 'A' <= c <= 'Z' }
  predicate IsDigit(c: char) { '0' <= c <= '9' }
  predicate IsAlnum(c: char) { IsAlpha(c) || IsDigit(c) }

  predicate AllAlpha(s: string) { forall i :: 0 <= i < |s| ==> IsAlpha(s[i]) }
  predicate AllDigits(s: string) { forall i :: 0 <= i < |s| ==> IsDigit(s[i]) }

  /** Length of the longest prefix of `s` whose characters satisfy `p`. */
  function Leading(s: string, p: char -> bool): (n: nat)
    ensures n <= |s|
    ensures forall i :: 0 <= i < n ==> p(s[i])
    ensures n < |s| ==> !p(s[n])
  {
    if s == [] || !p(s[0]) then 0 else 1 + Leading(s[1..], p)
  }

  /**
   * `scan(/\p{Alpha}+|\p{Digit}+/)`: the maximal runs of letters and of
   * digits, left to right; every other character separates runs and is
   * dropped.
   */
  function Scan(s: string): seq<string>
    decreases |s|
  {
    if s == [] then []
    else if IsAlpha(s[0]) then
      var n := Leading(s, IsAlpha);
      [s[..n]] + Scan(s[n..])
    else if IsDigit(s[0]) then
      var n := Leading(s, IsDigit);
      [s[..n]] + Scan(s[n..])
    else Scan(s[1..])
  }

  /** `rjust(width, pad)`: `s` preceded by enough `pad` to reach `width`. */
  function RightJustify(s: string, width: nat, pad: char): (r: string)
    ensures |r| == if |s| >= width then |s| else width
    ensures r[|r| - |s|..] == s
    ensures forall i :: 0 <= i < |r| - |s| ==> r[i] == pad
  {
    if |s| >= width then s else seq(width - |s|, _ => pad) + s
  }

  /** Padding by one more step is padding a string one `pad` longer. */
  lemma PadOneMore(s: string, width: nat, pad: char)
    requires |s| < width
    ensures RightJustify(s, width, pad) == RightJustify([pad] + s, width, pad)
  {
    var r := RightJustify(s, width, pad);
    var t := RightJustify([pad] + s, width, pad);
    assert |r| == |t|;
    forall i | 0 <= i < |r| ensures r[i] == t[i] {
      if i < |r| - |s| - 1 {
      } else if i == |r| - |s| - 1 {
        assert t[i] == t[|t| - |s| - 1..][0];
      } else {
        assert r[i] == r[|r| - |s|..][i - (|r| - |s|)];
        assert t[i] == t[|t| - |s| - 1..][i - (|t| - |s| - 1)];
      }
    }
  }

  /** A digit run is right-justified to five places with `0`; a letter run is kept. */
  function Justify(run: string): string {
    if run != [] && IsDigit(run[0]) then RightJustify(run, 5, '0') else run
  }

  function JoinJustified(runs: seq<string>): string {
    if runs == [] then [] else Justify(runs[0]) + JoinJustified(runs[1..])
  }

  /** The key `init` sorts the unselected items by. */
  function JustifyDevName(name: string): string {
    JoinJustified(Scan(name))
  }

  /** A run: a non-empty stretch of letters only or of digits only. */
  predicate IsRun(run: string) { run != [] && (AllAlpha(run) || AllDigits(run)) }

  /** What the scan yields are runs. */
  lemma {:induction false} ScanRuns(s: string)
    ensures forall k :: 0 <= k < |Scan(s)| ==> IsRun(Scan(s)[k])
    decreases |s|
  {
    if s != [] {
      if IsAlpha(s[0]) {
        ScanRuns(s[Leading(s, IsAlpha)..]);
      } else if IsDigit(s[0]) {
        ScanRuns(s[Leading(s, IsDigit)..]);
      } else {
        ScanRuns(s[1..]);
      }
    }
  }

  /** Justifying a run yields letters and digits only. */
  lemma JustifyAlnum(run: string)
    requires IsRun(run)
    ensures forall i :: 0 <= i < |Justify(run)| ==> IsAlnum(Justify(run)[i])
  {
    if IsDigit(run[0]) {
      var r := RightJustify(run, 5, '0');
      assert !IsAlpha(run[0]);
      forall i | 0 <= i < |r|
        ensures IsDigit(r[i])
      {
        if i >= |r| - |run| {
          assert r[i] == r[|r| - |run|..][i - (|r| - |run|)];
        }
      }
    }
  }

  lemma {:induction false} JoinJustifiedAlnum(runs: seq<string>)
    requires forall k :: 0 <= k < |runs| ==> IsRun(runs[k])
    ensures forall i :: 0 <= i < |JoinJustified(runs)| ==> IsAlnum(JoinJustified(runs)[i])
  {
    if runs != [] {
      var head := Justify(runs[0]);
      JustifyAlnum(runs[0]);
      JoinJustifiedAlnum(runs[1..]);
      var tail := JoinJustified(runs[1..]);
      assert forall i :: |head| <= i < |head + tail| ==> (head + tail)[i] == tail[i - |head|];
    }
  }

  /** The key holds letters and digits only: every other character is dropped. */
  lemma JustifyDevNameAlnum(name: string)
    ensures forall i :: 0 <= i < |JustifyDevName(name)| ==> IsAlnum(JustifyDevName(name)[i])
  {
    ScanRuns(name);
    JoinJustifiedAlnum(Scan(name));
  }

  // The numeric meaning of a digit run.

  function Pow10(n: nat): (r: nat)
    ensures r >= 1
  {
    if n == 0 then 1 else 10 * Pow10(n - 1)
  }

  function DigitValue(c: char): nat
    requires IsDigit(c)
  {
    (c as int - '0' as int) as nat
  }

  /** The number a run of decimal digits denotes. */
  function Value(d: string): (v: nat)
    requires AllDigits(d)
    ensures v < Pow10(|d|)
  {
    if d == [] then 0
    else
      var rest := Value(d[1..]);
      var p := Pow10(|d| - 1);
      var a := DigitValue(d[0]);
      assert a <= 9;
      DigitScale(a, p, rest);
      assert Pow10(|d|) == 10 * p;
      a * p + rest
  }

  /** A digit times a power of ten, plus less than that power, stays below the next power. */
  lemma DigitScale(a: nat, p: nat, b: nat)
    requires a <= 9 && b < p
    ensures 0 <= a * p && a * p + b < 10 * p
  {
    assert a * p <= 9 * p;
  }

  /** Leading zeros do not change the number. */
  lemma {:induction false} ZerosKeepValue(d: string)
    requires AllDigits(d) && d != [] && d[0] == '0'
    ensures Value(d) == Value(d[1..])
  {
  }

  /** Right-justifying a digit run with `0` keeps its number. */
  lemma {:induction false} JustifyKeepsValue(d: string)
    requires AllDigits(d)
    ensures AllDigits(Justify(d)) && Value(Justify(d)) == Value(d)
  {
    if d != [] {
      PadKeepsValue(d, 5);
    }
  }

  lemma {:induction false} PadKeepsValue(d: string, width: nat)
    requires AllDigits(d)
    ensures AllDigits(RightJustify(d, width, '0'))
    ensures Value(RightJustify(d, width, '0')) == Value(d)
    decreases width - |d|
  {
    if |d| < width {
      PadOneMore(d, width, '0');
      var padded := ['0'] + d;
      assert padded[1..] == d;
      ZerosKeepValue(padded);
      PadKeepsValue(padded, width);
    }
  }

  // String order, as Ruby's `String#<=>` compares characters.

  /** `a` sorts strictly before `b`. */
  predicate LexLess(a: string, b: string) {
    if a == [] then b != []
    else if b == [] then false
    else if a[0] != b[0] then a[0] < b[0]
    else LexLess(a[1..], b[1..])
  }

  lemma {:induction false} LexLessAsymmetric(a: string, b: string)
    ensures LexLess(a, b) ==> !LexLess(b, a)
  {
    if a != [] && b != [] && a[0] == b[0] {
      LexLessAsymmetric(a[1..], b[1..]);
    }
  }

  lemma {:induction false} LexLessTotal(a: string, b: string)
    ensures a == b || LexLess(a, b) || LexLess(b, a)
  {
    if a != [] && b != [] && a[0] == b[0] {
      LexLessTotal(a[1..], b[1..]);
      if a[1..] == b[1..] {
        assert a == [a[0]] + a[1..] && b == [b[0]] + b[1..];
      }
    }
  }

  lemma {:induction false} LexLessTransitive(a: string, b: string, c: string)
    requires LexLess(a, b) && LexLess(b, c)
    ensures LexLess(a, c)
  {
    if a != [] && a[0] == b[0] && b[0] == c[0] {
      LexLessTransitive(a[1..], b[1..], c[1..]);
    }
  }

  /** A common prefix does not decide the order. */
  lemma {:induction false} LexLessCommonPrefix(w: string, a: string, b: string)
    ensures LexLess(w + a, w + b) == LexLess(a, b)
  {
    if w != [] {
      assert (w + a)[0] == w[0] && (w + b)[0] == w[0];
      assert (w + a)[1..] == w[1..] + a;
      assert (w + b)[1..] == w[1..] + b;
      LexLessCommonPrefix(w[1..], a, b);
    } else {
      assert w + a == a && w + b == b;
    }
  }

  lemma MulMonotonic(x: nat, y: nat, p: nat)
    requires x <= y
    ensures x * p <= y * p
  {
  }

  /** A smaller leading digit wins whatever follows it. */
  lemma LeadingDigitDecides(x: nat, y: nat, p: nat, rx: nat, ry: nat)
    requires x < y && rx < p
    ensures x * p + rx < y * p + ry
  {
    MulMonotonic(x + 1, y, p);
    assert (x + 1) * p == x * p + p;
  }

  /** The value of a digit run, its first digit split off. */
  lemma ValueUnfold(d: string)
    requires AllDigits(d) && d != []
    ensures Value(d) == DigitValue(d[0]) * Pow10(|d| - 1) + Value(d[1..])
  {
  }

  /** On digit runs of equal length, string order is numeric order. */
  lemma {:induction false} DigitOrder(a: string, b: string)
    requires AllDigits(a) && AllDigits(b) && |a| == |b|
    ensures LexLess(a, b) <==> Value(a) < Value(b)
  {
    if a != [] {
      var p := Pow10(|a| - 1);
      ValueUnfold(a);
      ValueUnfold(b);
      var ra, rb := Value(a[1..]), Value(b[1..]);
      if a[0] == b[0] {
        DigitOrder(a[1..], b[1..]);
      } else if a[0] < b[0] {
        LeadingDigitDecides(DigitValue(a[0]), DigitValue(b[0]), p, ra, rb);
      } else {
        LeadingDigitDecides(DigitValue(b[0]), DigitValue(a[0]), p, rb, ra);
      }
    }
  }

  /**
   * The point of the key: numbers of at most five digits, once justified,
   * sort as numbers (`eth2` before `eth10`).
   */
  lemma JustifiedOrder(a: string, b: string)
    requires AllDigits(a) && AllDigits(b) && a != [] && b != [] && |a| <= 5 && |b| <= 5
    ensures LexLess(Justify(a), Justify(b)) <==> Value(a) < Value(b)
  {
    assert IsDigit(a[0]) && IsDigit(b[0]);
    var ja, jb := Justify(a), Justify(b);
    assert ja == RightJustify(a, 5, '0') && jb == RightJustify(b, 5, '0');
    assert |ja| == 5 && |jb| == 5;
    JustifyKeepsValue(a);
    JustifyKeepsValue(b);
    DigitOrder(ja, jb);
  }

  /** A run of letters ends where a run of digits starts. */
  lemma {:induction false} LeadingOfConcat(a: string, b: string, p: char -> bool)
    requires forall i :: 0 <= i < |a| ==> p(a[i])
    requires b == [] || !p(b[0])
    ensures Leading(a + b, p) == |a|
  {
    if a != [] {
      assert (a + b)[1..] == a[1..] + b;
      LeadingOfConcat(a[1..], b, p);
    } else {
      assert a + b == b;
    }
  }

  /** A maximal run of letters at the front is scanned as one run. */
  lemma ScanAlphaRun(a: string, b: string)
    requires a != [] && AllAlpha(a) && (b == [] || !IsAlpha(b[0]))
    ensures Scan(a + b) == [a] + Scan(b)
  {
    LeadingOfConcat(a, b, IsAlpha);
    assert (a + b)[0] == a[0];
    assert (a + b)[..|a|] == a && (a + b)[|a|..] == b;
  }

  /** A maximal run of digits at the front is scanned as one run. */
  lemma ScanDigitRun(a: string, b: string)
    requires a != [] && AllDigits(a) && (b == [] || !IsDigit(b[0]))
    ensures Scan(a + b) == [a] + Scan(b)
  {
    LeadingOfConcat(a, b, IsDigit);
    assert (a + b)[0] == a[0] && !IsAlpha(a[0]);
    assert (a + b)[..|a|] == a && (a + b)[|a|..] == b;
  }

  /** A word and a number in front of the rest scan to two runs. */
  lemma ScanWordNumber(w: string, d: string, rest: string)
    requires w != [] && AllAlpha(w) && d != [] && AllDigits(d)
    requires rest == [] || IsAlpha(rest[0])
    ensures Scan(w + d + rest) == [w, d] + Scan(rest)
  {
    var t := d + rest;
    assert t[0] == d[0] && !IsAlpha(d[0]);
    ScanDigitRun(d, rest);
    ScanAlphaRun(w, t);
    Seqs.ConcatAssoc(w, d, rest);
    assert [w, d] == [w] + [d];
    Seqs.ConcatAssoc([w], [d], Scan(rest));
  }

  /** Joining justifies the first run and then the others. */
  lemma JoinOne(x: string, runs: seq<string>)
    ensures JoinJustified([x] + runs) == Justify(x) + JoinJustified(runs)
  {
    assert ([x] + runs)[1..] == runs;
  }

  lemma JoinTwo(w: string, d: string, runs: seq<string>)
    ensures JoinJustified([w, d] + runs) == Justify(w) + Justify(d) + JoinJustified(runs)
  {
    var t := [d] + runs;
    assert [w, d] + runs == [w] + t;
    JoinOne(w, t);
    JoinOne(d, runs);
    Seqs.ConcatAssoc(Justify(w), Justify(d), JoinJustified(runs));
  }

  /**
   * A word followed by a number, and then by whatever the rest of the
   * name scans to: the word is kept and the number justified.
   */
  lemma JustifyWordNumber(w: string, d: string, rest: string)
    requires w != [] && AllAlpha(w) && d != [] && AllDigits(d)
    requires rest == [] || IsAlpha(rest[0])
    ensures JustifyDevName(w + d + rest) == w + Justify(d) + JustifyDevName(rest)
  {
    ScanWordNumber(w, d, rest);
    JoinTwo(w, d, Scan(rest));
    assert !IsDigit(w[0]);
  }

  /** Devices of one family (`eth`, `em`, ...) sort by their number. */
  lemma NumberedDevicesOrder(w: string, a: string, b: string)
    requires w != [] && AllAlpha(w)
    requires AllDigits(a) && AllDigits(b) && a != [] && b != [] && |a| <= 5 && |b| <= 5
    ensures LexLess(JustifyDevName(w + a), JustifyDevName(w + b)) <==> Value(a) < Value(b)
  {
    JustifyWordNumber(w, a, []);
    JustifyWordNumber(w, b, []);
    assert w + a + [] == w + a && w + b + [] == w + b;
    assert JustifyDevName([]) == [];
    assert w + Justify(a) + [] == w + Justify(a) && w + Justify(b) + [] == w + Justify(b);
    LexLessCommonPrefix(w, Justify(a), Justify(b));
    JustifiedOrder(a, b);
  }

  /** A run of at most five digits is padded in front with zeros to five. */
  lemma JustifyShort(d: string)
    requires d != [] && AllDigits(d) && |d| <= 5
    ensures Justify(d) == seq(5 - |d|, _ => '0') + d
  {
    assert IsDigit(d[0]);
    if |d| == 5 {
      assert seq(0, _ => '0') + d == d;
    }
  }

  /** A word followed by a number of at most five digits: the number is padded with zeros. */
  lemma JustifyWordShortNumber(w: string, d: string)
    requires w != [] && AllAlpha(w) && d != [] && AllDigits(d) && |d| <= 5
    ensures JustifyDevName(w + d) == w + (seq(5 - |d|, _ => '0') + d)
  {
    JustifyWordNumber(w, d, []);
    assert w + d + [] == w + d;
    assert JustifyDevName([]) == [];
    var j := Justify(d);
    assert w + j + [] == w + j;
    JustifyShort(d);
  }

  /** The documented examples of the key: `eth0`. */
  lemma JustifyExampleEth0(name: string)
    requires name == "eth0"
    ensures JustifyDevName(name) == "eth00000"
  {
    var w, d := name[..3], name[3..];
    assert name == w + d;
    JustifyWordShortNumber(w, d);
  }

  /** `eth111`. */
  lemma JustifyExampleEth111(name: string)
    requires name == "eth111"
    ensures JustifyDevName(name) == "eth00111"
  {
    var w, d := name[..3], name[3..];
    assert name == w + d;
    JustifyWordShortNumber(w, d);
  }

  /** Two word-and-number pairs: each number is padded on its own. */
  lemma JustifyTwoWordNumbers(w: string, d: string, w2: string, d2: string)
    requires w != [] && AllAlpha(w) && d != [] && AllDigits(d) && |d| <= 5
    requires w2 != [] && AllAlpha(w2) && d2 != [] && AllDigits(d2) && |d2| <= 5
    ensures JustifyDevName(w + d + (w2 + d2)) ==
      w + (seq(5 - |d|, _ => '0') + d) + (w2 + (seq(5 - |d2|, _ => '0') + d2))
  {
    var rest := w2 + d2;
    assert IsAlpha(rest[0]);
    JustifyWordShortNumber(w2, d2);
    JustifyWordNumber(w, d, rest);
    JustifyShort(d);
  }

  /** `enp0s25`, given as its runs: every digit run is justified on its own. */
  lemma JustifyExampleEnp0s25(w: string, d: string, w2: string, d2: string)
    requires w == "enp" && d == "0" && w2 == "s" && d2 == "25"
    ensures JustifyDevName(w + d + (w2 + d2)) == w + "00000" + (w2 + "00025")
  {
    JustifyTwoWordNumbers(w, d, w2, d2);
    assert seq(4, _ => '0') + d == "00000";
    assert seq(3, _ => '0') + d2 == "00025";
  }

  // ---------------------------------------------------------------------
  // `init`: selected slaves first, in their order, then the others sorted
  // by `justify_dev_name`.

  /** `a` may come before `b` once sorted by the key. */
  predicate KeyLeq(a: string, b: string) {
    !LexLess(JustifyDevName(b), JustifyDevName(a))
  }

  lemma KeyLeqTotal(a: string, b: string)
    ensures KeyLeq(a, b) || KeyLeq(b, a)
  {
    LexLessAsymmetric(JustifyDevName(a), JustifyDevName(b));
  }

  lemma KeyLeqTransitive(a: string, b: string, c: string)
    requires KeyLeq(a, b) && KeyLeq(b, c)
    ensures KeyLeq(a, c)
  {
    var ka, kb, kc := JustifyDevName(a), JustifyDevName(b), JustifyDevName(c);
    LexLessTotal(ka, kb);
    if LexLess(kc, ka) && ka != kb {
      LexLessTransitive(kc, ka, kb);
    }
  }

  predicate SortedByKey(s: seq<string>) {
    forall i, j :: 0 <= i < j < |s| ==> KeyLeq(s[i], s[j])
  }

  /** An element no greater than any of a sorted sequence may go in front of it. */
  lemma ConsSorted(x: string, s: seq<string>)
    requires SortedByKey(s) && forall y :: y in s ==> KeyLeq(x, y)
    ensures SortedByKey([x] + s)
  {
    var r := [x] + s;
    forall i, j | 0 <= i < j < |r|
      ensures KeyLeq(r[i], r[j])
    {
      if i > 0 {
        assert r[i] == s[i - 1] && r[j] == s[j - 1];
      } else {
        assert r[j] == s[j - 1] && r[j] in s;
      }
    }
  }

  /** Everything in a sorted sequence follows an element that precedes its head. */
  lemma BelowHead(x: string, s: seq<string>)
    requires SortedByKey(s) && s != [] && KeyLeq(x, s[0])
    ensures forall y :: y in s ==> KeyLeq(x, y)
  {
    forall y | y in s
      ensures KeyLeq(x, y)
    {
      var j :| 0 <= j < |s| && s[j] == y;
      if j > 0 {
        KeyLeqTransitive(x, s[0], y);
      }
    }
  }

  /** Inserting one name into a sorted sequence, behind the names it does not precede. */
  function InsertByKey(x: string, s: seq<string>): seq<string> {
    if s == [] then [x]
    else if KeyLeq(x, s[0]) then [x] + s
    else [s[0]] + InsertByKey(x, s[1..])
  }

  /** The head of a sorted sequence precedes the rest, which is sorted too. */
  lemma SortedTail(s: seq<string>)
    requires SortedByKey(s) && s != []
    ensures SortedByKey(s[1..])
    ensures forall y :: y in s[1..] ==> KeyLeq(s[0], y)
  {
    forall y | y in s[1..]
      ensures KeyLeq(s[0], y)
    {
      var j :| 0 <= j < |s[1..]| && s[1..][j] == y;
      assert s[j + 1] == y;
    }
  }

  lemma {:induction false} InsertByKeySpec(x: string, s: seq<string>)
    requires SortedByKey(s)
    ensures multiset(InsertByKey(x, s)) == multiset(s) + multiset{x}
    ensures SortedByKey(InsertByKey(x, s))
  {
    if s == [] {
    } else if KeyLeq(x, s[0]) {
      BelowHead(x, s);
      ConsSorted(x, s);
    } else {
      var tail := s[1..];
      assert s == [s[0]] + tail;
      SortedTail(s);
      InsertByKeySpec(x, tail);
      var r := InsertByKey(x, tail);
      KeyLeqTotal(x, s[0]);
      forall y | y in r
        ensures KeyLeq(s[0], y)
      {
        assert y in multiset(r);
      }
      ConsSorted(s[0], r);
    }
  }

  /** `sort_by { |name| justify_dev_name(name) }`, as an insertion sort. */
  function SortByKey(s: seq<string>): (r: seq<string>)
    ensures multiset(r) == multiset(s)
    ensures SortedByKey(r)
  {
    if s == [] then []
    else
      assert s == [s[0]] + s[1..];
      var sorted := SortByKey(s[1..]);
      InsertByKeySpec(s[0], sorted);
      InsertByKey(s[0], sorted)
  }

  function Selected(slaves: seq<string>): string -> bool {
    name => name in slaves
  }

  function Unselected(slaves: seq<string>): string -> bool {
    name => name !in slaves
  }

  /** The order `init` gives the candidate items. */
  function InitOrder(items: seq<string>, slaves: seq<string>): seq<string> {
    Seqs.Filter(items, Selected(slaves)) + SortByKey(Seqs.Filter(items, Unselected(slaves)))
  }

  /** The names the sort puts behind the selected ones are none of the slaves. */
  lemma RestUnselected(items: seq<string>, slaves: seq<string>)
    ensures forall y :: y in SortByKey(Seqs.Filter(items, Unselected(slaves))) ==> y !in slaves
  {
    var rest := Seqs.Filter(items, Unselected(slaves));
    forall y | y in SortByKey(rest)
      ensures y !in slaves
    {
      assert y in multiset(SortByKey(rest));
      assert y in rest;
    }
  }

  /** The reordering only reorders. */
  lemma InitOrderPermutation(items: seq<string>, slaves: seq<string>)
    ensures multiset(InitOrder(items, slaves)) == multiset(items)
  {
    Seqs.FilterPartition(items, Selected(slaves), Unselected(slaves));
  }

  /** Every selected item comes before every other one. */
  lemma InitOrderSelectedFirst(items: seq<string>, slaves: seq<string>)
    ensures var r := InitOrder(items, slaves);
      forall i, j :: 0 <= i < j < |r| && r[j] in slaves ==> r[i] in slaves
  {
    var l1 := Seqs.Filter(items, Selected(slaves));
    var l2 := SortByKey(Seqs.Filter(items, Unselected(slaves)));
    var r := l1 + l2;
    RestUnselected(items, slaves);
    forall i, j | 0 <= i < j < |r| && r[j] in slaves
      ensures r[i] in slaves
    {
      assert r[i] == l1[i] && r[i] in l1;
    }
  }

  /** The selected items keep their relative order. */
  lemma InitOrderKeepsSelected(items: seq<string>, slaves: seq<string>)
    ensures Seqs.Filter(InitOrder(items, slaves), Selected(slaves)) == Seqs.Filter(items, Selected(slaves))
  {
    var sel := Selected(slaves);
    var l1 := Seqs.Filter(items, sel);
    var l2 := SortByKey(Seqs.Filter(items, Unselected(slaves)));
    RestUnselected(items, slaves);
    Seqs.FilterConcat(l1, l2, sel);
    Seqs.FilterAll(l1, sel);
    Seqs.FilterNone(l2, sel);
  }

  /** Behind a prefix of selected names, a sorted sequence stays sorted. */
  lemma SortedBehindSelected(l1: seq<string>, l2: seq<string>, slaves: seq<string>)
    requires forall k :: 0 <= k < |l1| ==> l1[k] in slaves
    requires SortedByKey(l2)
    ensures var r := l1 + l2;
      forall i, j :: 0 <= i < j < |r| && r[i] !in slaves && r[j] !in slaves ==> KeyLeq(r[i], r[j])
  {
    var r := l1 + l2;
    forall i, j | 0 <= i < j < |r| && r[i] !in slaves && r[j] !in slaves
      ensures KeyLeq(r[i], r[j])
    {
      assert i >= |l1|;
      assert r[i] == l2[i - |l1|] && r[j] == l2[j - |l1|];
    }
  }

  /** The items that are not selected are sorted by the key. */
  lemma InitOrderSortsRest(items: seq<string>, slaves: seq<string>)
    ensures var r := InitOrder(items, slaves);
      forall i, j :: 0 <= i < j < |r| && r[i] !in slaves && r[j] !in slaves ==> KeyLeq(r[i], r[j])
  {
    var l1 := Seqs.Filter(items, Selected(slaves));
    assert forall k :: 0 <= k < |l1| ==> l1[k] in l1;
    SortedBehindSelected(l1, SortByKey(Seqs.Filter(items, Unselected(slaves))), slaves);
  }

  // ---------------------------------------------------------------------
  // `repeated_physical_port_ids`: port ids shared by two or more slaves.
  // The port id of a device is looked up outside the widget; here it is
  // the parameter `portId`, `None` where the device has none.

  function HasPortId(portId: string -> Option<string>, id: string): string -> bool {
    slave => portId(slave) == Some(id)
  }

  /** The slaves whose port id is `id`, in their order. */
  function SharingPort(slaves: seq<string>, portId: string -> Option<string>, id: string): seq<string> {
    Seqs.Filter(slaves, HasPortId(portId, id))
  }

  function PortIdsOf(slaves: seq<string>, portId: string -> Option<string>): set<string> {
    set slave | slave in slaves && portId(slave).Some? :: portId(slave).value
  }

  /** The hash the loop builds: each port id met, with the slaves that have it. */
  function PortGroups(slaves: seq<string>, portId: string -> Option<string>): map<string, seq<string>> {
    map id | id in PortIdsOf(slaves, portId) :: SharingPort(slaves, portId, id)
  }

  /** After `select!`: only the ids with more than one slave. */
  function RepeatedPortIds(slaves: seq<string>, portId: string -> Option<string>): map<string, seq<string>> {
    var groups := PortGroups(slaves, portId);
    map id | id in groups && |groups[id]| > 1 :: groups[id]
  }

  /**
   * An id is reported exactly when at least two slaves have it, and it is
   * reported with those slaves, in the order they were given.
   */
  lemma RepeatedPortIdsSpec(slaves: seq<string>, portId: string -> Option<string>, id: string)
    ensures id in RepeatedPortIds(slaves, portId) <==> |SharingPort(slaves, portId, id)| >= 2
    ensures id in RepeatedPortIds(slaves, portId) ==>
      RepeatedPortIds(slaves, portId)[id] == SharingPort(slaves, portId, id)
  {
    var sharing := SharingPort(slaves, portId, id);
    if |sharing| >= 2 {
      assert sharing[0] in sharing;
      assert id in PortIdsOf(slaves, portId);
    }
  }

  lemma SharingPortSnoc(prefix: seq<string>, slave: string, portId: string -> Option<string>, id: string)
    ensures SharingPort(prefix + [slave], portId, id) ==
      SharingPort(prefix, portId, id) + (if portId(slave) == Some(id) then [slave] else [])
  {
    Seqs.FilterConcat(prefix, [slave], HasPortId(portId, id));
    assert [slave][1..] == [];
  }

  lemma SharingPortAbsent(slaves: seq<string>, portId: string -> Option<string>, id: string)
    requires id !in PortIdsOf(slaves, portId)
    ensures SharingPort(slaves, portId, id) == []
  {
    assert forall x :: x in slaves && portId(x).Some? ==> portId(x).value in PortIdsOf(slaves, portId);
    Seqs.FilterNone(slaves, HasPortId(portId, id));
  }

  /** A slave without a port id changes no group. */
  lemma PortGroupsSkip(prefix: seq<string>, slave: string, portId: string -> Option<string>)
    requires portId(slave).None?
    ensures PortGroups(prefix + [slave], portId) == PortGroups(prefix, portId)
  {
    var before, after := PortGroups(prefix, portId), PortGroups(prefix + [slave], portId);
    assert PortIdsOf(prefix + [slave], portId) == PortIdsOf(prefix, portId);
    forall id | id in after
      ensures after[id] == before[id]
    {
      SharingPortSnoc(prefix, slave, portId, id);
    }
  }

  /** A slave with a port id joins the group of that id, at its end. */
  lemma PortGroupsJoin(prefix: seq<string>, slave: string, portId: string -> Option<string>, id: string)
    requires portId(slave) == Some(id)
    ensures var groups := PortGroups(prefix, portId);
      PortGroups(prefix + [slave], portId) ==
        groups[id := (if id in groups then groups[id] else []) + [slave]]
  {
    var before, after := PortGroups(prefix, portId), PortGroups(prefix + [slave], portId);
    var expected := before[id := (if id in before then before[id] else []) + [slave]];
    assert PortIdsOf(prefix + [slave], portId) == PortIdsOf(prefix, portId) + {id};
    assert after.Keys == expected.Keys;
    forall other | other in after
      ensures after[other] == expected[other]
    {
      SharingPortSnoc(prefix, slave, portId, other);
      if other == id && id !in before {
        SharingPortAbsent(prefix, portId, id);
      }
    }
  }

  /** `repeated_physical_port_ids`, the loop over the slaves and the final `select!`. */
  method RepeatedPhysicalPortIds(slaves: seq<string>, portId: string -> Option<string>)
    returns (ports: map<string, seq<string>>)
    ensures ports == RepeatedPortIds(slaves, portId)
  {
    var groups: map<string, seq<string>> := map[];
    for k := 0 to |slaves|
      invariant groups == PortGroups(slaves[..k], portId)
    {
      var slave := slaves[k];
      assert slaves[..k + 1] == slaves[..k] + [slave];
      match portId(slave) {
        case Some(id) =>
          PortGroupsJoin(slaves[..k], slave, portId, id);
          var group := if id in groups then groups[id] else [];
          groups := groups[id := group + [slave]];
        case None =>
          PortGroupsSkip(slaves[..k], slave, portId);
      }
    }
    assert slaves[..|slaves|] == slaves;
    ports := map id | id in groups && |groups[id]| > 1 :: groups[id];
  }

  // ---------------------------------------------------------------------
  // The up/down buttons.

  function Identity(name: string): string { name }

  /** `value_index`: where the current item is in the list, if anywhere. */
  function ValueIndex(items: seq<string>, current: Option<string>): (r: Option<nat>)
    ensures r.Some? ==> r.value < |items| && Some(items[r.value]) == current
    ensures r.None? <==> current.None? || current.value !in items
  {
    match current
    case None => None
    case Some(name) =>
      var r := Seqs.IndexOf(items, Identity, name);
      assert r.None? ==> forall j :: 0 <= j < |items| ==> items[j] != name;
      r
  }

  datatype Buttons = Buttons(up: bool, down: bool)

  /** `enable_slave_buttons`: what each button's enabled state becomes. */
  function ButtonStates(items: seq<string>, current: Option<string>): Buttons {
    match ValueIndex(items, current)
    case None => Buttons(false, false)
    case Some(index) => Buttons(index > 0, index < |items| - 1)
  }

  /** Ruby's `items[index - 1]` at index 0 is the last item. */
  function PreviousIndex(index: nat, size: nat): nat
    requires index < size
  {
    if index == 0 then size - 1 else index - 1
  }

  /** The parallel assignment that exchanges two items. */
  function Swap(s: seq<string>, i: nat, j: nat): (r: seq<string>)
    requires i < |s| && j < |s|
  {
    s[i := s[j]][j := s[i]]
  }

  /** `:up`: the current item and the one before it change places. */
  function MovedUp(s: seq<string>, index: nat): seq<string>
    requires index < |s|
  {
    Swap(s, index, PreviousIndex(index, |s|))
  }

  /** `:down`: the current item and the one after it change places. */
  function MovedDown(s: seq<string>, index: nat): seq<string>
    requires index + 1 < |s|
  {
    Swap(s, index, index + 1)
  }

  /** A swap exchanges the two items, keeps every other one and loses nothing. */
  lemma SwapSpec(s: seq<string>, i: nat, j: nat)
    requires i < |s| && j < |s|
    ensures var r := Swap(s, i, j);
      |r| == |s| && r[i] == s[j] && r[j] == s[i] &&
      (forall k :: 0 <= k < |s| && k != i && k != j ==> r[k] == s[k]) &&
      multiset(r) == multiset(s)
  {
    SwapPermutes(s, i, j);
  }

  /** The items after a swap are the items before it. */
  lemma SwapPermutes(s: seq<string>, i: nat, j: nat)
    requires i < |s| && j < |s|
    ensures multiset(Swap(s, i, j)) == multiset(s)
  {
    if i != j {
      var t := s[i := s[j]];
      assert multiset(t) == multiset(s) - multiset{s[i]} + multiset{s[j]};
      var r := t[j := s[i]];
      assert multiset(r) == multiset(t) - multiset{t[j]} + multiset{s[i]};
    } else {
      assert Swap(s, i, j) == s;
    }
  }

  /** Moving an item up and then down again restores the list. */
  lemma DownUndoesUp(s: seq<string>, index: nat)
    requires 0 < index < |s|
    ensures MovedDown(MovedUp(s, index), index - 1) == s
  {
  }

  /** The buttons are enabled only where pressing them is defined and does not wrap around. */
  lemma EnabledButtonsAreSafe(items: seq<string>, current: Option<string>)
    ensures ButtonStates(items, current).up ==>
      var index := ValueIndex(items, current);
      index.Some? && 0 < index.value && PreviousIndex(index.value, |items|) == index.value - 1
    ensures ButtonStates(items, current).down ==>
      var index := ValueIndex(items, current);
      index.Some? && index.value + 1 < |items|
  {
  }

  /**
   * After moving the current item up it is found one place earlier, the
   * down button is enabled for it, and pressing it restores the list.
   */
  lemma UpThenDown(items: seq<string>, current: Option<string>)
    requires ButtonStates(items, current).up
    ensures var index := ValueIndex(items, current).value;
      var moved := MovedUp(items, index);
      ValueIndex(moved, current) == Some(index - 1) &&
      ButtonStates(moved, current).down &&
      MovedDown(moved, index - 1) == items
  {
    var index := ValueIndex(items, current).value;
    var moved := MovedUp(items, index);
    SwapSpec(items, index, index - 1);
    Seqs.IndexOfFirst(moved, Identity, current.value, index - 1);
  }

  predicate Distinct(s: seq<string>) {
    forall i, j :: 0 <= i < j < |s| ==> s[i] != s[j]
  }

  /**
   * With distinct names, after moving the current item down it is found one
   * place later, the up button is enabled for it, and pressing it restores
   * the list.
   */
  lemma DownThenUp(items: seq<string>, current: Option<string>)
    requires Distinct(items) && ButtonStates(items, current).down
    ensures var index := ValueIndex(items, current).value;
      var moved := MovedDown(items, index);
      ValueIndex(moved, current) == Some(index + 1) &&
      ButtonStates(moved, current).up &&
      MovedUp(moved, index + 1) == items
  {
    var index := ValueIndex(items, current).value;
    var moved := MovedDown(items, index);
    SwapSpec(items, index, index + 1);
    Seqs.IndexOfFirst(moved, Identity, current.value, index + 1);
  }

  /** The swap of `:up`, in place on the item array. */
  method SwapWithPrevious(a: array<string>, index: nat)
    requires index < a.Length
    modifies a
    ensures a[..] == MovedUp(old(a[..]), index)
  {
    var previous := if index == 0 then a.Length - 1 else index - 1;
    a[index], a[previous] := a[previous], a[index];
  }

  /** The swap of `:down`, in place on the item array. */
  method SwapWithNext(a: array<string>, index: nat)
    requires index + 1 < a.Length
    modifies a
    ensures a[..] == MovedDown(old(a[..]), index)
  {
    a[index], a[index + 1] := a[index + 1], a[index];
  }

  // ---------------------------------------------------------------------
  // The widget.

  datatype ButtonId = UpButton | DownButton | OtherButton(id: string)

  datatype Event =
    | SelectionChanged
    | Activated(pushButton: bool, button: ButtonId)
    | OtherEvent

  /** A press of up or down needs a current item; down also needs one after it. */
  predicate CanHandle(items: seq<string>, current: Option<string>, e: Event) {
    match e
    case Activated(true, UpButton) => ValueIndex(items, current).Some?
    case Activated(true, DownButton) =>
      ValueIndex(items, current).Some? && ValueIndex(items, current).value + 1 < |items|
    case _ => true
  }

  /** A press of an enabled button can always be handled. */
  lemma EnabledPressCanBeHandled(items: seq<string>, current: Option<string>)
    ensures ButtonStates(items, current).up ==> CanHandle(items, current, Activated(true, UpButton))
    ensures ButtonStates(items, current).down ==> CanHandle(items, current, Activated(true, DownButton))
  {
  }

  /** The item list after `handle`. */
  function HandledItems(items: seq<string>, current: Option<string>, e: Event): seq<string>
    requires CanHandle(items, current, e)
  {
    match e
    case Activated(true, UpButton) => MovedUp(items, ValueIndex(items, current).value)
    case Activated(true, DownButton) => MovedDown(items, ValueIndex(items, current).value)
    case _ => items
  }

  /** Whether `handle` ends by recomputing the buttons. */
  predicate RefreshesButtons(e: Event) {
    e.SelectionChanged? || (e.Activated? && e.pushButton && !e.button.OtherButton?)
  }

  /**
   * A press of the widget's own Up or Down button as `handle` is written:
   * `contents` gives the buttons the ids `:bond_slaves_up` and
   * `:bond_slaves_down`, while `handle` only acts on `:up` and `:down`.
   */
  function PressAsWritten(up: bool): Event {
    Activated(true, OtherButton(if up then "bond_slaves_up" else "bond_slaves_down"))
  }

  /** The press `handle` evidently expects from those buttons. */
  function PressIntended(up: bool): Event {
    Activated(true, if up then UpButton else DownButton)
  }

  /**
   * As written, pressing the enabled Up button on the second of two items
   * takes the unknown-action branch: the items stay as they were and the
   * buttons are not refreshed, where the intended press moves the item up.
   */
  lemma PressAsWrittenIgnored(a: string, b: string)
    requires a != b
    ensures var items, current := [a, b], Some(b);
      ButtonStates(items, current).up &&
      HandledItems(items, current, PressAsWritten(true)) == items &&
      !RefreshesButtons(PressAsWritten(true)) &&
      HandledItems(items, current, PressIntended(true)) == [b, a]
  {
    var items, current := [a, b], Some(b);
    Seqs.IndexOfFirst(items, Identity, b, 1);
    SwapSpec(items, 1, 0);
  }

  /**
   * With the ids routed as intended, a press of an enabled button can be
   * handled, moves the current item one place and refreshes the buttons;
   * the item keeps its name and the list keeps its items.
   */
  lemma PressIntendedMoves(items: seq<string>, current: Option<string>, up: bool)
    requires Distinct(items)
    requires if up then ButtonStates(items, current).up else ButtonStates(items, current).down
    ensures CanHandle(items, current, PressIntended(up))
    ensures RefreshesButtons(PressIntended(up))
    ensures var index := ValueIndex(items, current).value;
      var moved := HandledItems(items, current, PressIntended(up));
      ValueIndex(moved, current) == Some(if up then index - 1 else index + 1) &&
      multiset(moved) == multiset(items)
  {
    var index := ValueIndex(items, current).value;
    if up {
      UpThenDown(items, current);
      SwapPermutes(items, index, index - 1);
    } else {
      DownThenUp(items, current);
      SwapPermutes(items, index, index + 1);
    }
  }

  class BondSlave {
    var items: seq<string>
    var selected: seq<string>
    var current: Option<string>
    var upEnabled: bool
    var downEnabled: bool

    /** `contents`: an empty list and both buttons disabled. */
    constructor ()
      ensures items == [] && selected == [] && current == None
      ensures !upEnabled && !downEnabled
    {
      items := [];
      selected := [];
      current := None;
      upEnabled := false;
      downEnabled := false;
    }

    /** The enabled state of the two buttons. */
    function Enabled(): Buttons
      reads this
    {
      Buttons(upEnabled, downEnabled)
    }

    method EnableSlaveButtons()
      modifies this
      ensures Enabled() == ButtonStates(items, current)
      ensures items == old(items) && selected == old(selected) && current == old(current)
    {
      var index := None;
      if current.Some? {
        index := Seqs.FindIndex(items, Identity, current.value);
      }
      if index.Some? {
        upEnabled := index.value > 0;
        downEnabled := index.value < |items| - 1;
      } else {
        upEnabled := false;
        downEnabled := false;
      }
    }

    /** `init`, given the names of the candidate items and the current slaves. */
    method Init(candidates: seq<string>, slaves: seq<string>)
      modifies this
      ensures items == InitOrder(candidates, slaves) && selected == slaves
      ensures current == old(current)
      ensures Enabled() == ButtonStates(items, current)
    {
      var l1 := Seqs.Filter(candidates, Selected(slaves));
      var l2 := Seqs.Filter(candidates, Unselected(slaves));
      items := l1 + SortByKey(l2);
      selected := slaves;
      EnableSlaveButtons();
    }

    method Handle(e: Event)
      requires CanHandle(items, current, e)
      modifies this
      ensures items == HandledItems(old(items), old(current), e)
      ensures selected == old(selected) && current == old(current)
      ensures RefreshesButtons(e) ==> Enabled() == ButtonStates(items, current)
      ensures !RefreshesButtons(e) ==> Enabled() == old(Enabled())
    {
      match e
      case SelectionChanged =>
        EnableSlaveButtons();
      case Activated(pushButton, button) =>
        if pushButton && !button.OtherButton? {
          var s := items;
          var index := Seqs.FindIndex(s, Identity, current.value);
          var a := new string[|s|](k requires 0 <= k < |s| => s[k]);
          assert a[..] == s;
          if button == UpButton {
            SwapWithPrevious(a, index.value);
          } else {
            SwapWithNext(a, index.value);
          }
          items := a[..];
          EnableSlaveButtons();
        }
      case OtherEvent =>
    }
  }
}
