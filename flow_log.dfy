/**
 * The flow-log scanner (`parseFlowLogs`, `getProtocol`): each line of the
 * flow log is split on runs of whitespace; a line with at least eight
 * fields names a destination port (field 5) and a protocol number (field
 * 7), is given a tag from the lookup table, and adds one to the count of
 * that tag and one to the count of its port/protocol pair.
 */
module FlowLog {
  import opened JavaText
  import opened Lookup

  /** The tag of a flow whose port/protocol pair has no lookup entry. */
  const Untagged: string := "Untagged"

  /** `getProtocol`: the IANA numbers 6 and 17 are named; every other input is "unknown". */
  function GetProtocol(protocolNumber: string): (r: string)
    ensures r == "tcp" <==> protocolNumber == "6"
    ensures r == "udp" <==> protocolNumber == "17"
    ensures r == "unknown" <==> protocolNumber != "6" && protocolNumber != "17"
  {
    match protocolNumber
    case "6" => "tcp"
    case "17" => "udp"
    case _ => "unknown"
  }

  /** The three protocol names `getProtocol` can return. */
  predicate IsProtocolName(p: string) {
    p == "tcp" || p == "udp" || p == "unknown"
  }

  /**
   * Every protocol name is lower case and comma-free, so the
   * `toLowerCase()` applied to it before the lookup changes nothing.
   */
  lemma ProtocolNameIsLower(protocolNumber: string)
    ensures IsProtocolName(GetProtocol(protocolNumber))
    ensures ',' !in GetProtocol(protocolNumber)
    ensures ToLower(GetProtocol(protocolNumber)) == GetProtocol(protocolNumber)
  {
    var p := GetProtocol(protocolNumber);
    assert IsLower(p);
    ToLowerOfLower(p);
  }

  /** What the scanner takes from one flow-log line. */
  datatype FlowRecord = FlowRecord(dstPort: string, protocol: string)

  /**
   * One flow-log line.  A blank line, or one whose whitespace split has
   * fewer than eight fields, yields nothing; otherwise field 5 is the port
   * and field 7 is mapped to a protocol name.
   */
  function ParseFlowLine(line: string): (r: Option<FlowRecord>)
    ensures r.None? <==> IsBlank(line) || |SplitWhitespace(line)| < 8
    ensures r.Some? ==>
              && r.value.dstPort == SplitWhitespace(line)[5]
              && r.value.protocol == GetProtocol(SplitWhitespace(line)[7])
    ensures r.Some? ==> r.value.dstPort != [] && NoSpace(r.value.dstPort)
  {
    if IsBlank(line) then None
    else
      var parts := SplitWhitespace(line);
      if |parts| < 8 then None
      else Some(FlowRecord(parts[5], GetProtocol(parts[7])))
  }

  /**
   * A line of non-empty whitespace-free fields separated by runs of one or
   * more whitespace characters, with optional leading and trailing runs.
   * When it is not blank and splits into at least eight fields, it parses
   * to field 5 and the name of field 7 of the split.  The empty first
   * field that leading whitespace produces shifts the numbering by one, so
   * such a line yields its fields 4 and 6.
   */
  lemma ParseFlowRow(lead: string, fields: seq<string>, gaps: seq<string>, trail: string)
    requires AllSpace(lead) && AllSpace(trail) && IsLayout(fields, gaps)
    requires !IsBlank(lead + Interleave(fields, gaps) + trail)
    requires |fields| + (if lead == [] then 0 else 1) >= 8
    ensures lead == [] ==>
              ParseFlowLine(lead + Interleave(fields, gaps) + trail)
              == Some(FlowRecord(fields[5], GetProtocol(fields[7])))
    ensures lead != [] ==>
              ParseFlowLine(lead + Interleave(fields, gaps) + trail)
              == Some(FlowRecord(fields[4], GetProtocol(fields[6])))
  {
    SplitWhitespaceOfRuns(lead, fields, gaps, trail);
  }

  /** The diagnostic printed for a malformed flow-log line. */
  function FlowDiagnostic(line: string): string {
    "Invalid line in flow log: " + line
  }

  /** What the pass reports for one line: nothing, or its diagnostic. */
  function FlowLineDiagnostics(line: string): seq<string> {
    if !IsBlank(line) && |SplitWhitespace(line)| < 8 then [FlowDiagnostic(line)] else []
  }

  /**
   * The diagnostics of a flow-log pass: one per line that is not blank but
   * splits into fewer than eight fields, in file order.
   */
  function FlowDiagnostics(lines: seq<string>): seq<string> {
    LineReports(FlowLineDiagnostics, lines)
  }

  /** A single line is reported exactly when it is not blank and has fewer than eight fields. */
  lemma FlowDiagnosticsOfLine(line: string)
    ensures !IsBlank(line) && |SplitWhitespace(line)| < 8 ==> FlowDiagnostics([line]) == [FlowDiagnostic(line)]
    ensures IsBlank(line) || |SplitWhitespace(line)| >= 8 ==> FlowDiagnostics([line]) == []
  {
    assert [line][..0] == [];
    assert FlowDiagnostics([line]) == LineReports(FlowLineDiagnostics, []) + FlowLineDiagnostics(line);
  }

  /** The diagnostics of two line sequences read in turn are theirs in the same order. */
  lemma FlowDiagnosticsAppend(xs: seq<string>, ys: seq<string>)
    ensures FlowDiagnostics(xs + ys) == FlowDiagnostics(xs) + FlowDiagnostics(ys)
  {
    LineReportsAppend(FlowLineDiagnostics, xs, ys);
  }

  /** The key a flow is looked up under: its port and its lower-cased protocol name. */
  function TagKey(rec: FlowRecord): string {
    CompositeKey(rec.dstPort, ToLower(rec.protocol))
  }

  /** The key a flow is counted under in the port/protocol tally. */
  function PortProtocolKey(rec: FlowRecord): string {
    CompositeKey(rec.dstPort, rec.protocol)
  }

  /** `lookupMap.getOrDefault(key, "Untagged")` */
  function ResolveTag(table: map<string, string>, rec: FlowRecord): string {
    if TagKey(rec) in table then table[TagKey(rec)] else Untagged
  }

  /**
   * For a valid flow line the tag is the lookup entry for its port joined
   * with the protocol name of field 7, and "Untagged" when there is none;
   * the lookup key and the port/protocol tally key are the same string.
   */
  lemma ResolvedTagOfLine(table: map<string, string>, line: string)
    requires ParseFlowLine(line).Some?
    ensures var f := SplitWhitespace(line);
            var key := CompositeKey(f[5], GetProtocol(f[7]));
            && TagKey(ParseFlowLine(line).value) == key
            && PortProtocolKey(ParseFlowLine(line).value) == key
            && (key in table ==> ResolveTag(table, ParseFlowLine(line).value) == table[key])
            && (key !in table ==> ResolveTag(table, ParseFlowLine(line).value) == Untagged)
  {
    ProtocolNameIsLower(SplitWhitespace(line)[7]);
  }

  // ---------------------------------------------------------------- tallies

  /** `m.getOrDefault(k, 0)` */
  function GetOrZero(m: map<string, nat>, k: string): nat {
    if k in m then m[k] else 0
  }

  /** `m.put(k, m.getOrDefault(k, 0) + 1)`: one more for `k`, nothing else changes. */
  function Increment(m: map<string, nat>, k: string): (r: map<string, nat>)
    ensures r.Keys == m.Keys + {k}
    ensures forall j :: GetOrZero(r, j) == GetOrZero(m, j) + (if j == k then 1 else 0)
  {
    m[k := GetOrZero(m, k) + 1]
  }

  /** The two count maps the scanner fills. */
  datatype Tallies = Tallies(tagCounts: map<string, nat>, portProtocolCounts: map<string, nat>)

  /** The effect of one flow-log line on the tallies. */
  function TallyStep(table: map<string, string>, t: Tallies, line: string): Tallies {
    match ParseFlowLine(line)
    case None => t
    case Some(rec) =>
      Tallies(Increment(t.tagCounts, ResolveTag(table, rec)),
              Increment(t.portProtocolCounts, PortProtocolKey(rec)))
  }

  /** The tallies after reading `lines` in order, starting from `t`. */
  function TallyAll(table: map<string, string>, t: Tallies, lines: seq<string>): Tallies {
    if lines == [] then t
    else TallyStep(table, TallyAll(table, t, lines[..|lines| - 1]), lines[|lines| - 1])
  }

  /** Whether a flow-log line is counted at all. */
  predicate IsFlowRow(line: string) {
    ParseFlowLine(line).Some?
  }

  /** How many lines are counted. */
  function CountRows(lines: seq<string>): nat {
    if lines == [] then 0
    else CountRows(lines[..|lines| - 1]) + (if IsFlowRow(lines[|lines| - 1]) then 1 else 0)
  }

  /** How many counted lines resolve to `tag`. */
  function CountTagged(table: map<string, string>, lines: seq<string>, tag: string): nat {
    if lines == [] then 0
    else
      var line := lines[|lines| - 1];
      CountTagged(table, lines[..|lines| - 1], tag)
        + (if IsFlowRow(line) && ResolveTag(table, ParseFlowLine(line).value) == tag then 1 else 0)
  }

  /** How many counted lines have port/protocol key `key`. */
  function CountKeyed(lines: seq<string>, key: string): nat {
    if lines == [] then 0
    else
      var line := lines[|lines| - 1];
      CountKeyed(lines[..|lines| - 1], key)
        + (if IsFlowRow(line) && PortProtocolKey(ParseFlowLine(line).value) == key then 1 else 0)
  }

  /**
   * A line that is blank or has fewer than eight fields leaves both tallies
   * as they were; any other line adds one to exactly one tag count and one
   * to exactly one port/protocol count, whatever the tag turned out to be.
   */
  lemma TallyStepEffect(table: map<string, string>, t: Tallies, line: string, k: string)
    ensures !IsFlowRow(line) ==> TallyStep(table, t, line) == t
    ensures IsFlowRow(line) ==>
              var rec := ParseFlowLine(line).value;
              var after := TallyStep(table, t, line);
              && after.tagCounts.Keys == t.tagCounts.Keys + {ResolveTag(table, rec)}
              && after.portProtocolCounts.Keys == t.portProtocolCounts.Keys + {PortProtocolKey(rec)}
              && GetOrZero(after.tagCounts, k)
                 == GetOrZero(t.tagCounts, k) + (if k == ResolveTag(table, rec) then 1 else 0)
              && GetOrZero(after.portProtocolCounts, k)
                 == GetOrZero(t.portProtocolCounts, k) + (if k == PortProtocolKey(rec) then 1 else 0)
  {
  }

  /**
   * After the scan, the count of a tag is its count before plus the number
   * of counted lines resolving to it, and the count of a port/protocol key
   * is its count before plus the number of counted lines with that key.
   */
  lemma {:induction false} TallyAllCounts(table: map<string, string>, t: Tallies, lines: seq<string>, k: string)
    ensures GetOrZero(TallyAll(table, t, lines).tagCounts, k)
            == GetOrZero(t.tagCounts, k) + CountTagged(table, lines, k)
    ensures GetOrZero(TallyAll(table, t, lines).portProtocolCounts, k)
            == GetOrZero(t.portProtocolCounts, k) + CountKeyed(lines, k)
  {
    if lines != [] {
      var init := lines[..|lines| - 1];
      TallyAllCounts(table, t, init, k);
      TallyStepEffect(table, TallyAll(table, t, init), lines[|lines| - 1], k);
    }
  }

  // ---------------------------------------------------------------- totals

  /** The sum of the counts of a tally. */
  ghost function Total(m: map<string, nat>): nat
    decreases |m|
  {
    if m == map[] then 0
    else
      var k :| k in m;
      assert |m - {k}| < |m| by {
        assert (m - {k}).Keys == m.Keys - {k};
      }
      m[k] + Total(m - {k})
  }

  /** The total is the count of any one key plus the total of the rest. */
  lemma {:induction false} TotalRemove(m: map<string, nat>, k: string)
    requires k in m
    ensures Total(m) == m[k] + Total(m - {k})
    decreases |m|
  {
    var j :| j in m && Total(m) == m[j] + Total(m - {j});
    if j != k {
      var mj := m - {j};
      var mk := m - {k};
      assert (mj - {k}) == (mk - {j});
      assert |mj| < |m| by { assert mj.Keys == m.Keys - {j}; }
      assert |mk| < |m| by { assert mk.Keys == m.Keys - {k}; }
      TotalRemove(mj, k);
      TotalRemove(mk, j);
    }
  }

  /** Incrementing one key raises the total by exactly one. */
  lemma TotalIncrement(m: map<string, nat>, k: string)
    ensures Total(Increment(m, k)) == Total(m) + 1
  {
    var r := Increment(m, k);
    TotalRemove(r, k);
    assert r - {k} == m - {k};
    if k in m {
      TotalRemove(m, k);
    } else {
      assert m - {k} == m;
    }
  }

  /**
   * Each tally's counts grow by exactly the number of counted lines: from
   * empty tallies, each sums to the number of non-blank lines with at
   * least eight fields.
   */
  lemma {:induction false} TallyAllTotals(table: map<string, string>, t: Tallies, lines: seq<string>)
    ensures Total(TallyAll(table, t, lines).tagCounts) == Total(t.tagCounts) + CountRows(lines)
    ensures Total(TallyAll(table, t, lines).portProtocolCounts) == Total(t.portProtocolCounts) + CountRows(lines)
  {
    if lines != [] {
      var init := lines[..|lines| - 1];
      var before := TallyAll(table, t, init);
      var line := lines[|lines| - 1];
      TallyAllTotals(table, t, init);
      if IsFlowRow(line) {
        var rec := ParseFlowLine(line).value;
        TotalIncrement(before.tagCounts, ResolveTag(table, rec));
        TotalIncrement(before.portProtocolCounts, PortProtocolKey(rec));
      }
    }
  }

  // ---------------------------------------------------------------- key shape

  /** Every port/protocol key is a port, a comma and one of the three protocol names. */
  ghost predicate WellFormedKeys(m: map<string, nat>) {
    forall k :: k in m ==> ',' in k && IsProtocolName(KeyProtocol(k))
  }

  /** The scan keeps every port/protocol key well formed. */
  lemma {:induction false} TallyAllKeysWellFormed(table: map<string, string>, t: Tallies, lines: seq<string>)
    requires WellFormedKeys(t.portProtocolCounts)
    ensures WellFormedKeys(TallyAll(table, t, lines).portProtocolCounts)
  {
    if lines != [] {
      var init := lines[..|lines| - 1];
      TallyAllKeysWellFormed(table, t, init);
      var line := lines[|lines| - 1];
      if IsFlowRow(line) {
        var rec := ParseFlowLine(line).value;
        ProtocolNameIsLower(SplitWhitespace(line)[7]);
        KeyPartsOfCompositeKey(rec.dstPort, rec.protocol);
      }
    }
  }
}
