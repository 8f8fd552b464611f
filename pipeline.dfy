/**
 * The program itself (`FlowLogParser`): three maps updated in place by a
 * lookup pass and a flow-log pass, then written out as two reports.  File
 * reading and writing are replaced by sequences of lines in and out, and
 * the printed diagnostics by a returned sequence of messages.
 */
module Pipeline {
  import opened JavaText
  import opened Lookup
  import opened FlowLog
  import opened Reports

  /** What the whole run computes: the tallies of `flowLines` against the table loaded from `lookupLines`. */
  function Analyse(lookupLines: seq<string>, flowLines: seq<string>): Tallies {
    TallyAll(LoadAll(map[], lookupLines), Tallies(map[], map[]), flowLines)
  }

  class FlowLogParser {
    /** Port/protocol key to tag, as loaded from the lookup file. */
    var lookupMap: map<string, string>
    /** Tag to the number of flows given it. */
    var tagCountMap: map<string, nat>
    /** Port/protocol key to the number of flows with it. */
    var portProtocolCountMap: map<string, nat>

    /** Every port/protocol key is a port, a comma and a protocol name. */
    ghost predicate Valid()
      reads this
    {
      WellFormedKeys(portProtocolCountMap)
    }

    constructor ()
      ensures Valid()
      ensures lookupMap == map[] && tagCountMap == map[] && portProtocolCountMap == map[]
    {
      lookupMap := map[];
      tagCountMap := map[];
      portProtocolCountMap := map[];
    }

    /**
     * `parseLookupTable`: reads the lookup rows in order into `lookupMap`;
     * blank lines are skipped silently, lines without exactly three fields
     * with a diagnostic.
     */
    method ParseLookupTable(lines: seq<string>) returns (diagnostics: seq<string>)
      modifies this
      ensures lookupMap == LoadAll(old(lookupMap), lines)
      ensures tagCountMap == old(tagCountMap) && portProtocolCountMap == old(portProtocolCountMap)
      ensures diagnostics == LookupDiagnostics(lines)
    {
      diagnostics := [];
      var i := 0;
      while i < |lines|
        invariant 0 <= i <= |lines|
        invariant lookupMap == LoadAll(old(lookupMap), lines[..i])
        invariant diagnostics == LookupDiagnostics(lines[..i])
        invariant tagCountMap == old(tagCountMap) && portProtocolCountMap == old(portProtocolCountMap)
      {
        var diagnostic := ScanLookupLine(lines[i]);
        diagnostics := diagnostics + diagnostic;
        assert lines[..i + 1][..i] == lines[..i];
        i := i + 1;
      }
      assert lines[..i] == lines;
    }

    /**
     * The body of the `parseLookupTable` loop for one line: skip it if
     * blank, report it unless it splits into exactly three fields, otherwise
     * map the trimmed port joined with the trimmed, lower-cased protocol to
     * the trimmed tag.
     */
    method ScanLookupLine(line: string) returns (diagnostic: seq<string>)
      modifies this
      ensures lookupMap == LookupStep(old(lookupMap), line)
      ensures tagCountMap == old(tagCountMap) && portProtocolCountMap == old(portProtocolCountMap)
      ensures diagnostic == if !IsBlank(line) && |SplitComma(line)| != 3 then [LookupDiagnostic(line)] else []
    {
      if IsBlank(line) {
        return [];
      }
      var parts := SplitComma(line);
      if |parts| != 3 {
        return [LookupDiagnostic(line)];
      }
      var key := Trim(parts[0]) + "," + ToLower(Trim(parts[1]));
      var tag := Trim(parts[2]);
      lookupMap := lookupMap[key := tag];
      diagnostic := [];
    }

    /**
     * `parseFlowLogs`: reads the flow-log lines in order, adding one to the
     * count of each counted line's tag and of its port/protocol key; blank
     * lines are skipped silently, lines with fewer than eight fields with a
     * diagnostic.  The lookup table is only read.
     */
    method ParseFlowLogs(lines: seq<string>) returns (diagnostics: seq<string>)
      requires Valid()
      modifies this
      ensures Valid()
      ensures lookupMap == old(lookupMap)
      ensures Tallies(tagCountMap, portProtocolCountMap)
              == TallyAll(lookupMap, Tallies(old(tagCountMap), old(portProtocolCountMap)), lines)
      ensures diagnostics == FlowDiagnostics(lines)
    {
      diagnostics := [];
      ghost var start := Tallies(tagCountMap, portProtocolCountMap);
      var i := 0;
      while i < |lines|
        invariant 0 <= i <= |lines|
        invariant lookupMap == old(lookupMap)
        invariant Tallies(tagCountMap, portProtocolCountMap) == TallyAll(lookupMap, start, lines[..i])
        invariant diagnostics == FlowDiagnostics(lines[..i])
      {
        var diagnostic := ScanFlowLine(lines[i]);
        diagnostics := diagnostics + diagnostic;
        assert lines[..i + 1][..i] == lines[..i];
        i := i + 1;
      }
      assert lines[..i] == lines;
      TallyAllKeysWellFormed(lookupMap, start, lines);
    }

    /**
     * The body of the `parseFlowLogs` loop for one line: skip it if blank,
     * report it if it has fewer than eight fields, otherwise count the flow
     * of fields 5 and 7.
     */
    method ScanFlowLine(line: string) returns (diagnostic: seq<string>)
      modifies this
      ensures lookupMap == old(lookupMap)
      ensures Tallies(tagCountMap, portProtocolCountMap)
              == TallyStep(lookupMap, Tallies(old(tagCountMap), old(portProtocolCountMap)), line)
      ensures diagnostic == if !IsBlank(line) && |SplitWhitespace(line)| < 8 then [FlowDiagnostic(line)] else []
    {
      if IsBlank(line) {
        return [];
      }
      var parts := SplitWhitespace(line);
      if |parts| < 8 {
        return [FlowDiagnostic(line)];
      }
      var dstPort := parts[5];
      var protocol := GetProtocol(parts[7]);
      assert ParseFlowLine(line) == Some(FlowRecord(dstPort, protocol));
      CountFlow(dstPort, protocol);
      diagnostic := [];
    }

    /**
     * Counts one flow: its tag is the lookup entry for the port joined with
     * the lower-cased protocol name ("Untagged" when there is none), and
     * that tag and the port/protocol key each count one more.
     */
    method CountFlow(dstPort: string, protocol: string)
      modifies this
      ensures lookupMap == old(lookupMap)
      ensures tagCountMap == Increment(old(tagCountMap), ResolveTag(lookupMap, FlowRecord(dstPort, protocol)))
      ensures portProtocolCountMap == Increment(old(portProtocolCountMap), PortProtocolKey(FlowRecord(dstPort, protocol)))
    {
      var key := dstPort + "," + ToLower(protocol);
      var tag := if key in lookupMap then lookupMap[key] else Untagged;
      tagCountMap := tagCountMap[tag := GetOrZero(tagCountMap, tag) + 1];
      var portProtocolKey := dstPort + "," + protocol;
      portProtocolCountMap := portProtocolCountMap[portProtocolKey := GetOrZero(portProtocolCountMap, portProtocolKey) + 1];
    }

    /**
     * `writeTagCountOutput`: the header, then one `tag,count` line per entry
     * of `tagCountMap`, in an order the map does not fix.
     */
    method WriteTagCountOutput() returns (out: seq<string>)
      ensures IsTagReport(out, tagCountMap)
    {
      out := [TagHeader];
      var counts := tagCountMap;
      var rest := counts.Keys;
      ghost var keys: seq<string> := [];
      while rest != {}
        invariant KeySet(keys) <= counts.Keys && rest == counts.Keys - KeySet(keys)
        invariant Distinct(keys)
        invariant forall i :: 0 <= i < |keys| ==> keys[i] in counts
        invariant out == [TagHeader] + TagLines(counts, keys)
        decreases rest
      {
        var tag :| tag in rest;
        out := out + [TagLine(tag, counts[tag])];
        rest := rest - {tag};
        KeySetHas(keys, tag);
        assert (keys + [tag])[..|keys|] == keys;
        keys := keys + [tag];
      }
      TagReportOfKeys(counts, keys);
    }

    /**
     * `writePortProtocolCountOutput`: the header, then one
     * `port,protocol,count` line per entry of `portProtocolCountMap`, the
     * key split back into port and protocol at its last comma.
     */
    method WritePortProtocolCountOutput() returns (out: seq<string>)
      requires forall k :: k in portProtocolCountMap ==> ',' in k
      ensures IsPortProtocolReport(out, portProtocolCountMap)
    {
      out := [PortProtocolHeader];
      var counts := portProtocolCountMap;
      var rest := counts.Keys;
      ghost var keys: seq<string> := [];
      while rest != {}
        invariant KeySet(keys) <= counts.Keys && rest == counts.Keys - KeySet(keys)
        invariant Distinct(keys)
        invariant forall i :: 0 <= i < |keys| ==> keys[i] in counts
        invariant out == [PortProtocolHeader] + PortProtocolLines(counts, keys)
        decreases rest
      {
        var key :| key in rest;
        out := out + [PortProtocolLine(key, counts[key])];
        rest := rest - {key};
        KeySetHas(keys, key);
        assert (keys + [key])[..|keys|] == keys;
        keys := keys + [key];
      }
      PortProtocolReportOfKeys(counts, keys);
    }
  }

  /**
   * `main`: load the lookup file, scan the flow log, write both reports.
   * The reports describe exactly the tallies `Analyse` computes.
   */
  method RunPipeline(lookupLines: seq<string>, flowLines: seq<string>)
    returns (tagReport: seq<string>, portProtocolReport: seq<string>, diagnostics: seq<string>)
    ensures WellFormedKeys(Analyse(lookupLines, flowLines).portProtocolCounts)
    ensures IsTagReport(tagReport, Analyse(lookupLines, flowLines).tagCounts)
    ensures IsPortProtocolReport(portProtocolReport, Analyse(lookupLines, flowLines).portProtocolCounts)
    ensures diagnostics == LookupDiagnostics(lookupLines) + FlowDiagnostics(flowLines)
  {
    var parser := new FlowLogParser();
    var lookupDiagnostics := parser.ParseLookupTable(lookupLines);
    var flowDiagnostics := parser.ParseFlowLogs(flowLines);
    tagReport := parser.WriteTagCountOutput();
    portProtocolReport := parser.WritePortProtocolCountOutput();
    diagnostics := lookupDiagnostics + flowDiagnostics;
  }
}
