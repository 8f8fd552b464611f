# FlowLogParser in Dafny

`FlowLogParser` is a small Java batch program with four steps:

1. It loads a lookup table of `dstport,protocol,tag` rows into a map.
2. It scans a whitespace-separated flow log. For each record, it takes field 5, which the program treats as the destination port (FlowLogParser.java:83), and field 7, the protocol number (FlowLogParser.java:84).
3. It resolves each record to a tag, or `Untagged` when no row matches. It counts the flows per tag and per port/protocol pair.
4. It writes the two counts out as two small CSV reports.

This project models that program as follows.

- **`JavaText`** gives the Java string operations the program relies on:
  - `String.trim` removes the leading and trailing characters up to U+0020.
  - `String.split(",")` and `String.split("\\s+")` drop trailing empty strings, and return the whole string when there is no separator.
  - `toLowerCase` is the ASCII case map.
  - `Integer.toString` is the decimal rendering.
- **`Lookup`** holds the lookup row parser, the composite `port,protocol` key and the table the rows load into (`LoadAll`).
- **`FlowLog`** holds:
  - the protocol-number mapping (`GetProtocol`);
  - the flow-record parser;
  - tag resolution;
  - the two tallies (`TallyAll`), together with their counting and totals properties.
- **`Reports`** holds the two report formats, their read-back functions and the meaning of a whole report. A report is a header followed by exactly one line per map entry, in no particular order.
- **`Pipeline`** is the program itself:
  - the class `FlowLogParser` keeps the three maps as fields that its methods update in place;
  - `RunPipeline` plays the part of `main`.

Files are modelled as sequences of lines. The messages printed for invalid lines come back as a returned sequence of diagnostics.

## Model

| member | source | states |
|---|---|---|
| `JavaText.Trim` | FlowLogParser.java:37 | the result is the infix of the line left after removing leading and trailing characters up to U+0020; it is empty exactly when every character is such a blank |
| `JavaText.TrimOfTrimmed` | FlowLogParser.java:51-54 | trimming a string that has no blank at either end leaves it unchanged |
| `JavaText.ToLower` | FlowLogParser.java:51 | same length, no upper-case ASCII letter remains, each upper-case letter is shifted to its lower-case form, every other character is kept |
| `JavaText.ToLowerIdempotent` | FlowLogParser.java:51 | lower-casing an already lower-cased string changes nothing, so the protocol part stored in a key at line 51 would survive a second lower-casing like the one at line 87 |
| `JavaText.CommaPieces` | FlowLogParser.java:42 | the comma-free pieces of a string, joined with commas, give back the string |
| `JavaText.CommaPiecesOfJoin` | FlowLogParser.java:42 | cutting a comma-joined list of comma-free fields gives back the fields |
| `JavaText.SplitComma` | FlowLogParser.java:42 | `split(",")`: a comma-free string splits to itself; otherwise the result is the comma pieces with only empty trailing pieces removed |
| `JavaText.SplitCommaOfJoin` | FlowLogParser.java:42 | splitting comma-joined comma-free fields whose last field is non-empty gives back the fields |
| `JavaText.SpacePieces` | FlowLogParser.java:74 | the pieces between runs of `\s` characters are space-free and the inner ones non-empty; for a non-empty string, the first piece is empty exactly when it starts with whitespace |
| `JavaText.SpacePiecesAfterRun` | FlowLogParser.java:74 | a leading run of whitespace of any length adds exactly one empty first piece |
| `JavaText.SpacePiecesOfRuns` | FlowLogParser.java:74 | non-empty space-free fields separated by runs of one or more whitespace characters, with an optional trailing run, are cut into exactly those fields, plus one empty last piece when the trailing run is there |
| `JavaText.SpacePiecesOfLine` | FlowLogParser.java:74 | the pieces of a whole line are its fields, after an empty piece for a leading run and before an empty piece for a trailing run |
| `JavaText.SplitWhitespace` | FlowLogParser.java:74 | `split("\\s+")`: a string without whitespace comes back whole; otherwise the space pieces up to the last non-empty one, where every dropped piece is empty; fields are space-free and all but the first non-empty |
| `JavaText.SplitWhitespaceOfRuns` | FlowLogParser.java:74 | a line of fields separated by runs of any length, with optional leading and trailing runs, splits into exactly those fields, preceded by one empty field exactly when the line starts with whitespace |
| `JavaText.FieldsOf` | FlowLogParser.java:74 | every string that starts with a non-space character is non-empty space-free fields separated by non-empty whitespace runs, followed by a trailing run |
| `JavaText.LineOfRuns` | FlowLogParser.java:74 | every line that is not all whitespace has that shape, so its split is its fields, after one empty field exactly when it starts with whitespace |
| `JavaText.SplitWhitespaceOfRun` | FlowLogParser.java:74 | a non-empty line of whitespace only splits into no field |
| `JavaText.NatToString` | FlowLogParser.java:119 | the decimal form of a count is a non-empty string of digits that reads back as the count, and the form of a positive count does not start with `0` |
| `Lookup.KeyPartsOfCompositeKey` | FlowLogParser.java:51 | the `port,protocol` key of a comma-free protocol contains a comma, and splitting it at its last comma recovers the port and the protocol |
| `Lookup.CompositeKeyOfParts` | FlowLogParser.java:51 | every key holding a comma is the composite key of its parts, and its protocol part is comma-free |
| `Lookup.ParseLookupLine` | FlowLogParser.java:37-54 | a line gives no entry exactly when it is blank or does not split into three comma fields; otherwise the key is trimmed port + `,` + lower-cased trimmed protocol and the tag is the trimmed third field |
| `Lookup.ParsedEntryShape` | FlowLogParser.java:51-54 | every parsed entry's key holds a comma and has a lower-case protocol part; its tag is trimmed and comma-free |
| `Lookup.ParseLookupRow` | FlowLogParser.java:42-54 | a row written as trimmed comma-free `port,protocol,tag` with a non-empty tag parses to key `port,lower(protocol)` and that tag |
| `Lookup.LookupStepOfRow` | FlowLogParser.java:57 | loading such a row sets exactly that key to that tag in the table |
| `Lookup.LookupStep` | FlowLogParser.java:57 | one loop step on the table; it has no contract of its own, and `Lookup.LookupStepOfRow` (a valid row sets exactly its key) and `Lookup.LoadAllSkipsInvalid` (a blank or malformed line changes nothing) fix its meaning |
| `Lookup.LoadAll` | FlowLogParser.java:35-58 | the table after the whole loop; it has no contract of its own, and `Lookup.LoadAllKeys`, `Lookup.LoadAllLastWriteWins`, `Lookup.LoadAllUntouched` and `Lookup.LoadAllAppend` fix its meaning |
| `Lookup.LoadAllKeys` | FlowLogParser.java:35-58 | after loading, a key is in the table exactly when it was already there or some valid row defines it |
| `Lookup.LoadAllLastWriteWins` | FlowLogParser.java:57 | a key maps to the tag of the last valid row that defines it |
| `Lookup.LoadAllUntouched` | FlowLogParser.java:35-58 | a key that no row defines keeps its presence and its old tag |
| `Lookup.LoadAllSkipsInvalid` | FlowLogParser.java:37-48 | inserting a blank or malformed line anywhere leaves the loaded table unchanged |
| `Lookup.LoadAllAppend` | FlowLogParser.java:35-58 | loading two line sequences one after the other equals loading their concatenation |
| `Lookup.LineReportsAppend` | FlowLogParser.java:35-47 | the messages printed while reading two line sequences in turn are those of the first followed by those of the second |
| `Lookup.LookupDiagnostics` | FlowLogParser.java:46 | the messages of the lookup pass; it has no contract of its own, and `Lookup.LookupDiagnosticsOfLine`, `Lookup.LookupDiagnosticsAppend` and `Pipeline.FlowLogParser.ScanLookupLine` fix its meaning |
| `Lookup.LookupDiagnosticsOfLine` | FlowLogParser.java:37-47 | a single line gives exactly one message, `Invalid line in lookup table: ` followed by the line, when it is not blank and does not split into three comma fields, and no message otherwise |
| `Lookup.LookupDiagnosticsAppend` | FlowLogParser.java:35-47 | the lookup messages of two line sequences read in turn are those of the first followed by those of the second, so every line is reported by the rule above, in file order |
| `Lookup.ProtocolCaseCollapses` | FlowLogParser.java:51 | two rows for one port whose protocols differ only in letter case define the same key, each with its own tag |
| `FlowLog.GetProtocol` | FlowLogParser.java:103-111 | `tcp` exactly for `"6"`, `udp` exactly for `"17"`, `unknown` exactly for every other string |
| `FlowLog.ProtocolNameIsLower` | FlowLogParser.java:84-87 | every protocol name is one of the three, is comma-free, and is unchanged by lower-casing |
| `FlowLog.ParseFlowLine` | FlowLogParser.java:69-84 | a line gives no record exactly when it is blank or has fewer than eight whitespace fields; otherwise the record holds field 5 and the protocol name of field 7, and the port is non-empty and space-free |
| `FlowLog.ParseFlowRow` | FlowLogParser.java:74-84 | a non-blank line of non-empty space-free fields separated by whitespace runs of any length parses to fields 5 and 7 of its split; with leading whitespace the empty first field shifts these to its own fields 4 and 6 |
| `FlowLog.ResolveTag` | FlowLogParser.java:90 | `getOrDefault(key, "Untagged")`; it has no contract of its own, and `FlowLog.ResolvedTagOfLine` fixes its meaning |
| `FlowLog.ResolvedTagOfLine` | FlowLogParser.java:87-90 | a counted line's tag is the table entry for `field5,name(field7)` when there is one, and `Untagged` otherwise |
| `FlowLog.Increment` | FlowLogParser.java:93 | the key is present afterwards, its count is one more than before (absent counts as 0), and every other count is unchanged |
| `FlowLog.TallyStep` | FlowLogParser.java:69-97 | one loop step on the two tallies; it has no contract of its own, and `FlowLog.TallyStepEffect` fixes its meaning |
| `FlowLog.TallyAll` | FlowLogParser.java:67-98 | the tallies after the whole loop; it has no contract of its own, and `FlowLog.TallyAllCounts`, `FlowLog.TallyAllTotals` and `FlowLog.TallyAllKeysWellFormed` fix its meaning |
| `FlowLog.TallyStepEffect` | FlowLogParser.java:69-97 | a skipped line changes no count; a counted line adds exactly one to its tag and one to its port/protocol key, and nothing else |
| `FlowLog.TallyAllCounts` | FlowLogParser.java:67-98 | each tag's count grows by the number of counted lines that resolve to it, and each key's count by the number of counted lines with that key |
| `FlowLog.TotalIncrement` | FlowLogParser.java:93-97 | one increment raises the sum of all counts by exactly one |
| `FlowLog.TallyAllTotals` | FlowLogParser.java:67-98 | both tallies grow in total by the number of counted lines, so every counted flow lands in exactly one tag and one key |
| `FlowLog.TallyAllKeysWellFormed` | FlowLogParser.java:96-97 | every port/protocol key is a port, a comma and one of the three protocol names |
| `FlowLog.FlowDiagnostics` | FlowLogParser.java:78 | the messages of the flow-log pass; it has no contract of its own, and `FlowLog.FlowDiagnosticsOfLine`, `FlowLog.FlowDiagnosticsAppend` and `Pipeline.FlowLogParser.ScanFlowLine` fix its meaning |
| `FlowLog.FlowDiagnosticsOfLine` | FlowLogParser.java:69-79 | a single line gives exactly one message, `Invalid line in flow log: ` followed by the line, when it is not blank and has fewer than eight whitespace fields, and no message otherwise |
| `FlowLog.FlowDiagnosticsAppend` | FlowLogParser.java:67-79 | the flow-log messages of two line sequences read in turn are those of the first followed by those of the second, so every line is reported by the rule above, in file order |
| `Reports.TagLine` | FlowLogParser.java:119 | `tag + "," + count`; it has no contract of its own, and `Reports.TagLineRoundTrip` and `Reports.TagLineInjective` fix its meaning |
| `Reports.TagLineRoundTrip` | FlowLogParser.java:119 | a `tag,count` line reads back, at its last comma, as the tag and the count |
| `Reports.TagLineInjective` | FlowLogParser.java:119 | different entries give different tag lines |
| `Reports.PortProtocolLine` | FlowLogParser.java:129 | the corrected line, which splits the key at its last comma; it has no contract of its own, and `Reports.PortProtocolLineRoundTrip` and `Reports.PortProtocolLineInjective` fix its meaning |
| `Reports.PortProtocolLineRoundTrip` | FlowLogParser.java:129 | a `port,protocol,count` line reads back as the key's port, its protocol and the count, and port + `,` + protocol is the key |
| `Reports.PortProtocolLineInjective` | FlowLogParser.java:129 | different entries give different port/protocol lines |
| `Reports.PortProtocolLineAsWritten` | FlowLogParser.java:129 | the program's own line, `split(",")[0]`, `split(",")[1]` and the count, with no line when the key has fewer than two comma fields; it has no contract of its own, and `Reports.AsWrittenAgreesOnCommaFreePorts` and `Reports.AsWrittenDropsProtocol` fix its meaning |
| `Reports.AsWrittenAgreesOnCommaFreePorts` | FlowLogParser.java:129 | when the port holds no comma, the program's line equals the intended one |
| `Reports.AsWrittenDropsProtocol` | FlowLogParser.java:129 | for a port `a,b` the program writes `a,b,count`: the protocol is gone and the line reads back as port `a`, protocol `b`, unlike the intended line |
| `Reports.KeySetHas` | FlowLogParser.java:118 | a key is among the keys written so far exactly when it is in the sequence of written keys |
| `Reports.KeySetSize` | FlowLogParser.java:118 | distinct written keys number as many as the lines written |
| `Reports.TagReportOfKeys` | FlowLogParser.java:115-122 | writing the entries once each, in any order, gives the header followed by exactly one distinct `tag,count` line per map entry |
| `Reports.PortProtocolReportOfKeys` | FlowLogParser.java:125-132 | writing the entries once each, in any order, gives the header followed by exactly one distinct `port,protocol,count` line per map entry |
| `Pipeline.FlowLogParser.constructor` | FlowLogParser.java:7-11 | the three maps start empty |
| `Pipeline.FlowLogParser.ParseLookupTable` | FlowLogParser.java:31-60 | the lookup map becomes the table loaded from the lines in order, the counts are untouched, and one diagnostic is returned per malformed non-blank line, in order |
| `Pipeline.FlowLogParser.ScanLookupLine` | FlowLogParser.java:37-57 | one loop step: a blank line changes nothing; a line without three fields changes nothing and gives a diagnostic; a valid line sets its key to its tag |
| `Pipeline.FlowLogParser.ParseFlowLogs` | FlowLogParser.java:63-100 | the counts become the tallies of the lines against the unchanged lookup map, the port/protocol keys stay well formed, and one diagnostic is returned per short non-blank line |
| `Pipeline.FlowLogParser.ScanFlowLine` | FlowLogParser.java:69-97 | one loop step: the counts advance by one tally step of the line, and a diagnostic is returned exactly for a non-blank line with fewer than eight fields |
| `Pipeline.FlowLogParser.CountFlow` | FlowLogParser.java:87-97 | the resolved tag and the port/protocol key each count one more; the lookup map is unchanged |
| `Pipeline.FlowLogParser.WriteTagCountOutput` | FlowLogParser.java:115-122 | the output is the tag report of the tag counts: the header, then exactly one distinct line per tag that reads back as that tag and its count |
| `Pipeline.FlowLogParser.WritePortProtocolCountOutput` | FlowLogParser.java:125-132 | the output is the port/protocol report of the key counts: the header, then exactly one distinct line per key that reads back as its port, protocol and count |
| `Pipeline.RunPipeline` | FlowLogParser.java:13-28 | both reports describe exactly the tallies of the flow log against the loaded table, and the diagnostics are those of the lookup lines followed by those of the flow lines |

## Left out

- File reading and writing (`BufferedReader`, `BufferedWriter`, the file names) are left out. Files are sequences of lines, and the `"\n"` after every output line is implicit in that.
- `IOException` handling and `printStackTrace` in `main` are left out, because I/O is not modelled.
- `System.out.println` of invalid lines is modelled as a returned sequence of diagnostic strings.
- The three static maps are modelled as fields of one `FlowLogParser` instance.
- `JavaText.ToLower` models only ASCII case mapping. Java's locale-sensitive Unicode `toLowerCase` is not modelled.
- `JavaText.SplitWhitespace` models `\s+` as runs of space and U+0009 to U+000D. The regular-expression engine is not modelled.
- Counts are unbounded naturals. Java `int` overflow after 2^31 - 1 flows is not modelled.
- `HashMap` iteration order is not modelled. The reports are specified for every order: each entry appears exactly once, and there are no other lines.
- `Pipeline.FlowLogParser.WritePortProtocolCountOutput` uses the corrected writer. That writer splits the key at its last comma, where the program re-splits at every comma (see Findings). The program's own line is `Reports.PortProtocolLineAsWritten`.
- `Pipeline.FlowLogParser.WritePortProtocolCountOutput` requires that every key hold a comma. `ParseFlowLogs` guarantees this by keeping the keys well formed. The program would fail with an index exception when a key has fewer than two comma fields.
- The program's own port/protocol line takes `split(",")[0]` and `split(",")[1]` of the key. `Reports.PortProtocolLineAsWritten` reproduces that line, and the rest of the model uses the corrected last-comma split.

## Findings

| source | as written | input that shows it | evidently intended | confidence | as-written member | corrected member |
|---|---|---|---|---|---|---|
| FlowLogParser.java:129 | the key is re-split at every comma, and only pieces 0 and 1 are written | a flow record whose destination port field is `80,81` with protocol `6` makes the key `80,81,tcp`, and the line written is `80,81,1`: the protocol is lost and the line reads as port `80`, protocol `81` | split the key at its last comma, since the protocol name never holds one, and write `80,81,tcp,1` | not executed | `Reports.AsWrittenDropsProtocol` | `Reports.PortProtocolLineRoundTrip` |
